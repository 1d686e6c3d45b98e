# A verified model of NVMeVirt

NVMeVirt is a kernel module that behaves like an NVMe drive: a dispatcher takes commands from the
submission rings, an FTL decides when each one would have finished on real flash, and a worker
copies the data and posts the completion at that time. This project models the parts of it that
keep state which must stay right over any run, and proves that it does.

The project has one shape throughout. A module first defines what an operation does on plain
values, and proves its properties as lemmas: invariants that every step keeps, properties of every
run, refinement of a simpler form. A class then holds the fields, arrays and loops of the source,
and each of its methods is proved to do exactly that operation, so the lemmas are about the code
with its loops. Fields and parameters named as history (`ghost` fields, `ticket`, `logs`, `fills`,
`issued`) have no counterpart in the source: they record what happened.

| module | source | what is proved |
|---|---|---|
| `Channel` | channel_model.c | The circular credit buffer refines an unbounded ledger of credits per time slot. No slot is ever charged more than it offers, the earliest slots pay first, load never makes an answer earlier, and a request waits exactly for the last slot that it pays from. |
| `IoQueue`, `IoTable` | io.c | The request table shared by dispatcher and worker, under every interleaving of enqueue, reclaim and worker steps: the two lists share out the slots, the I/O list stays ordered, nothing that the table accepted is lost, each request is completed once and recycled only afterwards. The linked lists in one array carry out exactly these steps. |
| `PQueue` | pqueue/pqueue.c | The heap with back-pointers: order, elements and positions after every operation; the validity check decides the order. |
| `Geometry` | conv_ftl.c, ssd.c | Page numbers are a bijection, and the write pointer visits each page of a line once. |
| `Ftl`, `Gc`, `ConvFtl` | conv_ftl.c | Maps, page status, counts, line lists and write pointers stay consistent, and garbage collection loses nothing. |
| `Zns`, `ZnsFtl` | zns_*.c, zns_ftl.h | The zone state machine: resources, write pointers, random write areas and write buffers after every command sequence. |
| `ZnsLedger`, `ZrwaLedger` | zns_*.c | Where the bytes of a write buffer, and of the buffer of a random write area, go over any run of commands. |
| `ZnsExamples` | zns_*.c | Short command sequences after which a promise of the commands is broken. |
| `ZoneDies` | zns_read_write.c | Where the pages of a zone lie: when they are on the device, and how they spread over the dies. |
| `Dma` | io.c | The coalescing transfer and the page-by-page transfer both move exactly the bytes that the PRP entries describe. |
| `Nand` | ssd.c, zns_ftl.c | How long each command occupies its LUN and when it is answered; programs and erases of a LUN are disjoint and in issue order, and a flush waits for all of them. |
| `Queues` | io.c, main.c | Submission entries are handled once and in order in spite of refusals; a host that lags by at most the queue size reads exactly what was posted. |
| `Hotness` | conv_ftl.c | The hash table is a finite map, a page keeps its slot for ever, counts are those of all accesses, and a scan migrates exactly the cold pages. |

`Arith` holds the minimum, lists without repetitions and facts about division.

Where a promise turns out not to hold of the code, the model keeps the code's behaviour. For each a lemma says for
all inputs exactly when it holds, and a concrete case shows that it can fail:

- Reopening a closed zone that has a random write area charges its buffer a second time, and the source
  asserts that this succeeds (zns_read_write.c:285-286): `Zns.ReopenAssertion`, `ZnsExamples.ReopenAssertionFails`.
- A write that fills a zone with a random write area does not give back the ZRWA resource
  (zns_read_write.c:20-42); the ASSERT there and the one against underflow (zns_ftl.h:75) are compiled to
  nothing (nvmev.h:54). `Zns.ZrwaFill` says which writes lose the resource, `Zns.FillsExhaustZrwa` that it never
  comes back, so that at the limit no zone can be opened with a random write area again, and
  `ZnsExamples.FillLosesZrwa` is a run of three commands that gets there. The absence of underflow is proved.
- The switch of a plain write has no `break` after its FULL and READ_ONLY cases (zns_read_write.c:167-173), so
  both report the status of an offline zone: `Zns.PlainStatus`, `ZnsExamples.FullReportsOffline`.
- A plain write takes its buffer space before it is checked and keeps it when it is rejected
  (zns_read_write.c:112-174): `Zns.RejectedWriteKeepsBytes`, `ZnsExamples.RejectedWrite`. A reset forgets the
  partly filled one-shot page of its zone, whose bytes are then never scheduled for release
  (zns_mgmt_send.c:108-124): `ZnsLedger.ResetLoses`, `ZnsExamples.ResetsEmptyBuffer`. `ZnsLedger.RunBalanced` and
  `ZnsLedger.LostForEver` are the ledger of a buffer over any run, with these two losses and no others.
- A reset refills the buffer of its zone's random write area at once, while releases of earlier flushes are still on
  their way (zns_mgmt_send.c:122-123, zns_read_write.c:358-360). When they come back the buffer is larger than it was
  made: `ZrwaLedger.SurplusOfResets` says exactly when and by how much, `ZnsExamples.ResetOverfills` is a run of four
  commands that doubles it.
- An append overwrites the address in its submission entry with the write pointer before it finds the buffer
  empty and is refused (zns_read_write.c:94-113, io.c:405-414). `Zns.RetriedAppend` says exactly when the second
  offer is the same as the first. It goes to the next zone if its zone is written to the end
  (`ZnsExamples.AppendChangesZone`), where for the last zone the source reads past the zone descriptors, and to
  another place of its zone if that has become a random write area (`ZnsExamples.AppendFillsArea`).
- An open with a random write area succeeds on a namespace that has none. With sizes of zero a write or an explicit
  flush of that zone can then divide by zero (zns_read_write.c:311-313, zns_mgmt_send.c:204): `Zns.WriteDivides`,
  `Zns.FlushDivides`, `Zns.NoZrwaSizes`, `ZnsExamples.NoAreasDivides`.
- The request table drops a request without a trace when only one free slot is left (io.c:210-214), while the handler
  reports that it took the command (io.c:442-467), so that `Queues.ProcIoSq` counts it as handled and it never
  completes; a release of buffer space that is dropped (io.c:285-289) gives nothing back: `IoQueue.DroppedExactly`,
  `IoQueue.DroppedInRun`. What the table accepts is never lost.
- __lpn_to_ppa does not keep the dies of a zone inside the device by itself: `ZoneDies.ZoneOnDevice`,
  `ZoneDies.ZoneOffDevice`. `ZoneDies.DividingLayout` shows that it does for all zones when the dies of a zone
  divide those of the device.
- A host that lags by more than the completion queue's size misses completions, and after an even number of whole
  rounds the phase tag makes it read a wrong one: `Queues.OverrunSlot` for every lag. `Queues.LagBound` shows that
  the bound is exact, with a case for every size and lag beyond it.
- The aging of access counts (conv_ftl.c:1587-1590) compares the time of an access with itself, so it never
  happens: `Hotness.NeverAges`, over whole runs `Hotness.RunInv`, and a case in `Hotness.NotAgedAfterTwoSeconds`.

## Model

| member | source | states |
|---|---|---|
| Channel.CreditsWithinBandwidth | channel_model.h:40-42 | The credits of a slot are the largest whole number of transfer units that keeps within the bandwidth. |
| Channel.TxTimeWithinBandwidth | channel_model.h:40-42 | The time of a transfer unit is what its bytes take at that bandwidth, in whole nanoseconds, rounded down. |
| Channel.SlotSpan | channel_model.c:42-71 | Slot n is the 4000 nanoseconds from 4000 n on. |
| Channel.UnitsHold | channel_model.c:31-45 | The units of a request are the fewest that hold its bytes. |
| Channel.ChargeDrainsEarliestFirst | channel_model.c:84-105 | Paying drains the earliest slots first: all slots before the last one touched are empty, the last pays exactly the rest, no other slot changes, and a bill stays open only at the end of the window. |
| Channel.ChargeMonotone | channel_model.c:84-105 | Fewer credits and a larger bill end no earlier and leave no more credits anywhere. |
| Channel.ElapseKeepsCredits | channel_model.c:42-57 | Advancing the clock changes the credits of no slot that is still ahead. |
| Channel.ElapseIsClampedShift | channel_model.c:42-57 | Advancing by any number of slots is the same as advancing by that number clamped to the used length. |
| Channel.AdvanceRepresents | channel_model.c:42-57 | Resetting only the clamped cells and moving the head gives a ring that stands for the ledger at the new clock, with every slot past the used length at its maximum. |
| Channel.ChargeRepresents | channel_model.c:84-112 | After paying, the new used length, computed from the last position around the wrap, covers every slot that was touched. |
| Channel.ServeMonotone | channel_model.c:31-119 | For the same clock and request a busier channel answers no earlier and stays busier. |
| Channel.ServeValid | channel_model.c:31-119 | A request keeps all slots between nothing and their maximum and never completes before it may start. |
| Channel.ServeOnlyTakes | channel_model.c:31-119 | A request never adds credits to a slot ahead. |
| Channel.BandwidthSafety | channel_model.c:31-119 | Over a whole trace the credits charged to an absolute slot are never more than it offers, and what is left is exactly what it offered less what was charged. |
| Channel.LoadNeverHelps | channel_model.c:31-119 | Over a whole trace a ring with pointwise fewer credits answers every request no earlier and ends pointwise lower. |
| Channel.IdleChannelNoDelay | channel_model.c:74-119 | A request that finds all slots from its own on untouched takes its transfer time and no queueing delay, however long it is. |
| Channel.BusyChannel | channel_model.c:66-119 | Whoever takes credits from a slot waits for it: the answer is no earlier than start plus transfer time plus one slot's time for every slot from the request's own to that one beyond the expected ones. It is exactly that for the last slot that pays, and for the last slot of the window if the window cannot pay the bill; a request outside the window takes nothing. |
| Channel.CreditRing.constructor | channel_model.c:16-29 | The new ring stands for the untouched ledger of that bandwidth. |
| Channel.CreditRing.Reset | channel_model.c:45-52 | A memset changes its cells to the maximum and no others. |
| Channel.CreditRing.ResetFromHead | channel_model.c:45-52 | The cells behind the head are reset, in two pieces when they wrap around. |
| Channel.CreditRing.AdvanceHead | channel_model.c:42-57 | The lazy head advance does to the ledger what the passing of time does. |
| Channel.CreditRing.Pay | channel_model.c:85-89 | One turn of the loop takes from slot i of the window what it has, up to the bill. |
| Channel.CreditRing.Drain | channel_model.c:79-105 | The consuming loop, which stops in front of the head, does to the window what paying from the request's slot does. |
| Channel.CreditRing.Account | channel_model.c:79-112 | Paying and extending the used length keeps the ring standing for the charged ledger. |
| Channel.CreditRing.Request | channel_model.c:31-119 | chmodel_request returns the answer of the unbounded ledger and leaves a ring that stands for its new state, within the stated 32-bit ranges. |
| IoQueue.PlaceMeaning | io.c:243-258 | Everything behind the insertion point is not yet due and due later than the new request; the entry in front of it is due already or no later. |
| IoQueue.PlaceSplitsKeys | io.c:243-258 | In an ordered list the insertion point splits the keys max(target, now) at the new key, in spite of the early stop on overdue entries. |
| IoQueue.EnqueueEffects | io.c:201-348 | The new request keeps what it was given, stands behind exactly those that are due or due no later, and no other entry changes. |
| IoQueue.DroppedExactly | io.c:210-214 | A request is dropped exactly when fewer than two free slots are left. |
| IoQueue.DroppedInRun | io.c:210-214 | After 16383 requests that the worker has not come to, every further one is dropped. |
| IoQueue.EnqueueKeepsInv | io.c:201-276 | Enqueueing keeps the invariant; the last free slot is never given away. |
| IoQueue.ReclaimKeepsInv | io.c:350-399 | Reclaiming a completed prefix keeps the invariant, whatever slot the worker's cursor is on. |
| IoQueue.VisitKeepsInv | io.c:574-645 | A worker step keeps the invariant, also when its cursor is on a recycled slot, and at any later clock. |
| IoQueue.StepKeepsInv | io.c:201-645 | Every enabled step keeps the invariant. |
| IoQueue.InitialInv | io.c:686-708 | The initial table satisfies the invariant. |
| IoQueue.ReachableInv | io.c:201-645 | In every interleaving, at every point: the lists share out all slots, a slot is free, the cursor is on no unused slot, the I/O list is ordered, completed requests were copied and are due, and no accepted request is lost. |
| IoQueue.NoneCompletedBehindUndue | io.c:350-399 | No completed request sits behind one that is not due, so the prefix reclaim misses none. |
| IoQueue.ReclaimTakesCompleted | io.c:350-399 | A reclaim cuts off exactly the completed front part of the I/O list: what follows first is not completed. |
| IoQueue.StepEffects | io.c:350-399 | In every run a slot is recycled only after its request was copied and completed, and a request is completed only by the worker, not before its target time and never twice. |
| IoQueue.EachCompletedOnce | io.c:571-645 | When nothing is left uncompleted, the completion log is a permutation of all accepted requests. |
| IoQueue.VisitEntry | io.c:574-645 | A worker step on a list entry changes that entry only and moves to the next one. |
| IoQueue.PassCompletesAllDue | io.c:571-645 | An undisturbed pass copies every request and completes exactly those that are due by the clock when the worker comes to them. |
| IoQueue.WholePass | io.c:566-645 | From any reachable state with an idle worker, one step to begin and one for each of the entries of the I/O list copy every entry, complete exactly those not completed before that are due at their visit, log exactly their tickets in order, and leave the worker idle. |
| IoQueue.BeginLeads | io.c:566-574 | A pass begins on the first entry of the I/O list, and not at all if there is none. |
| IoQueue.PassLogs | io.c:571-645 | A pass appends to the completion log the tickets of the entries that were due when the worker came to them, in the order of the list. |
| IoTable.LinkInIo | io.c:243-275 | Linking a slot in anywhere gives the doubly linked list of the longer sequence with the right head and tail. |
| IoTable.MoveFree | io.c:380-398 | After a reclaim the free list is the old one followed by the prefix that was cut off. |
| IoTable.MoveIo | io.c:380-398 | After a reclaim the I/O list is the rest, with its links ended in front. |
| IoTable.EnqueueEncodes | io.c:201-276 | The relinked table stands for the queue after the enqueue step. |
| IoTable.ReclaimEncodes | io.c:350-399 | The relinked table stands for the queue after the reclaim step. |
| IoTable.NextIsSuccessor | io.c:571-645 | The next link of a slot is its successor in whichever list it is in. |
| IoTable.ProcInfo.constructor | io.c:686-708 | The links written at start-up are those of the initial queue. |
| IoTable.ProcInfo.FindPlace | io.c:247-258 | The backward walk over prev links finds the slot in front of the insertion point. |
| IoTable.ProcInfo.Link | io.c:226-275 | The four cases of linking change exactly the links of the new slot and its neighbours. |
| IoTable.ProcInfo.EnqueueRequest | io.c:201-348 | Both enqueue functions do the enqueue step, or nothing when one free slot is left. |
| IoTable.ProcInfo.FindReclaimable | io.c:365-378 | The forward walk ends on the last slot of the longest reclaimable prefix. |
| IoTable.ProcInfo.Unlink | io.c:380-398 | Cutting the prefix off changes exactly the four links at its ends. |
| IoTable.ProcInfo.ReclaimCompleted | io.c:350-399 | Does the reclaim step. |
| IoTable.ProcInfo.StartPass | io.c:566-574 | The worker starts at the front of the I/O list. |
| IoTable.ProcInfo.VisitSlot | io.c:574-645 | Does the worker step: copy once, complete when due, follow the next link. |
| IoTable.ProcInfo.WorkerPass | io.c:566-645 | The worker's walk over the next links is one whole pass: a beginning and one visit of every entry, from which WholePass says what becomes of each. |
| PQueue.SiftUpOrdered | pqueue/pqueue.c:56-71 | Sifting up restores the heap order when only the edge above the start may be wrong, and permutes the elements. |
| PQueue.SiftDownOrdered | pqueue/pqueue.c:87-102 | Sifting down restores the heap order when only the edges below the start may be wrong, and permutes the elements. |
| PQueue.RootIsLeast | pqueue/pqueue.c:156-179 | In an ordered heap the root has the least priority of all. |
| PQueue.SubtreeValidMeaning | pqueue/pqueue.c:225-242 | The recursive check of a subtree succeeds exactly when every edge inside it is in order. |
| PQueue.IsValidDecidesOrder | pqueue/pqueue.c:244-247 | The check of the whole heap succeeds exactly when the heap is in order. |
| PQueue.Appended | pqueue/pqueue.c:104-129 | Appending an element and sifting it up gives a heap of the old elements and the new one. |
| PQueue.PriorityChanged | pqueue/pqueue.c:131-142 | After any change of one priority the sift that the source selects repairs the heap. |
| PQueue.CellReplaced | pqueue/pqueue.c:144-154 | After the last element has replaced any other the sift that the source selects repairs the heap. |
| PQueue.DropElements | pqueue/pqueue.c:144-168 | Replacing an element by the last one removes exactly that element. |
| PQueue.Heap.constructor | pqueue/pqueue.c:14-42 | The new heap is empty and valid. |
| PQueue.Heap.BubbleUp | pqueue/pqueue.c:56-71 | Moving a hole up has the result of sifting by swaps, and every live element knows its cell. |
| PQueue.Heap.MaxChild | pqueue/pqueue.c:73-85 | The child with the smaller priority, or 0. |
| PQueue.Heap.PercolateDown | pqueue/pqueue.c:87-102 | Moving a hole down has the result of sifting by swaps, and every live element knows its cell. |
| PQueue.Heap.Insert | pqueue/pqueue.c:104-129 | Adds exactly the element; order and positions hold. |
| PQueue.Heap.ChangePriority | pqueue/pqueue.c:131-142 | Changes one priority, keeps the elements; order and positions hold. |
| PQueue.Heap.Remove | pqueue/pqueue.c:144-154 | Removes exactly the element from any position; order and positions hold. |
| PQueue.Heap.PercolateLast | pqueue/pqueue.c:144-168 | Sifting the refilled cell down is right also when that cell was the last one. |
| PQueue.Heap.Pop | pqueue/pqueue.c:156-168 | Returns and removes an element of least priority, or none exactly when the heap is empty; order and positions hold. |
| PQueue.Heap.Peek | pqueue/pqueue.c:170-179 | An element of least priority, and none exactly when the heap is empty. |
| Geometry.PgIdxRoundTrip | conv_ftl.c:39-53 | The page number of a valid address is below the total and determines the address. |
| Geometry.PgIdxOnto | conv_ftl.c:39-53 | Every number below the total is the page number of a valid address. |
| Geometry.PgIdxInjective | conv_ftl.c:39-53 | Different valid addresses have different page numbers. |
| Geometry.WriteIndexRoundTrip | conv_ftl.c:344-410 | The place of a page in the write order is below the pages of a line and determines the page. |
| Geometry.PageAtRoundTrip | conv_ftl.c:344-410 | Every place in the write order is that of a valid page of the line. |
| Geometry.StepWpIsSuccessor | conv_ftl.c:353-377 | One step of the write pointer is one step in the write order; the line is given up exactly after its last page. |
| Geometry.FirstPagesCount | ssd.c:206-255 | The first n places of the write order are n pages. |
| Geometry.HandedOutInOrder | conv_ftl.c:590-596 | The pages handed out from any valid write pointer are the next ones of the write order. |
| Geometry.FreshLineVisitedOnce | conv_ftl.c:344-410 | From a fresh line exactly the pages of that line are handed out, each once, before a new line is taken. |
| Geometry.FreshLineOrder | conv_ftl.c:344-410 | The k-th page handed out from a fresh line, in closed form: its column goes first, then the channel, the LUN and the row. |
| Ftl.NextPageIsFree | conv_ftl.c:574-599 | The next page of a write pointer is FREE and lies in a line that is not being collected. |
| Ftl.ProgramCounts | conv_ftl.c:950-970 | Writing a page keeps the valid and invalid counts of all lines and blocks true. |
| Ftl.ProgramFilled | conv_ftl.c:1019-1036 | After writing a page, again exactly the pages that the write order has not reached are FREE. |
| Ftl.ProgramFrontier | conv_ftl.c:344-410 | Writing a page moves the frontier of the written line by one and no other, also across a line end. |
| Ftl.ProgramLastPage | conv_ftl.c:378-392 | A line that the write pointer leaves has no FREE page, so a line with missing valid pages has invalid ones, as the source asserts. |
| Ftl.ProgramRoles | conv_ftl.c:344-410 | Writing a page keeps free list, full list, victims and current lines a partition of all lines. |
| Ftl.ProgramForward | conv_ftl.c:1019-1036 | Writing a page keeps the forward and the reverse map inverse to each other, with the old copy, if any, as the only stale page more. |
| Gc.VictimCounts | conv_ftl.c:1066-1087 | A victim has no FREE page and fewer valid pages than a line has. |
| Gc.TakeVictimConsistent | conv_ftl.c:1066-1087 | Taking the victim out of the queue leaves everything consistent with that line under collection. |
| Gc.SkipPage | conv_ftl.c:1114-1161 | A page that is not VALID may be passed over. |
| Gc.MovePage | conv_ftl.c:1019-1064 | The reverse map names the logical page that lives on a VALID page, and moving that logical page keeps everything consistent. |
| Gc.EraseConsistent | conv_ftl.c:979-998 | Erasing a block of scanned pages keeps everything consistent. |
| Gc.FreeLineConsistent | conv_ftl.c:1163-1172 | Freeing the erased victim restores the full invariant. |
| Gc.RoomForMove | conv_ftl.c:344-410 | One free line is enough for a whole collection: the write pointer crosses at most one line boundary. |
| Gc.MoveProgress | conv_ftl.c:1114-1161 | A copy moves exactly one logical page, to a page that was FREE and outside the victim. |
| Gc.EraseProgress | conv_ftl.c:979-998 | An erase changes the status of that block's pages only. |
| Gc.ScanNext | conv_ftl.c:1114-1161 | One turn of the inner loop scans exactly one page more. |
| Gc.ScanCarry | conv_ftl.c:1193-1228 | The nested loops scan every page of the victim line exactly once. |
| Gc.BlockScanned | conv_ftl.c:1199-1211 | When a block is erased on the last flash page all its pages were scanned. |
| Gc.CollectedCount | conv_ftl.c:1174-1234 | A collection raises the number of FREE pages by the invalid count of the victim. |
| Gc.ScanIsCollection | conv_ftl.c:1174-1234 | GC loses nothing: the same logical pages stay mapped, those on the victim move to pages that were FREE, all others stay, the victim is FREE throughout, the invariant holds, and the free list has lost at most one line and gained the victim. |
| Gc.GcRunKeepsData | conv_ftl.c:1174-1234 | Over any number of collections the same logical pages stay mapped, a free line remains for the next one, and each gains at least one FREE page. |
| Gc.HomesDistinct | conv_ftl.c:1019-1064 | Different logical pages live on different physical pages. |
| Gc.InvalidateReady | conv_ftl.c:871-919 | All assertions of mark_page_invalid on the page, its block and its line hold, and a line is in the full list exactly when all its pages are valid. |
| Gc.InvalidateConsistent | conv_ftl.c:871-919 | Invalidating a stale page keeps everything consistent, and a full line becomes a victim. |
| Gc.ProgramConsistent | conv_ftl.c:1019-1036 | Writing any logical page keeps everything consistent, with the old copy stale. |
| Gc.OverwriteInv | conv_ftl.c:871-970 | Writing a logical page and invalidating its old copy keeps the invariant, and the assertions on the way hold. |
| Gc.ValidPageBounds | conv_ftl.c:889-904 | A VALID page leaves room in the invalid counts of its block and line, and no valid count exceeds its total. |
| Gc.InitialInv | conv_ftl.c:112-149 | The state after initialisation satisfies the invariant. |
| ConvFtl.HeapHasRoom | conv_ftl.c:112-149 | A heap sized for all lines has room for any line that is not in it. |
| ConvFtl.FreePageRoom | conv_ftl.c:950-970 | The assertions of mark_page_valid: a FREE page leaves room in the counts of its block and line. |
| ConvFtl.GcWriteReady | conv_ftl.c:1019-1064 | Everything that gc_write_page indexes or asserts is in order. |
| ConvFtl.UnscannedPages | conv_ftl.c:1123-1131 | The assertion of clean_one_flashpg: no page of a victim that is still to be scanned is FREE. |
| ConvFtl.SkipFlashPg | conv_ftl.c:1123-1136 | A flash page without VALID pages may be passed over as a whole. |
| ConvFtl.ConvFtl.constructor | conv_ftl.c:661-711 | The initialised object satisfies the invariant. |
| ConvFtl.ConvFtl.PushVictim | conv_ftl.c:385-392 | A line enters the victim heap; positions are nonzero exactly for members and the counter is right. |
| ConvFtl.ConvFtl.PopVictim | conv_ftl.c:1081-1083 | The line with the fewest valid pages leaves the victim heap and its position becomes 0. |
| ConvFtl.ConvFtl.MarkPageValid | conv_ftl.c:950-970 | Sets the status and the counts of the block and the line, and nothing else. |
| ConvFtl.ConvFtl.GetNextFreeLine | conv_ftl.c:229-244 | Takes the first line of the free list, or none exactly when it is empty. |
| ConvFtl.ConvFtl.StepDigits | conv_ftl.c:353-377 | The branches of the write pointer compute its step. |
| ConvFtl.ConvFtl.AdvanceWritePointer | conv_ftl.c:344-410 | Moves the pointer, and at the end of a line retires it and takes the next free one. |
| ConvFtl.ConvFtl.RetireLine | conv_ftl.c:378-392 | A used-up line goes to the full list exactly when all its pages are valid, else to the victim heap. |
| ConvFtl.ConvFtl.ChangeLine | conv_ftl.c:378-399 | The used-up line joins the list it belongs to and the first free line takes its place, at its first page. |
| ConvFtl.ConvFtl.ProgramPage | conv_ftl.c:1027-1036 | The four updates together are one program step. |
| ConvFtl.ConvFtl.GcWritePage | conv_ftl.c:1019-1064 | Writes the logical page that the reverse map names to the next page of the GC pointer. |
| ConvFtl.ConvFtl.SelectVictimLine | conv_ftl.c:1066-1087 | The victim has the least valid count of all victim lines; none is chosen exactly when all have too many and the collection is not forced, or there are none. |
| ConvFtl.ConvFtl.CountValid | conv_ftl.c:1123-1131 | The count is 0 exactly when the flash page has no VALID page. |
| ConvFtl.ConvFtl.CleanPage | conv_ftl.c:1150-1160 | One page is scanned and moved if it is VALID. |
| ConvFtl.ConvFtl.CleanOneFlashPg | conv_ftl.c:1114-1161 | One flash page of one LUN is scanned. |
| ConvFtl.ConvFtl.MarkBlockFree | conv_ftl.c:979-998 | All pages of the block become FREE and its counts 0. |
| ConvFtl.ConvFtl.MarkLineFree | conv_ftl.c:1163-1172 | The counts of the line become 0 and it joins the end of the free list. |
| ConvFtl.ConvFtl.CleanLun | conv_ftl.c:1199-1226 | Scans a flash page and erases its block exactly on the last one. |
| ConvFtl.ConvFtl.CopyBack | conv_ftl.c:1193-1228 | After the three loops all pages of the victim are scanned and all its blocks are erased. |
| ConvFtl.ConvFtl.DoGc | conv_ftl.c:1174-1234 | From any consistent state with a free line: -1 and no change exactly when there is no suitable victim; else a victim with the least valid count is collected without loss and credits_to_refill is its invalid count, by which the FREE pages rose. |
| ConvFtl.ConvFtl.LowerVpc | conv_ftl.c:896-911 | Lowers the valid count of a line inside the heap or outside it; the heap stays in order. |
| ConvFtl.ConvFtl.LowerLine | conv_ftl.c:896-919 | With the assertions on the line: one valid page less and one invalid more; a full line, and no other, becomes a victim. |
| ConvFtl.ConvFtl.MarkPageInvalid | conv_ftl.c:871-919 | Does the invalidate step; every assertion on the way holds. |
| Zns.AllReleasable | zns_ftl.h:73-78 | No release of a zone resource underflows. |
| Zns.CloseInv | zns_mgmt_send.c:7-29 | Closing keeps the invariant. |
| Zns.FinishInv | zns_mgmt_send.c:31-64 | Finishing keeps the invariant. |
| Zns.OpenInv | zns_mgmt_send.c:66-106 | Opening, with or without a random write area, keeps the invariant. |
| Zns.ResetInv | zns_mgmt_send.c:108-156 | Resetting keeps the invariant. |
| Zns.OfflineInv | zns_mgmt_send.c:158-175 | Taking a zone offline is refused in every reachable state. |
| Zns.FlushInv | zns_mgmt_send.c:177-228 | The explicit flush of a random write area keeps the invariant. |
| Zns.SendOneInv | zns_mgmt_send.c:230-258 | Every management action keeps the invariant. |
| Zns.SendOneOutcome | zns_mgmt_send.c:230-258 | In every reachable state an action succeeds exactly when the zone's state, the resources and the addressed range admit it, then makes the transition of the zone state machine, otherwise changes nothing, and touches no other zone. |
| Zns.SendOneRefusal | zns_mgmt_send.c:7-258 | Which refusal each inadmissible case gets, as an if-and-only-if for every status: by zone state for close, finish and open, by the first exhausted resource for open, by zone, window, granule and state for flush. |
| Zns.SendAllReachesAll | zns_mgmt_send.c:260-285 | Select-all closes, finishes or resets every zone. |
| Zns.SendAllInOrder | zns_mgmt_send.c:260-285 | Select-all is the action on one zone after the other, in the order of their numbers. |
| Zns.SendAllReleases | zns_mgmt_send.c:260-285 | After finishing or resetting all zones no OPEN or ACTIVE resource is held, and of ZRWA only that of the fills; after closing all none is open. |
| Zns.TilesAppend | zns_read_write.c:126-176 | A write at the write pointer extends the tiling of the zone. |
| Zns.TilesCoverOnce | zns_read_write.c:126-176 | A tiling covers every block exactly once and in order. |
| Zns.ReleaseTelescopes | zns_read_write.c:183-208 | The bytes that a write schedules for release depend only on where it starts and ends, so those of consecutive writes add up. |
| Zns.AcceptLog | zns_read_write.c:176-208 | An accepted write keeps the tiling and the buffer balance of its zone. |
| Zns.AcceptInv | zns_read_write.c:176-208 | An accepted write keeps the invariant. |
| Zns.PlainAccepted | zns_read_write.c:94-176 | A plain write or append is accepted exactly under the stated conditions, and then at the write pointer. |
| Zns.PlainInv | zns_read_write.c:65-219 | Every plain write or append, accepted or not, keeps the invariant. |
| Zns.PlainStatus | zns_read_write.c:112-174 | A plain write never reports FULL or READ_ONLY; it reports OFFLINE exactly when it passes all other checks of a full zone. |
| Zns.PlainRefusal | zns_read_write.c:94-208 | Which other answer a plain write gets, as an if-and-only-if for every one of them. |
| Zns.PlainEffect | zns_read_write.c:94-208 | An accepted plain write puts its data at the write pointer, as the last extent of its zone, moves the pointer behind them, leaves the zone FULL exactly at its end, and changes no other zone. |
| Zns.RetriedAppend | zns_read_write.c:94-113 | A refused append and its second offer do the same, with the data in the same place, if its zone was not written to the end and, unless its address never changed, is no random write area by then; if either offer would be accepted, exactly if so. From the end of its zone it goes to the next one, also where there is none. |
| Zns.ZrwaFlushLands | zns_read_write.c:311-332 | A ZRWA write moves the write pointer to the zone end, or by whole flush granules, no more than that takes, to less than a window before its last block. |
| Zns.ZrwaMoveInv | zns_read_write.c:311-332 | The implicit flush keeps the invariant. |
| Zns.ZrwaInv | zns_read_write.c:221-377 | Every ZRWA write keeps the invariant, and an accepted one ends inside the new window unless it filled the zone. |
| Zns.ZrwaAccepted | zns_read_write.c:258-332 | A ZRWA write is accepted exactly under the stated conditions, then moves the write pointer by the implicit flush, and touches no other zone; `Zns.ZrwaFill` says when this fills the zone. |
| Zns.ZrwaRefusal | zns_read_write.c:258-329 | Which other answer a ZRWA write gets, as an if-and-only-if for every one of them. |
| Zns.ZrwaEffect | zns_read_write.c:277-332 | What a ZRWA write leaves of its zone and its buffer for every outcome: reopening and flush are paid from the zone's own buffer, and a write that finds no room for the flush has still reopened and charged the zone. |
| Zns.ReleasesOneshots | zns_read_write.c:338-365 | The release loop of a ZRWA write schedules exactly the one-shot pages that end among the pages flushed. |
| Zns.ZrwaFill | zns_read_write.c:20-42 | An accepted ZRWA write makes the zone FULL and loses its ZRWA resource exactly when it ends at the zone end and inside the window of the write pointer; the ZRWA count never changes. |
| Zns.RunKeepsFills | zns_mgmt_send.c:7-285 | No command sequence brings a lost ZRWA resource back. |
| Zns.FillsExhaustZrwa | zns_mgmt_send.c:66-106 | Once the lost resources reach the limit no zone holds one, and no later open with a random write area succeeds. |
| Zns.ExecInv | zns_read_write.c:379-395 | Every command keeps the invariant. |
| Zns.InitialInv | zns_ftl.c:10-78 | The initial zones and counters satisfy the invariant. |
| Zns.EveryRunKeepsZones | zns_mgmt_send.c:7-285 | After any command sequence: OPEN counts the opened zones, ACTIVE the opened and closed ones, ZRWA the active zones with a random write area plus the fills; limits hold; READ_ONLY and OFFLINE do not occur; write pointers are in their zones, at the end only when FULL, and on flush granules. |
| Zns.EveryRunTilesZones | zns_read_write.c:65-219 | After any command sequence every block of a plain zone below the write pointer lies in exactly one accepted write since the last reset. |
| Zns.BufferBalance | zns_read_write.c:92-208 | Bytes allocated for the writes accepted since the last reset and not scheduled for release are those of the partly filled one-shot page, and none when the zone is written to its end. |
| ZnsLedger.PartialIsUnscheduled | zns_read_write.c:183-208 | The bytes that a zone holds without a release scheduled are those of its partly filled one-shot page. |
| ZnsLedger.ExecBalanced | zns_read_write.c:65-219 | For every command and buffer: what was left, held and refilled is what is left, held, scheduled and lost. |
| ZnsLedger.RunBalanced | zns_read_write.c:65-219 | So it is over every command sequence. |
| ZnsLedger.LostForEver | zns_mgmt_send.c:108-156 | From the start on, once the worker has given back all that was scheduled, a buffer lacks exactly what partly filled pages hold and what rejected writes and resets have lost. |
| ZnsLedger.ResetLoses | zns_mgmt_send.c:108-156 | A reset loses the partly filled one-shot page of its zone: the buffer is not refilled and nothing of it will be scheduled. |
| ZrwaLedger.ExecSquare | zns_read_write.c:277-365 | For every command and buffer of a random write area: what is left, held without a release scheduled, and pending makes up the size of the buffer and what was pending at the last reset. |
| ZrwaLedger.RunSquare | zns_read_write.c:277-365 | So it is over every command sequence. |
| ZrwaLedger.SurplusOfResets | zns_mgmt_send.c:108-124 | From the start on, once the worker has given back all that was scheduled, the buffer is larger than its size exactly if more was pending at the last reset of the zone than the zone now holds, and by that difference. |
| ZrwaLedger.WriteHolds | zns_read_write.c:311-365 | With flushes of whole pages an accepted ZRWA write takes what it schedules, the price of reopening, and what the partly filled one-shot page at the write pointer has grown by. |
| Zns.RejectedWriteKeepsBytes | zns_read_write.c:112-174 | Bytes are taken and lost exactly when the buffer has room for a write that is not admissible, which is then rejected and changes nothing else; without room the write is refused and changes nothing. |
| Zns.ReopenAssertion | zns_read_write.c:258-291 | The assertion in the reopening of a closed zone fails exactly when an otherwise admissible write meets a closed zone whose buffer has less than one random write area left. |
| Zns.WriteDivides | zns_read_write.c:258-332 | A ZRWA write divides by zero exactly when it is otherwise admissible, the namespace has no flush granularity, and it ends past the window. |
| Zns.FlushDivides | zns_mgmt_send.c:177-205 | An explicit flush divides by zero exactly when the namespace has no flush granularity and the block is in the window of a zone with a random write area. |
| Zns.NoZrwaSizes | zns_read_write.c:236-332 | With sizes of zero no ZRWA write is accepted: with the write pointer on block 0 it divides by zero or meets the failing assertion, in all other zones it is refused. |
| ZnsExamples.ReopenAssertionFails | zns_read_write.c:277-291 | Open with ZRWA, close, write, close: the next write meets the failing assertion. |
| ZnsExamples.FillLosesZrwa | zns_read_write.c:318-332 | Open with ZRWA, fill, reset: all zones are empty, and an open with ZRWA is refused for want of a resource. |
| ZnsExamples.FillSchedules | zns_read_write.c:327-365 | The filling write of that run succeeds and schedules the whole buffer of the zone for release. |
| ZnsExamples.ResetOverfills | zns_mgmt_send.c:122-123 | The same run: the write has scheduled the whole buffer for release when the reset refills it, and when those bytes come back twice its size is left. |
| ZnsExamples.FullReportsOffline | zns_read_write.c:167-173 | Finish an empty zone and write at its write pointer: the status is that of an offline zone. |
| ZnsExamples.RejectedWrite | zns_read_write.c:112-132 | The first write of a namespace, away from the write pointer, is rejected and its buffer space is gone. |
| ZnsExamples.AppendChangesZone | zns_read_write.c:94-113 | An append to a full zone, refused once for want of buffer space, succeeds in the next zone. |
| ZnsExamples.AppendFillsArea | zns_read_write.c:379-395 | An append, refused once, fills a zone that was reset and opened with a random write area in between; at its own address it would have left the zone as it is. |
| ZnsExamples.ResetsEmptyBuffer | zns_mgmt_send.c:108-124 | A page written and the zone reset, twice: a new namespace has all zones empty and no buffer space, and none of it will come back. |
| ZnsExamples.NoAreasDivides | zns_read_write.c:311-313 | On a namespace without random write areas, after an open with one, a write and an explicit flush both divide by zero. |
| ZnsFtl.ZnsFtl.constructor | zns_ftl.c:10-78 | The initialised object is in the initial state. |
| ZnsFtl.ZnsFtl.Acquire | zns_ftl.h:63-71 | Raises the counter exactly when it is below its limit. |
| ZnsFtl.ZnsFtl.ReleaseHeld | zns_mgmt_send.c:38-50 | The fall-through releases exactly what the zone holds. |
| ZnsFtl.ZnsFtl.Send | zns_mgmt_send.c:230-258 | Does the step of the action, with the assertion of release_zone_resource proved wherever it is called. |
| ZnsFtl.ZnsFtl.ZoneManagementSend | zns_mgmt_send.c:260-285 | Does the action on one zone and answers its status, which is SUCCESS exactly if the action is admissible; or does it on all zones in order and answers SUCCESS. |
| ZnsFtl.ZnsFtl.AllocateWb | ssd.c:21-35 | Buffer space is taken whole or not at all. |
| ZnsFtl.ZnsFtl.AllocateZrwa | ssd.c:21-35 | The same for the buffer of a random write area. |
| ZnsFtl.ZnsFtl.IncreaseWritePtr | zns_read_write.c:20-42 | Moves the write pointer; at the end of the zone it becomes FULL and OPEN and ACTIVE are released. |
| ZnsFtl.ZnsFtl.FlushPages | zns_read_write.c:183-208 | The release loop schedules the bytes that the telescoping sum counts. |
| ZnsFtl.ZnsFtl.ScheduleReleases | zns_read_write.c:100-102 | Page numbers in the namespace and page offsets in the zone agree. |
| ZnsFtl.ZnsFtl.FlushArea | zns_read_write.c:338-365 | The release loop of a ZRWA write schedules the bytes that the recursive form counts. |
| ZnsFtl.ZnsFtl.OpenForWrite | zns_read_write.c:134-174 | Does the state switch of a plain write. |
| ZnsFtl.ZnsFtl.CarryOut | zns_read_write.c:176-208 | Does the accepted write. |
| ZnsFtl.ZnsFtl.WriteZone | zns_read_write.c:65-219 | Does the plain write with all its refusals, and keeps the invariant. |
| ZnsFtl.ZnsFtl.MoveZrwa | zns_read_write.c:311-365 | Does the implicit flush and schedules the releases of its one-shot pages. |
| ZnsFtl.ZnsFtl.OpenForZrwa | zns_read_write.c:277-309 | Does the state switch of a ZRWA write. |
| ZnsFtl.ZnsFtl.WriteZrwaZone | zns_read_write.c:221-377 | Does the ZRWA write unless the assertion fails, and fails exactly when the specification does; the releases are those of ReleasesOneshots. |
| ZnsFtl.ZnsFtl.Write | zns_read_write.c:379-395 | Chooses the path by the zone's random write area; outcome, state and the address left in the command are those of the specification. |
| ZoneDies.ZoneOnDevice | zns_read_write.c:44-63 | All pages of a zone, of any size, lie on existing channels and LUNs exactly if the dies that it uses, counted from its first one, do not run over the last die of the device. |
| ZoneDies.ZoneOffDevice | zns_read_write.c:44-63 | A layout and a page of it that __lpn_to_ppa puts on a LUN that does not exist. |
| ZoneDies.DividingLayout | zns_read_write.c:44-63 | They do for every zone if dies_per_zone divides the number of dies. |
| ZoneDies.NeighboursOnDifferentDies | zns_read_write.c:44-63 | Any dies_per_zone one-shot pages in a row are on different dies. |
| ZoneDies.DieOf | zns_read_write.c:51-59 | The die of a page, LUN times channels plus channel, is the first die of its zone and the one-shot page's number in the zone, counted round the dies of a zone. |
| ZoneDies.ZonesOnDifferentDies | zns_read_write.c:51-52 | If dies_per_zone divides the dies, two zones fewer than Dies / dies_per_zone apart have no die in common, and two zones begin on the same die exactly if they are whole turns apart. |
| ZoneDies.OneShotOnOneDie | zns_read_write.c:44-63 | The pages of a one-shot page are on one die, in order. |
| Dma.Extend | io.c:55-95 | A copy whose host bytes are the right ones extends the transfer. |
| Dma.InEntry | io.c:60-82 | The bytes of one PRP entry are adjacent in host memory. |
| Dma.CoveredSteps | io.c:55-95 | Every entry covers something and the last one covers the rest, so both loops end. |
| Dma.HostAddress | io.c:55-75 | Byte i lies in prp1's page, in prp2's if there are no more, and otherwise in the page that the list names for it. |
| Dma.JoinedStartAligned | io.c:170-183 | An entry with an offset has no adjacent successor, so entries that are joined start on a page. |
| Dma.InJoined | io.c:170-183 | The bytes of joined entries are one stretch of host memory. |
| Dma.JoinedSize | io.c:167-185 | The size that the coalescing loop computes is that of the bytes of the joined entries. |
| Dma.ExtendJoined | io.c:161-196 | One turn of the coalescing loop extends the transfer by exactly the joined entries. |
| Dma.CollectPrps | io.c:123-152 | The PRP buffer receives prp1 and then prp2 or the list, one entry for every page of the transfer. |
| Dma.Join | io.c:178-183 | The inner loop joins the longest stretch of entries in adjacent pages from its start, and reports its size. |
| Dma.PerformIo | io.c:40-101 | The page-by-page transfer moves each byte of the command between the right host and device address, in order. |
| Dma.PerformIoUsingDma | io.c:106-199 | The coalescing transfer moves the same bytes in the same order. |
| Nand.AdvanceMonotone | ssd.c:469-608 | No LUN becomes available earlier, and a new program or erase starts no earlier than its LUN was available. |
| Nand.AdvanceTimeline | ssd.c:469-608 | A command keeps the busy intervals of each LUN disjoint and in issue order. |
| Nand.RunTimeline | ssd.c:469-608 | So they are in every run. |
| Nand.WriteTimes | ssd.c:469-608 | A program occupies its LUN for the program latency from the end of its transfer, an erase for the erase latency, each begun no earlier than the LUN is free and the command may start; the answer is the end of the interval, for NOP the later of the two times; no other LUN changes. |
| Nand.ReadTimes | ssd.c:500-555 | A read senses for the read latency from when the LUN is free and it may start, then transfers all its bytes in pieces; the LUN is free when the channel is done with them, and the answer is the end of the last piece. |
| Nand.MoveIsRead | ssd.c:538-555 | The pieces of a read are of the largest transfer size but the last, add up to its bytes, and each starts when the channel is done with the one before. |
| Nand.InterleaveOnlyDelays | ssd.c:541-555 | Sending each piece on over PCIe changes neither the use of the channel nor when the LUN is available, and completes no earlier. |
| Nand.FlushCoversLog | ssd.c:610-626 | The next idle time is no earlier than the end of any program or erase issued before. |
| Nand.Ssd.ReadTransfers | ssd.c:538-555 | The transfer loop of a read, piece by piece and on over PCIe where asked, uses the channel and the link as the recursive form does. |
| Nand.Ssd.AdvanceNand | ssd.c:469-608 | Does the step of the command and returns its completion time. |
| Nand.Ssd.NextIdleTime | ssd.c:610-626 | The latest of the clock and the availability times of all LUNs. |
| Nand.Flush | zns_ftl.c:160-177 | The earliest time at which all LUNs of all partitions are idle, and by which everything issued before has ended. |
| Queues.PostHolds | io.c:520-549 | The n-th completion lands in slot n modulo the size with the phase of its round, and later ones leave it alone for a whole round. |
| Queues.HostReadsPosted | io.c:520-549 | A host that lags by at most the queue size sees by the phase tag exactly whether its next completion is there, and then reads it. |
| Queues.OverrunSlot | io.c:520-549 | For every lag of k whole rounds the slot of the next completion holds the one k rounds later, and its tag looks right exactly if k is even. |
| Queues.LagBound | io.c:520-549 | Whatever was posted the host reads right, if and only if it lags by at most the queue size. |
| Queues.CompletionQueue.constructor | admin.c:32-37 | The new queue stands for no completions. |
| Queues.CompletionQueue.Fill | io.c:520-549 | Posts one completion, turning the phase when the ring wraps around. |
| Queues.SubmitInv | main.c:133-143 | Submitting into a ring that is not full keeps the waiting commands in place. |
| Queues.HandleInv | io.c:470-501 | Accepting some of the waiting commands keeps the others waiting. |
| Queues.SqRunInOrder | io.c:470-501 | After any interleaving of submissions, refusals and acceptances the accepted commands are a prefix of the submitted ones. |
| Queues.DoorbellDistance | io.c:473-481 | The difference of the doorbells, corrected for the wrap, is the number of waiting commands. |
| Queues.ProcIoSq | io.c:470-501 | Hands over the waiting commands in order up to the first refusal and returns the doorbell value from which the next call goes on. |
| Hotness.ProbeMeaning | conv_ftl.c:1548-1573 | Probing stops at the first slot that is free or the page's own; all earlier ones belong to others. |
| Hotness.FullTable | conv_ftl.c:1548-1573 | NULL means that every slot holds another page. |
| Hotness.LookupFindsEntry | conv_ftl.c:1548-1573 | Looking up the page of a slot finds that slot. |
| Hotness.OneSlotPerPage | conv_ftl.c:1548-1573 | A page owns at most one slot. |
| Hotness.GetEntryRefinesMap | conv_ftl.c:1548-1573 | Find-or-create is that of a finite map: no other entry changes, the slot found is the page's own, and none is found exactly when the table is full of others. |
| Hotness.NeverAges | conv_ftl.c:1576-1591 | Every access adds one to the recent count; aging by the access before would agree exactly within a second of it. |
| Hotness.NotAgedAfterTwoSeconds | conv_ftl.c:1576-1591 | Two accesses two seconds apart leave a recent count of 2. |
| Hotness.SlotForEver | conv_ftl.c:1548-1711 | In every run of lookups, accesses and scans a page keeps its slot, lookups find exactly that slot, and a page once in QLC stays there. |
| Hotness.RunInv | conv_ftl.c:1548-1711 | In every run the table stays searchable and the recent accesses of an entry are all its accesses, and no entry stays on the move. |
| Hotness.CountsAllAccesses | conv_ftl.c:1548-1591 | In every run the count of an entry is the number of all accesses of its page from the start on: none is missed before the page gets its slot, none is counted for another page. |
| Hotness.ScanByAccesses | conv_ftl.c:1594-1711 | In every run a scan retags only mapped SLC pages that were accessed at most the threshold's number of times, so a page accessed more often is never retagged, and below its limit it retags all of these. |
| Hotness.RetagCounts | conv_ftl.c:1656-1672 | The number of QLC tags follows every change of one slot. |
| Hotness.Migrator.constructor | conv_ftl.c:1499-1535 | The new table is the empty map. |
| Hotness.Migrator.Lookup | conv_ftl.c:1548-1573 | The probing loop does find-or-create. |
| Hotness.Migrator.UpdateHotness | conv_ftl.c:1576-1591 | Counts an access on the page's own entry and keeps the table and the QLC count. |
| Hotness.Migrator.MigratePage | conv_ftl.c:1616-1677 | The entry that was scanned is the one that is tagged QLC, and used_qlc_pages follows. |
| Hotness.Migrator.ScanForMigrations | conv_ftl.c:1594-1711 | A scan leaves every slot as it is but those of mapped, unmoving SLC pages with at most the threshold's recent accesses; of these it tags QLC the first ones in the order of the table, all if they are below its limit, and the count rises by their number. |

## Left out

- Hybrid SLC/QLC placement and the per-LUN mirror of the line manager (the functions ending in `_DA` and `_QLC`, and the second halves of mark_page_valid and mark_page_invalid): only the global line manager is modelled, with one plane per LUN.
- The assumption flashpgs_per_blk * pgs_per_flashpg == pgs_per_blk: ssd_init_params never assigns the first of these fields, so the model takes the equation as a property of the geometry.
- conv_write and conv_read: they never update the page status. `Gc.OverwriteInv` is about a write that does; the model has no method for it.
- The callers of get_next_free_line use its result unchecked, also when it is NULL: collections are proved from states with a free line, and the proof shows that one is enough and that one is left afterwards.
- The erase counts of blocks, and NAND, PCIe and channel timing inside garbage collection, and write flow control except credits_to_refill.
- maptbl, rmap, page status, block counts, zone descriptors and the free list are fields of type `seq` or `map`, the full list is a set: the order of the full list and aliasing between these structures are not modelled.
- pqueue_insert beyond its capacity: the array is sized for all lines at once, which `ConvFtl.HeapHasRoom` proves to be enough; growing it is not modelled.
- The request table is modelled for one worker per completion queue, with enqueue, reclaim and one turn of the worker as atomic steps; memory barriers, spinlocks and finer interleavings are not.
- The early return of the dispatcher when a queue pointer is NULL, BUG_ON on impossible queue numbers, and interrupts.
- Channel.CreditRing.Request: takes as preconditions that the clock does not go back, that slot differences, units and latency fit in 32 bits, and that a slot offers 1 to 255 credits; wrap-around outside these ranges is not modelled.
- Nand.Ssd.AdvanceNand: uses the channel through the ledger that `Channel.CreditRing` is proved to implement, not through ring objects; latencies that differ by cell type, page or tier, are parameters or left out.
- Dma.PerformIoUsingDma: needs at most 512 PRP entries, the size of the source's buffer; the first transfer has no such bound.
- The array of ZRWA buffers does not exist when their size is zero (zns_ftl.c:25): the model has a buffer of size zero in its place, and the access through the missing array when such a zone is reopened is the failing assertion.
- The 32-bit products of zone_to_slba and zone_to_slpn (zns_ftl.h:94-107): zone numbers times zone sizes are taken to fit.
- Zone commands that address blocks outside the namespace, zone-management actions other than the six known ones (the source leaves their status unset), and what follows a failed assertion.
- ZnsFtl.ZnsFtl.ZoneManagementSend: with select-all a flush that divides by zero goes on to the next zone, where the machine would stop.
- ZnsFtl.ZnsFtl.Write: promises nothing about the state after the failed assertion of `Zns.ReopenAssertion`; the machine stops there.
- The timing of zone writes, zns_read, zns_mgmt_recv.c, and the order and time at which scheduled releases reach the buffers: refills are commands of their own, of any size.
- Hotness: used_slc_pages, the migration timer and the cost of a migration, and the reserved page number that marks an unused slot (it is `Free` here and cannot be looked up).
- kv_ftl.c and simple_ftl.c, admin.c, pci.c, dma.c and the set-up and configuration in main.c.
