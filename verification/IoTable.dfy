/** The linked form of the request table: one array whose entries carry `next` and `prev`
    indices, and the heads and tails of the two lists.  Every method is proved to do exactly the
    step of `IoQueue` that it implements. */
module IoTable {
  import opened Arith
  import opened IoQueue

  datatype TableEntry = TableEntry(req: Entry, next: nat, prev: nat)

  function At(s: seq<nat>, i: int): nat { if 0 <= i < |s| then s[i] else NIL }

  ghost predicate FreeNode(t: seq<TableEntry>, free: seq<nat>, i: nat)
    requires i < |free|
  {
    free[i] < |t| && t[free[i]].next == At(free, i + 1)
  }

  /** The free list is linked forward only; its `prev` fields are left stale. */
  ghost predicate FreeLinked(t: seq<TableEntry>, free: seq<nat>, head: nat, tail: nat) {
    && free != [] && head == free[0] && tail == free[|free| - 1]
    && forall i :: 0 <= i < |free| ==> FreeNode(t, free, i)
  }

  ghost predicate IoNode(t: seq<TableEntry>, io: seq<nat>, i: nat)
    requires i < |io|
  {
    io[i] < |t| && t[io[i]].next == At(io, i + 1) && t[io[i]].prev == At(io, i - 1)
  }

  /** An empty I/O list is told by its head alone; the tail is then stale. */
  ghost predicate IoLinked(t: seq<TableEntry>, io: seq<nat>, head: nat, tail: nat) {
    && head == At(io, 0) && (io != [] ==> tail == io[|io| - 1])
    && forall i :: 0 <= i < |io| ==> IoNode(t, io, i)
  }

  ghost predicate Payload(t: seq<TableEntry>, slots: seq<Entry>) {
    |t| == |slots| && forall x :: 0 <= x < |t| ==> t[x].req == slots[x]
  }

  /** `t'` is `t` with slot `e` linked between entries p-1 and p of the I/O list. */
  ghost predicate LinkedIn(t: seq<TableEntry>, t': seq<TableEntry>, io: seq<nat>, p: nat, e: nat, req: Entry) {
    && |t'| == |t|
    && forall x :: 0 <= x < |t| ==>
         && t'[x].req == (if x == e then req else t[x].req)
         && t'[x].next == (if x == e then At(io, p) else if x == At(io, p - 1) then e else t[x].next)
         && t'[x].prev == (if x == e then At(io, p - 1) else if x == At(io, p) then e else t[x].prev)
  }

  lemma LinkInIo(t: seq<TableEntry>, t': seq<TableEntry>, io: seq<nat>, p: nat, e: nat, req: Entry, head: nat,
                 tail: nat)
    requires IoLinked(t, io, head, tail) && p <= |io| && e < |t| <= NIL && e !in io && Distinct(io)
    requires LinkedIn(t, t', io, p, e, req)
    ensures IoLinked(t', InsertAt(io, p, e), if p == 0 then e else head, if p == |io| then e else tail)
  {
    var r := InsertAt(io, p, e);
    forall i: int ensures At(r, i) == (if i < p then At(io, i) else if i == p then e else At(io, i - 1)) {
      if p < i < |r| { assert r[i] == io[i - 1]; }
    }
    forall i | 0 <= i < |r| ensures IoNode(t', r, i) {
      if i < p {
        assert IoNode(t, io, i);
        assert i + 1 < p ==> io[i] != io[p - 1];
        assert p < |io| ==> io[i] != io[p];
      } else if i > p {
        assert IoNode(t, io, i - 1);
        assert p + 1 < i ==> io[i - 1] != io[p];
        assert p > 0 ==> io[i - 1] != io[p - 1];
      }
    }
  }

  lemma LinkInFree(t: seq<TableEntry>, t': seq<TableEntry>, free: seq<nat>, io: seq<nat>, p: nat, req: Entry, head: nat,
                   tail: nat)
    requires FreeLinked(t, free, head, tail) && Distinct(free) && 2 <= |free| && p <= |io| && |t| <= NIL
    requires forall i :: 0 <= i < |free| ==> free[i] !in io
    requires LinkedIn(t, t', io, p, free[0], req)
    ensures FreeLinked(t', free[1..], free[1], tail)
  {
    var r := free[1..];
    forall i | 0 <= i < |r| ensures FreeNode(t', r, i) {
      assert FreeNode(t, free, i + 1) && free[i + 1] != free[0] && free[i + 1] !in io;
      assert At(r, i + 1) == At(free, i + 2);
    }
  }

  /** `t'` is `t` with the first k entries of the I/O list moved behind the free list. */
  ghost predicate Moved(t: seq<TableEntry>, t': seq<TableEntry>, io: seq<nat>, k: nat, freeTail: nat)
    requires 0 < k <= |io|
  {
    && |t'| == |t|
    && forall x :: 0 <= x < |t| ==>
         && t'[x].req == t[x].req
         && t'[x].next == (if x == freeTail then io[0] else if x == io[k - 1] then NIL else t[x].next)
         && t'[x].prev == (if x == io[0] then freeTail else if x == At(io, k) then NIL else t[x].prev)
  }

  lemma MoveFree(t: seq<TableEntry>, t': seq<TableEntry>, free: seq<nat>, io: seq<nat>, k: nat,
                 fh: nat, ft: nat, ih: nat, it: nat)
    requires FreeLinked(t, free, fh, ft) && IoLinked(t, io, ih, it) && Distinct(free) && Distinct(io)
    requires forall i :: 0 <= i < |free| ==> free[i] !in io
    requires 0 < k <= |io| && Moved(t, t', io, k, ft)
    ensures FreeLinked(t', free + io[..k], fh, io[k - 1])
  {
    var f := free + io[..k];
    forall i | 0 <= i < |f| ensures FreeNode(t', f, i) {
      if i < |free| {
        assert FreeNode(t, free, i) && free[i] !in io;
        if i + 1 < |free| { assert free[i] != free[|free| - 1]; }
      } else {
        var j := i - |free|;
        assert IoNode(t, io, j) && free[|free| - 1] !in io && f[i] == io[j];
        if j + 1 < k { assert io[j] != io[k - 1] && f[i + 1] == io[j + 1]; }
      }
    }
  }

  lemma MoveIo(t: seq<TableEntry>, t': seq<TableEntry>, free: seq<nat>, io: seq<nat>, k: nat, ft: nat, ih: nat, it: nat)
    requires IoLinked(t, io, ih, it) && Distinct(io) && ft !in io && |t| <= NIL
    requires 0 < k <= |io| && Moved(t, t', io, k, ft)
    ensures IoLinked(t', io[k..], At(io, k), it)
  {
    var r := io[k..];
    forall i | 0 <= i < |r| ensures IoNode(t', r, i) {
      assert IoNode(t, io, k + i) && io[k + i] != io[k - 1] && io[k + i] != io[0] && io[k + i] != ft;
      assert i > 0 ==> io[k + i] != io[k];
    }
  }

  /** A table with these list heads and tails stands for `q`. */
  ghost predicate Encodes(t: seq<TableEntry>, fh: nat, ft: nat, ih: nat, it: nat, q: Queue) {
    Payload(t, q.slots) && FreeLinked(t, q.free, fh, ft) && IoLinked(t, q.io, ih, it)
  }

  lemma EnqueueEncodes(t: seq<TableEntry>, t': seq<TableEntry>, fh: nat, ft: nat, ih: nat, it: nat, q: Queue,
                       target: nat, writeback: bool)
    requires Encodes(t, fh, ft, ih, it, q) && Partition(q) && Accepts(q) && |t| <= NIL
    requires LinkedIn(t, t', q.io, Place(q, target, |q.io|), fh, Entry(q.issued, target, writeback, writeback, false))
    ensures var p := Place(q, target, |q.io|);
      Encodes(t', q.free[1], ft, if p == 0 then fh else ih, if p == |q.io| then fh else it,
              Enqueue(q, target, writeback))
  {
    var p := Place(q, target, |q.io|);
    var req := Entry(q.issued, target, writeback, writeback, false);
    LinkInIo(t, t', q.io, p, fh, req, ih, it);
    LinkInFree(t, t', q.free, q.io, p, req, fh, ft);
  }

  /** The slot that an enqueue takes. */
  lemma TakeReady(t: seq<TableEntry>, fh: nat, ft: nat, ih: nat, it: nat, q: Queue)
    requires Encodes(t, fh, ft, ih, it, q) && Inv(q)
    ensures Partition(q) && |q.slots| == |t| && q.free != [] && fh == q.free[0] < |t| && fh !in q.io && Distinct(q.io)
    ensures t[fh].next == At(q.free, 1) && (Accepts(q) ==> q.free[1] < NR_MAX_PARALLEL_IO)
    ensures IoLinked(t, q.io, ih, it) && (ih == NIL <==> q.io == [])
  {
    assert FreeNode(t, q.free, 0);
    assert q.io != [] ==> q.io[0] < |t|;
  }

  /** The four slots whose links a reclaim of `k` entries changes. */
  lemma CutReady(t: seq<TableEntry>, fh: nat, ft: nat, ih: nat, it: nat, q: Queue, k: nat)
    requires Encodes(t, fh, ft, ih, it, q) && Partition(q) && 0 < k <= |q.io|
    ensures ih == q.io[0] < |t| && q.io[k - 1] < |t| && t[q.io[k - 1]].next == At(q.io, k)
    ensures k < |q.io| ==> q.io[k] < |t| && q.io[k] != q.io[k - 1] && q.io[k] != q.io[0]
    ensures ft < |t| && ft !in q.io
  {
    assert IoNode(t, q.io, k - 1) && IoNode(t, q.io, 0);
    assert k < |q.io| ==> IoNode(t, q.io, k);
    assert FreeNode(t, q.free, |q.free| - 1);
  }

  lemma EnqueueFields(q: Queue, target: nat, writeback: bool)
    requires Partition(q) && Accepts(q)
    ensures var q' := Enqueue(q, target, writeback);
      q'.now == q.now && q'.cursor == q.cursor && q'.issued == q.issued + 1
  {
  }

  lemma ReclaimEncodes(t: seq<TableEntry>, t': seq<TableEntry>, fh: nat, ft: nat, ih: nat, it: nat, q: Queue)
    requires Encodes(t, fh, ft, ih, it, q) && Partition(q) && |t| <= NIL
    requires 0 < ReclaimCount(q, 0) && Moved(t, t', q.io, ReclaimCount(q, 0), ft)
    ensures var k := ReclaimCount(q, 0); Encodes(t', fh, q.io[k - 1], At(q.io, k), it, Reclaim(q))
  {
    var k := ReclaimCount(q, 0);
    MoveFree(t, t', q.free, q.io, k, fh, ft, ih, it);
    assert q.free[|q.free| - 1] !in q.io;
    MoveIo(t, t', q.free, q.io, k, ft, ih, it);
  }

  lemma PlaceUnfold(q: Queue, target: nat, n: nat)
    requires Partition(q) && 0 < n <= |q.io|
    ensures q.io[n - 1] < |q.slots|
    ensures var t := q.slots[q.io[n - 1]].target;
      Place(q, target, n) == if t <= q.now || t <= target then n else Place(q, target, n - 1)
  {
  }

  /** The next link of a slot is its successor in the list it is in. */
  lemma NextIsSuccessor(t: seq<TableEntry>, fh: nat, ft: nat, ih: nat, it: nat, q: Queue, x: nat)
    requires Encodes(t, fh, ft, ih, it, q) && Partition(q) && x < |t|
    ensures t[x].next == Next(q, x)
  {
    if x in q.io {
      var i :| 0 <= i < |q.io| && q.io[i] == x;
      SuccessorAt(q.io, i);
      assert IoNode(t, q.io, i);
    } else {
      var i :| 0 <= i < |q.free| && q.free[i] == x;
      SuccessorAt(q.free, i);
      assert FreeNode(t, q.free, i);
    }
  }

  /** Writing the payload of one slot leaves the links alone. */
  lemma PayloadEncodes(t: seq<TableEntry>, fh: nat, ft: nat, ih: nat, it: nat, q: Queue, q': Queue, x: nat, e: Entry)
    requires Encodes(t, fh, ft, ih, it, q) && x < |t|
    requires q'.free == q.free && q'.io == q.io && q'.slots == q.slots[x := e]
    ensures Encodes(t[x := t[x].(req := e)], fh, ft, ih, it, q')
  {
    var t' := t[x := t[x].(req := e)];
    forall i | 0 <= i < |q.free| ensures FreeNode(t', q.free, i) { assert FreeNode(t, q.free, i); }
    forall i | 0 <= i < |q.io| ensures IoNode(t', q.io, i) { assert IoNode(t, q.io, i); }
  }

  class ProcInfo {
    const table: array<TableEntry>
    var freeSeq: nat
    var freeSeqEnd: nat
    var ioSeq: nat
    var ioSeqEnd: nat
    var procIoNsecs: nat
    /** The worker's own cursor. */
    var curr: nat
    /** Counts accepted requests; history, like the tickets. */
    var issued: nat
    /** The two lists this table stands for. */
    ghost var q: Queue

    ghost predicate Linked()
      reads this, table
    {
      Encodes(table[..], freeSeq, freeSeqEnd, ioSeq, ioSeqEnd, q)
    }

    ghost predicate Valid()
      reads this, table
    {
      && Linked() && Inv(q) && table.Length == NR_MAX_PARALLEL_IO
      && q.now == procIoNsecs && q.cursor == curr && q.issued == issued
    }

    /** NVMEV_IO_PROC_INIT, for one worker. */
    constructor ()
      ensures Valid() && fresh(table) && q == Initial()
    {
      table := new TableEntry[NR_MAX_PARALLEL_IO](i requires 0 <= i =>
        TableEntry(Entry(0, 0, false, false, false),
                   if i == NR_MAX_PARALLEL_IO - 1 then NIL else i + 1, if i == 0 then NIL else i - 1));
      freeSeq, freeSeqEnd, ioSeq, ioSeqEnd := 0, NR_MAX_PARALLEL_IO - 1, NIL, NIL;
      procIoNsecs, curr, issued := 0, NIL, 0;
      q := Initial();
      new;
      InitialInv();
      hide Inv;
      forall i | 0 <= i < |q.free| ensures FreeNode(table[..], q.free, i) {
        assert q.free[i] == i;
      }
    }

    /** The backward search for the insertion point. */
    method FindPlace(target: nat) returns (found: nat)
      requires Valid() && q.io != []
      ensures var p := Place(q, target, |q.io|); found == At(q.io, p - 1)
    {
      hide RecycledBehind, Sorted, CompletedIsDue, CursorSafe, Tickets, Logs, NothingLost, FreeLinked, Place, Distinct;
      found := ioSeqEnd;
      ghost var n := |q.io|;
      while found != NIL
        invariant 0 <= n <= |q.io| && found == At(q.io, n - 1)
        invariant Place(q, target, n) == Place(q, target, |q.io|)
        decreases n
      {
        assert IoNode(table[..], q.io, n - 1);
        PlaceUnfold(q, target, n);
        if table[found].req.target <= procIoNsecs { break; }
        if table[found].req.target <= target { break; }
        found := table[found].prev;
        n := n - 1;
      }
    }

    /** Write the new entry and link it behind `prior`, or in front if there is none. */
    method Link(entry: nat, req: Entry, prior: nat, ghost io: seq<nat>, ghost p: nat)
      requires entry < table.Length <= NIL && p <= |io| && prior == At(io, p - 1) && entry !in io && Distinct(io)
      requires IoLinked(table[..], io, ioSeq, ioSeqEnd)
      modifies table, this`ioSeq, this`ioSeqEnd
      ensures LinkedIn(old(table[..]), table[..], io, p, entry, req)
      ensures ioSeq == (if p == 0 then entry else old(ioSeq)) && ioSeqEnd == if p == |io| then entry else old(ioSeqEnd)
    {
      table[entry] := TableEntry(req, NIL, NIL);
      assert io != [] ==> IoNode(old(table[..]), io, 0);
      assert p > 0 ==> IoNode(old(table[..]), io, p - 1);
      assert p < |io| ==> IoNode(old(table[..]), io, p);
      if ioSeq == NIL {
        ioSeq, ioSeqEnd := entry, entry;
      } else if prior == NIL {
        table[ioSeq] := table[ioSeq].(prev := entry);
        table[entry] := table[entry].(next := ioSeq);
        ioSeq := entry;
      } else if table[prior].next == NIL {
        table[entry] := table[entry].(prev := prior);
        ioSeqEnd := entry;
        table[prior] := table[prior].(next := entry);
      } else {
        table[entry] := table[entry].(prev := prior, next := table[prior].next);
        table[table[entry].next] := table[table[entry].next].(prev := entry);
        table[prior] := table[prior].(next := entry);
      }
    }

    /** The search, unless the list is empty. */
    method FindPrior(target: nat) returns (prior: nat)
      requires Valid()
      ensures var p := Place(q, target, |q.io|); prior == At(q.io, p - 1)
    {
      TakeReady(table[..], freeSeq, freeSeqEnd, ioSeq, ioSeqEnd, q);
      hide Inv, Encodes, Partition, Place;
      prior := NIL;
      if ioSeq != NIL { prior := FindPlace(target); }
    }

    /** Take the first free slot out of the free list and link it in behind `prior`. */
    method LinkSlot(entry: nat, target: nat, writeback: bool, prior: nat)
      requires Linked() && Inv(q) && Accepts(q) && entry == freeSeq && issued == q.issued && table.Length == |q.slots|
      requires var p := Place(q, target, |q.io|); prior == At(q.io, p - 1)
      modifies table, this`freeSeq, this`ioSeq, this`ioSeqEnd
      ensures Encodes(table[..], freeSeq, freeSeqEnd, ioSeq, ioSeqEnd, Enqueue(q, target, writeback))
    {
      hide RecycledBehind, Sorted, CompletedIsDue, CursorSafe, Tickets, Logs, NothingLost, Place, IoNode, FreeNode,
           LinkedIn, IoLinked, FreeLinked, Payload, Distinct;
      TakeReady(table[..], freeSeq, freeSeqEnd, ioSeq, ioSeqEnd, q);
      ghost var t, ih, it := table[..], ioSeq, ioSeqEnd;
      freeSeq := table[entry].next;
      Link(entry, Entry(issued, target, writeback, writeback, false), prior, q.io, Place(q, target, |q.io|));
      EnqueueEncodes(t, table[..], entry, freeSeqEnd, ih, it, q, target, writeback);
    }

    method TakeSlot(entry: nat, target: nat, writeback: bool)
      requires Valid() && Accepts(q) && entry == freeSeq
      modifies this, table
      ensures Valid() && q == Enqueue(old(q), target, writeback)
    {
      hide RecycledBehind, Sorted, CompletedIsDue, CursorSafe, Tickets, Logs, NothingLost, Place, IoNode, FreeNode;
      EnqueueKeepsInv(q, target, writeback);
      EnqueueFields(q, target, writeback);
      var prior := FindPrior(target);
      LinkSlot(entry, target, writeback, prior);
      issued := issued + 1;
      q := Enqueue(q, target, writeback);
    }

    /** __enqueue_io_req, and enqueue_writeback_io_req when `writeback` is set. */
    method EnqueueRequest(target: nat, writeback: bool)
      requires Valid()
      modifies this, table
      ensures Valid() && q == Enqueue(old(q), target, writeback)
    {
      TakeReady(table[..], freeSeq, freeSeqEnd, ioSeq, ioSeqEnd, q);
      DroppedExactly(q, target, writeback);
      hide Inv, Partition, Encodes, Enqueue;
      var entry := freeSeq;
      if table[entry].next >= NR_MAX_PARALLEL_IO {
        return;
      }
      TakeSlot(entry, target, writeback);
    }

    /** Count the completed prefix; `last` is its last slot. */
    method FindReclaimable() returns (last: nat)
      requires Valid()
      ensures last == At(q.io, ReclaimCount(q, 0) - 1)
    {
      hide RecycledBehind, Sorted, CompletedIsDue, CursorSafe, Tickets, Logs, NothingLost, FreeLinked, Distinct;
      var c := ioSeq;
      last := NIL;
      ghost var n := 0;
      while c != NIL
        invariant 0 <= n <= |q.io| && c == At(q.io, n) && last == At(q.io, n - 1)
        invariant ReclaimCount(q, n) == ReclaimCount(q, 0)
        decreases |q.io| - n
      {
        assert IoNode(table[..], q.io, n);
        var pe := table[c].req;
        if pe.completed && pe.copied && pe.target <= procIoNsecs {
          last := c;
          c := table[c].next;
          n := n + 1;
        } else {
          break;
        }
      }
    }

    /** Cut the I/O list behind `last` and hang the front part on the free list. */
    method Unlink(last: nat, ghost k: nat)
      requires Linked() && Partition(q) && table.Length <= NIL && 0 < k <= |q.io| && last == q.io[k - 1]
      modifies table, this`ioSeq, this`freeSeqEnd
      ensures Moved(old(table[..]), table[..], q.io, k, old(freeSeqEnd))
      ensures ioSeq == At(q.io, k) && freeSeqEnd == last
    {
      hide Partition, Distinct, FreeLinked, IoLinked, IoNode, FreeNode, Payload;
      CutReady(table[..], freeSeq, freeSeqEnd, ioSeq, ioSeqEnd, q, k);
      var first := ioSeq;
      ioSeq := table[last].next;
      if table[last].next != NIL {
        table[table[last].next] := table[table[last].next].(prev := NIL);
      }
      table[last] := table[last].(next := NIL);
      table[first] := table[first].(prev := freeSeqEnd);
      table[freeSeqEnd] := table[freeSeqEnd].(next := first);
      freeSeqEnd := last;
    }

    /** __reclaim_completed_reqs, for one worker. */
    method ReclaimCompleted()
      requires Valid()
      modifies this, table
      ensures Valid() && q == Reclaim(old(q))
    {
      hide RecycledBehind, Sorted, CompletedIsDue, CursorSafe, Tickets, Logs, NothingLost, ReclaimCount, FreeLinked,
           IoLinked, Moved;
      var last := FindReclaimable();
      ReclaimKeepsInv(q);
      ghost var t := table[..];
      if last != NIL {
        Unlink(last, ReclaimCount(q, 0));
        ReclaimEncodes(t, table[..], freeSeq, old(freeSeqEnd), old(ioSeq), ioSeqEnd, q);
      } else {
        assert q.io[0..] == q.io && q.free + q.io[..0] == q.free;
      }
      q := Reclaim(q);
    }

    /** The worker starts a pass. */
    method StartPass()
      requires Valid() && curr == NIL
      modifies this
      ensures Valid() && q == BeginPass(old(q))
    {
      StepKeepsInv(q, DoBeginPass);
      curr := ioSeq;
      q := BeginPass(q);
    }

    /** One turn of the worker's inner loop; the copy and the completion themselves are the two logs of `q`. */
    method VisitSlot(clock: nat)
      requires Valid() && curr < NR_MAX_PARALLEL_IO && procIoNsecs <= clock
      modifies this, table
      ensures Valid() && q == Visit(old(q), clock)
    {
      hide RecycledBehind, Sorted, CompletedIsDue, Tickets, Logs, NothingLost, FreeLinked, IoLinked, Successor;
      VisitKeepsInv(q, clock);
      NextIsSuccessor(table[..], freeSeq, freeSeqEnd, ioSeq, ioSeqEnd, q, curr);
      ghost var t, x := table[..], curr;
      procIoNsecs := clock;
      if !table[curr].req.completed {
        if !table[curr].req.copied {
          table[curr] := table[curr].(req := table[curr].req.(copied := true));
        }
        if table[curr].req.target <= clock {
          table[curr] := table[curr].(req := table[curr].req.(completed := true));
        }
        assert table[..] == t[x := t[x].(req := table[x].req)];
        PayloadEncodes(t, freeSeq, freeSeqEnd, ioSeq, ioSeqEnd, q, Visit(q, clock), x, table[x].req);
      }
      curr := table[curr].next;
      q := Visit(q, clock);
    }

    /** A turn of the worker's outer loop that nothing interrupts; `clocks` are its clock readings. */
    method WorkerPass(clocks: seq<nat>)
      requires Valid() && curr == NIL && Clocks(q, clocks, 0)
      modifies this, table
      ensures Valid() && curr == NIL
      ensures Leads(old(q), [DoBeginPass] + Visits(clocks), q)
    {
      hide RecycledBehind, Sorted, CompletedIsDue, Tickets, Logs, NothingLost, CursorSafe, FreeLinked, IoLinked, Visit,
           Pass, Leads, Distinct;
      BeginLeads(q, clocks);
      StartPass();
      ghost var b := q;
      var k := 0;
      while curr != NIL
        invariant Valid() && 0 <= k <= |q.io| && q.io == b.io && Inv(b) && Clocks(b, clocks, 0)
        invariant b.cursor == if |b.io| > 0 then b.io[0] else NIL
        invariant Clocks(q, clocks, k) && q.cursor == if k < |q.io| then q.io[k] else NIL
        invariant Pass(q, clocks, k) == Pass(b, clocks, 0)
        decreases |q.io| - k
      {
        PassUnfold(q, clocks, k);
        VisitEntry(q, clocks[k], k);
        VisitSlot(clocks[k]);
        k := k + 1;
      }
      PassUnfold(q, clocks, k);
    }
  }
}
