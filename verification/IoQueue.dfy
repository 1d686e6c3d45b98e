/** The request table that the dispatcher and one worker of io.c share, seen as two lists of
    slots.  The dispatcher takes the first free slot, inserts it into the I/O list and moves
    completed requests from the front of the I/O list to the end of the free list; the worker
    walks with a cursor of its own.  Every operation here is one atomic step, and a run is any
    interleaving of them.  `IoTable` gives the linked form that the source runs. */
module IoQueue {
  import opened Arith

  const NR_MAX_PARALLEL_IO: nat := 16384
  /** The source's -1 in an unsigned index. */
  const NIL: nat := 0xFFFF_FFFF

  /** `ticket` numbers the accepted requests; it is history, the source has no such field. */
  datatype Entry = Entry(ticket: nat, target: nat, writeback: bool, copied: bool, completed: bool)

  /** `now` is proc_io_nsecs.  `copies` and `done` are history: the tickets whose data were
      copied, and those that were completed (by a completion entry or a buffer release). */
  datatype Queue = Queue(slots: seq<Entry>, free: seq<nat>, io: seq<nat>, now: nat, cursor: nat,
                         issued: nat, copies: seq<nat>, done: seq<nat>)

  // ---------- the steps ----------

  /** How many entries stay before a new one: the search runs from the end and stops at the first
      entry that is already due or that is due no later than the new one. */
  function Place(q: Queue, target: nat, n: nat): (p: nat)
    requires Partition(q) && n <= |q.io|
    ensures p <= n
  {
    if n == 0 then 0
    else if q.slots[q.io[n - 1]].target <= q.now || q.slots[q.io[n - 1]].target <= target then n
    else Place(q, target, n - 1)
  }

  function InsertAt(s: seq<nat>, p: nat, x: nat): seq<nat>
    requires p <= |s|
  {
    s[..p] + [x] + s[p..]
  }

  predicate Accepts(q: Queue) { 2 <= |q.free| }

  /** __enqueue_io_req and enqueue_writeback_io_req; a request is dropped when only one free slot is left. */
  function Enqueue(q: Queue, target: nat, writeback: bool): Queue
    requires Partition(q)
  {
    if !Accepts(q) then q else
    var e := q.free[0];
    q.(slots := q.slots[e := Entry(q.issued, target, writeback, writeback, false)],
       free := q.free[1..],
       io := InsertAt(q.io, Place(q, target, |q.io|), e),
       issued := q.issued + 1)
  }

  predicate Reclaimable(q: Queue, x: nat)
    requires x < |q.slots|
  {
    q.slots[x].completed && q.slots[x].copied && q.slots[x].target <= q.now
  }

  function ReclaimCount(q: Queue, n: nat): (k: nat)
    requires Partition(q) && n <= |q.io|
    ensures n <= k <= |q.io|
    decreases |q.io| - n
  {
    if n < |q.io| && Reclaimable(q, q.io[n]) then ReclaimCount(q, n + 1) else n
  }

  /** __reclaim_completed_reqs. */
  function Reclaim(q: Queue): Queue
    requires Partition(q)
  {
    var k := ReclaimCount(q, 0);
    q.(io := q.io[k..], free := q.free + q.io[..k])
  }

  /** The slot that follows `x` in the list it is in. */
  function Successor(s: seq<nat>, x: nat): (y: nat)
    requires x in s
    ensures y == NIL || y in s
    decreases |s|
  {
    if s[0] == x then (if |s| == 1 then NIL else s[1]) else Successor(s[1..], x)
  }

  function Next(q: Queue, x: nat): nat
    requires x in q.io || x in q.free
  {
    if x in q.io then Successor(q.io, x) else Successor(q.free, x)
  }

  /** The worker starts a pass at the front of the I/O list. */
  function BeginPass(q: Queue): Queue {
    q.(cursor := if q.io == [] then NIL else q.io[0])
  }

  /** The worker handles the slot under its cursor and moves on. */
  function Visit(q: Queue, clock: nat): Queue
    requires Partition(q) && q.cursor < |q.slots|
  {
    var x := q.cursor;
    var e := q.slots[x];
    var moved := q.(now := clock, cursor := Next(q, x));
    if e.completed then moved else
    var due := e.target <= clock;
    moved.(slots := q.slots[x := e.(copied := true, completed := due)],
           copies := if e.copied then q.copies else q.copies + [e.ticket],
           done := if due then q.done + [e.ticket] else q.done)
  }

  // ---------- the invariant ----------

  /** The free list and the I/O list share out all slots. */
  ghost predicate Partition(q: Queue) {
    && (forall i :: 0 <= i < |q.free| ==> q.free[i] < |q.slots| && q.free[i] !in q.io)
    && (forall i :: 0 <= i < |q.io| ==> q.io[i] < |q.slots|)
    && (forall x :: 0 <= x < |q.slots| ==> x in q.free || x in q.io)
    && Distinct(q.free) && Distinct(q.io)
  }

  /** A slot in the free list is completed only if all slots behind it are: recycled slots go to
      the end.  So a cursor left behind on a recycled slot never meets a slot that was not used yet. */
  ghost predicate RecycledBehind(q: Queue)
    requires Partition(q)
  {
    forall i, j :: 0 <= i < j < |q.free| && q.slots[q.free[i]].completed ==> q.slots[q.free[j]].completed
  }

  ghost predicate CursorSafe(q: Queue)
    requires Partition(q)
  {
    q.cursor == NIL || (q.cursor < |q.slots| && (q.cursor in q.free ==> q.slots[q.cursor].completed))
  }

  function Key(q: Queue, x: nat): nat
    requires x < |q.slots|
  {
    if q.slots[x].target <= q.now then q.now else q.slots[x].target
  }

  /** max(target, now) does not decrease along the I/O list. */
  ghost predicate Sorted(q: Queue)
    requires Partition(q)
  {
    forall i, j :: 0 <= i < j < |q.io| ==> Key(q, q.io[i]) <= Key(q, q.io[j])
  }

  ghost predicate CompletedIsDue(q: Queue)
    requires Partition(q)
  {
    forall x :: x in q.io && q.slots[x].completed ==> q.slots[x].copied && q.slots[x].target <= q.now
  }

  /** Tickets: each live slot has its own, and it is in a log exactly when its flag says so. */
  ghost predicate Tickets(q: Queue)
    requires Partition(q)
  {
    && (forall x, y :: x in q.io && y in q.io && x != y ==> q.slots[x].ticket != q.slots[y].ticket)
    && (forall x :: x in q.io ==> Tracked(q, q.slots[x]))
  }

  ghost predicate Tracked(q: Queue, e: Entry) {
    && e.ticket < q.issued
    && (e.completed <==> e.ticket in q.done)
    && (!e.writeback ==> (e.copied <==> e.ticket in q.copies))
    && (e.writeback ==> e.copied && e.ticket !in q.copies)
  }

  /** Both logs are free of repetitions and name only accepted requests. */
  ghost predicate Logs(q: Queue) {
    && Distinct(q.done) && (forall t :: t in q.done ==> t < q.issued)
    && Distinct(q.copies) && (forall t :: t in q.copies ==> t < q.issued)
  }

  /** No accepted request is lost: it is completed or its slot is in the I/O list. */
  ghost predicate NothingLost(q: Queue)
    requires Partition(q)
  {
    forall t :: 0 <= t < q.issued ==> t in q.done || Held(q, t)
  }

  ghost predicate Held(q: Queue, t: nat)
    requires Partition(q)
  {
    exists x :: x in q.io && q.slots[x].ticket == t
  }

  ghost predicate Inv(q: Queue) {
    && |q.slots| == NR_MAX_PARALLEL_IO && Partition(q) && 1 <= |q.free|
    && RecycledBehind(q) && CursorSafe(q) && Sorted(q) && CompletedIsDue(q)
    && Tickets(q) && Logs(q) && NothingLost(q)
  }

  // ---------- every step keeps the invariant ----------

  lemma {:induction false} PlaceMeaning(q: Queue, target: nat, n: nat)
    requires Partition(q) && n <= |q.io|
    ensures var p := Place(q, target, n);
      && (forall i :: p <= i < n ==> q.slots[q.io[i]].target > q.now && q.slots[q.io[i]].target > target)
      && (p > 0 ==> q.slots[q.io[p - 1]].target <= q.now || q.slots[q.io[p - 1]].target <= target)
  {
    if n > 0 && !(q.slots[q.io[n - 1]].target <= q.now || q.slots[q.io[n - 1]].target <= target) {
      PlaceMeaning(q, target, n - 1);
    }
  }

  lemma InsertMeaning(s: seq<nat>, p: nat, x: nat)
    requires p <= |s|
    ensures forall y :: y in InsertAt(s, p, x) <==> y == x || y in s
    ensures Distinct(s) && x !in s ==> Distinct(InsertAt(s, p, x))
  {
  }

  lemma EnqueuePartition(q: Queue, target: nat, writeback: bool)
    requires Partition(q) && Accepts(q)
    ensures Partition(Enqueue(q, target, writeback))
    ensures forall x :: x in Enqueue(q, target, writeback).io <==> x == q.free[0] || x in q.io
    ensures forall x :: x in Enqueue(q, target, writeback).free <==> x != q.free[0] && x in q.free
  {
    var e := q.free[0];
    var q' := Enqueue(q, target, writeback);
    InsertMeaning(q.io, Place(q, target, |q.io|), e);
    assert q.free == [e] + q'.free;
    assert e !in q'.free;
  }

  /** All entries before the insertion point have a key no larger than the new entry's, all behind a larger one. */
  lemma PlaceSplitsKeys(q: Queue, target: nat)
    requires Partition(q) && Sorted(q)
    ensures var p, k := Place(q, target, |q.io|), if target <= q.now then q.now else target;
      && (forall i :: 0 <= i < p ==> Key(q, q.io[i]) <= k)
      && (forall i :: p <= i < |q.io| ==> k < Key(q, q.io[i]))
  {
    PlaceMeaning(q, target, |q.io|);
    var p, k := Place(q, target, |q.io|), if target <= q.now then q.now else target;
    forall i | 0 <= i < p ensures Key(q, q.io[i]) <= k {
      assert Key(q, q.io[p - 1]) <= k;
      if i < p - 1 { assert Key(q, q.io[i]) <= Key(q, q.io[p - 1]); }
    }
  }

  /** An accepted request takes the first free slot and holds what it was given; the other entries keep their
      contents and order.  It stands behind every request that is due or due no later, so requests with equal targets
      stay in order. */
  lemma EnqueueEffects(q: Queue, target: nat, writeback: bool)
    requires Partition(q) && Sorted(q) && Accepts(q)
    ensures var q', e, p := Enqueue(q, target, writeback), q.free[0], Place(q, target, |q.io|);
      var k := if target <= q.now then q.now else target;
      && q'.io == q.io[..p] + [e] + q.io[p..] && q'.free == q.free[1..] && e !in q.io
      && q'.slots == q.slots[e := Entry(q.issued, target, writeback, writeback, false)]
      && (forall i :: 0 <= i < |q.io| ==> q'.slots[q.io[i]] == q.slots[q.io[i]])
      && (forall i :: 0 <= i < |q.io| ==> (i < p <==> Key(q, q.io[i]) <= k))
      && q'.done == q.done && q'.copies == q.copies && q'.now == q.now && q'.cursor == q.cursor
  {
    PlaceSplitsKeys(q, target);
  }

  lemma EnqueueSorted(q: Queue, target: nat, writeback: bool)
    requires Partition(q) && Accepts(q) && Sorted(q) && Partition(Enqueue(q, target, writeback))
    ensures Sorted(Enqueue(q, target, writeback))
  {
    hide Place, Distinct;
    var q' := Enqueue(q, target, writeback);
    var p := Place(q, target, |q.io|);
    PlaceSplitsKeys(q, target);
    var k := if target <= q.now then q.now else target;
    forall i | 0 <= i < |q'.io|
      ensures Key(q', q'.io[i]) == (if i < p then Key(q, q.io[i]) else if i == p then k else Key(q, q.io[i - 1]))
    {
      assert q'.io[i] == (if i < p then q.io[i] else if i == p then q.free[0] else q.io[i - 1]);
    }
  }

  lemma EnqueueTickets(q: Queue, target: nat, writeback: bool)
    requires Inv(q) && Accepts(q)
    requires Partition(Enqueue(q, target, writeback))
    requires forall x :: x in Enqueue(q, target, writeback).io <==> x == q.free[0] || x in q.io
    ensures Tickets(Enqueue(q, target, writeback)) && NothingLost(Enqueue(q, target, writeback))
  {
    hide RecycledBehind, Sorted, CursorSafe, CompletedIsDue, Place;
    var e := q.free[0];
    var q' := Enqueue(q, target, writeback);
    assert forall x :: x in q.io ==> q'.slots[x] == q.slots[x] && Tracked(q, q.slots[x]);
    forall t | 0 <= t < q'.issued && t !in q'.done ensures Held(q', t) {
      if t == q.issued {
        assert q'.slots[e].ticket == t;
      } else {
        assert Held(q, t);
        var x :| x in q.io && q.slots[x].ticket == t;
        assert q'.slots[x].ticket == t;
      }
    }
  }

  lemma EnqueueKeepsInv(q: Queue, target: nat, writeback: bool)
    requires Inv(q)
    ensures Inv(Enqueue(q, target, writeback))
  {
    if Accepts(q) {
      EnqueuePartition(q, target, writeback);
      EnqueueSorted(q, target, writeback);
      EnqueueTickets(q, target, writeback);
      var q' := Enqueue(q, target, writeback);
      assert forall i :: 0 <= i < |q'.free| ==>
        q'.free[i] == q.free[i + 1] && q'.slots[q'.free[i]] == q.slots[q.free[i + 1]];
    }
  }

  lemma {:induction false} ReclaimMeaning(q: Queue, n: nat)
    requires Partition(q) && n <= |q.io|
    ensures var k := ReclaimCount(q, n);
      && (forall i :: n <= i < k ==> Reclaimable(q, q.io[i]))
      && (k < |q.io| ==> !Reclaimable(q, q.io[k]))
    decreases |q.io| - n
  {
    if n < |q.io| && Reclaimable(q, q.io[n]) { ReclaimMeaning(q, n + 1); }
  }

  lemma ConcatDistinct(a: seq<nat>, b: seq<nat>)
    requires Distinct(a) && Distinct(b) && forall i :: 0 <= i < |b| ==> b[i] !in a
    ensures Distinct(a + b)
  {
  }

  /** The two parts of a list without repetitions. */
  lemma SplitAt(s: seq<nat>, k: nat)
    requires Distinct(s) && k <= |s|
    ensures Distinct(s[..k]) && Distinct(s[k..])
    ensures forall i :: 0 <= i < k ==> s[i] !in s[k..]
    ensures forall x :: x in s <==> x in s[..k] || x in s[k..]
  {
  }

  lemma ReclaimPartition(q: Queue)
    requires Partition(q)
    ensures Partition(Reclaim(q))
    ensures forall x :: x in Reclaim(q).io ==> x in q.io
    ensures forall x :: x in q.io && x !in Reclaim(q).io ==> x in Reclaim(q).free && Reclaimable(q, x)
  {
    var k := ReclaimCount(q, 0);
    ReclaimMeaning(q, 0);
    SplitAt(q.io, k);
    assert forall i :: 0 <= i < k ==> q.io[..k][i] == q.io[i];
    assert Reclaim(q) == q.(io := q.io[k..], free := q.free + q.io[..k]);
    hide Reclaim, ReclaimCount, Reclaimable;
    MovePartition(q, Reclaim(q), q.io[..k], q.io[k..]);
    forall x | x in q.io[..k] ensures Reclaimable(q, x) {
      var i :| 0 <= i < k && q.io[..k][i] == x;
      assert q.io[i] == x;
    }
  }

  /** A front part of the I/O list moved behind the free list. */
  lemma MovePartition(q: Queue, q': Queue, front: seq<nat>, back: seq<nat>)
    requires Partition(q) && q' == q.(io := back, free := q.free + front)
    requires Distinct(front) && Distinct(back) && forall i :: 0 <= i < |front| ==> front[i] !in back
    requires forall x :: x in q.io <==> x in front || x in back
    ensures Partition(q')
  {
    assert forall i :: 0 <= i < |front| ==> front[i] in q.io;
    assert forall i :: 0 <= i < |back| ==> back[i] in q.io;
    ConcatDistinct(q.free, front);
    hide Distinct;
    forall i | 0 <= i < |q'.free| ensures q'.free[i] < |q.slots| && q'.free[i] !in back {
      assert q'.free[i] == if i < |q.free| then q.free[i] else front[i - |q.free|];
    }
    forall x | 0 <= x < |q.slots| ensures x in q'.free || x in back { assert x in q.free || x in q.io; }
  }

  lemma ReclaimOrder(q: Queue)
    requires Partition(q) && Partition(Reclaim(q)) && RecycledBehind(q) && Sorted(q)
    ensures RecycledBehind(Reclaim(q)) && Sorted(Reclaim(q))
  {
    var q' := Reclaim(q);
    var k := ReclaimCount(q, 0);
    ReclaimMeaning(q, 0);
    hide Distinct, ReclaimCount;
    var f := |q.free|;
    forall i, j | 0 <= i < j < |q'.free| && q.slots[q'.free[i]].completed ensures q.slots[q'.free[j]].completed {
      if j < f {
        assert q'.free[i] == q.free[i] && q'.free[j] == q.free[j];
      } else {
        assert q'.free[j] == q.io[j - f];
      }
    }
    forall i, j | 0 <= i < j < |q'.io| ensures Key(q', q'.io[i]) <= Key(q', q'.io[j]) {
      assert Key(q, q.io[k + i]) <= Key(q, q.io[k + j]);
    }
  }

  lemma ReclaimKeepsInv(q: Queue)
    requires Inv(q)
    ensures Inv(Reclaim(q))
  {
    var q' := Reclaim(q);
    ReclaimPartition(q);
    ReclaimOrder(q);
    hide Partition, RecycledBehind, Sorted, ReclaimCount, Distinct;
    assert CursorSafe(q') by {
      if q.cursor in q'.free && q.cursor !in q.free {
        assert q.cursor in q.io && q.cursor !in q'.io;
      }
    }
    forall t | 0 <= t < q'.issued && t !in q'.done ensures Held(q', t) {
      assert Held(q, t);
      var x :| x in q.io && q.slots[x].ticket == t;
      assert Tracked(q, q.slots[x]);
      assert x in q'.io;
    }
  }

  lemma {:induction false} SuccessorAt(s: seq<nat>, i: nat)
    requires Distinct(s) && i < |s|
    ensures Successor(s, s[i]) == if i + 1 < |s| then s[i + 1] else NIL
    decreases |s|
  {
    if i > 0 {
      assert s[0] != s[i] && s[1..][i - 1] == s[i];
      SuccessorAt(s[1..], i - 1);
    }
  }

  lemma VisitCursorSafe(q: Queue, clock: nat)
    requires Inv(q) && q.cursor < |q.slots| && q.now <= clock
    ensures Partition(Visit(q, clock)) && CursorSafe(Visit(q, clock))
  {
    var q' := Visit(q, clock);
    var x := q.cursor;
    if x !in q.io {
      var i :| 0 <= i < |q.free| && q.free[i] == x;
      SuccessorAt(q.free, i);
    }
  }

  lemma VisitKeepsInv(q: Queue, clock: nat)
    requires Inv(q) && q.cursor < |q.slots| && q.now <= clock
    ensures Inv(Visit(q, clock))
  {
    hide Successor;
    var q' := Visit(q, clock);
    var x := q.cursor;
    VisitCursorSafe(q, clock);
    assert Sorted(q') by {
      forall i, j | 0 <= i < j < |q'.io| ensures Key(q', q'.io[i]) <= Key(q', q'.io[j]) {
        assert Key(q, q.io[i]) <= Key(q, q.io[j]);
      }
    }
    if !q.slots[x].completed {
      VisitTickets(q, clock);
    }
  }

  lemma VisitTickets(q: Queue, clock: nat)
    requires Inv(q) && q.cursor < |q.slots| && q.now <= clock && !q.slots[q.cursor].completed
    requires Partition(Visit(q, clock))
    ensures Tickets(Visit(q, clock)) && Logs(Visit(q, clock)) && NothingLost(Visit(q, clock))
  {
    hide RecycledBehind, Sorted, Successor, CompletedIsDue, NothingLost, Tickets, Logs;
    var q' := Visit(q, clock);
    var x, e := q.cursor, q.slots[q.cursor];
    assert x in q.io;
    hide CursorSafe;
    LogTickets(q, q', x, e.target <= clock);
    LogGrows(q, q', x, e.target <= clock);
    LogKeeps(q, q', x);
  }

  /** `q'` is `q` with the request in slot `x` copied, and completed if `due`. */
  ghost predicate Logged(q: Queue, q': Queue, x: nat, due: bool)
    requires Partition(q) && x in q.io
  {
    var e := q.slots[x];
    && q'.io == q.io && q'.issued == q.issued && q'.slots == q.slots[x := e.(copied := true, completed := due)]
    && q'.copies == (if e.copied then q.copies else q.copies + [e.ticket])
    && q'.done == if due then q.done + [e.ticket] else q.done
  }

  lemma LogTickets(q: Queue, q': Queue, x: nat, due: bool)
    requires Partition(q) && Partition(q') && x in q.io && Tickets(q) && !q.slots[x].completed && Logged(q, q', x, due)
    ensures Tickets(q')
  {
  }

  lemma LogGrows(q: Queue, q': Queue, x: nat, due: bool)
    requires Partition(q) && x in q.io && Tickets(q) && Logs(q) && !q.slots[x].completed && Logged(q, q', x, due)
    ensures Logs(q')
  {
  }

  lemma LogKeeps(q: Queue, q': Queue, x: nat)
    requires Partition(q) && Partition(q') && x in q.io && NothingLost(q)
    requires Logged(q, q', x, true) || Logged(q, q', x, false)
    ensures NothingLost(q')
  {
  }

  /** A request is dropped, without a trace, exactly when only one free slot is left. */
  lemma DroppedExactly(q: Queue, target: nat, writeback: bool)
    requires Partition(q)
    ensures Enqueue(q, target, writeback) == q <==> |q.free| < 2
    ensures 2 <= |q.free| ==> Enqueue(q, target, writeback).issued == q.issued + 1
  {
  }

  // ---------- runs ----------

  datatype Step = DoEnqueue(target: nat, writeback: bool) | DoReclaim | DoBeginPass | DoVisit(clock: nat)

  /** A pass starts when the cursor has reached the end of a list, a visit needs a slot and a clock that does not go
      back. */
  predicate Enabled(q: Queue, s: Step) {
    match s
    case DoBeginPass => q.cursor == NIL
    case DoVisit(clock) => q.cursor < |q.slots| && q.now <= clock
    case _ => true
  }

  function Do(q: Queue, s: Step): Queue
    requires Partition(q) && Enabled(q, s)
  {
    match s
    case DoEnqueue(target, writeback) => Enqueue(q, target, writeback)
    case DoReclaim => Reclaim(q)
    case DoBeginPass => BeginPass(q)
    case DoVisit(clock) => Visit(q, clock)
  }

  lemma StepKeepsInv(q: Queue, s: Step)
    requires Inv(q) && Enabled(q, s)
    ensures Inv(Do(q, s))
  {
    match s
    case DoEnqueue(target, writeback) => EnqueueKeepsInv(q, target, writeback);
    case DoReclaim => ReclaimKeepsInv(q);
    case DoBeginPass =>
    case DoVisit(clock) => VisitKeepsInv(q, clock);
  }

  /** `qs` is a run: it starts in the state of NVMEV_IO_PROC_INIT and every state follows by one enabled step. */
  ghost predicate IsRun(qs: seq<Queue>, steps: seq<Step>) {
    && |qs| == |steps| + 1 && qs[0] == Initial()
    && forall i :: 0 <= i < |steps| ==> Partition(qs[i]) && Enabled(qs[i], steps[i]) && qs[i + 1] == Do(qs[i], steps[i])
  }

  function Initial(): Queue {
    Queue(seq(NR_MAX_PARALLEL_IO, _ => Entry(0, 0, false, false, false)),
          seq<nat>(NR_MAX_PARALLEL_IO, i requires 0 <= i => i), [], 0, NIL, 0, [], [])
  }

  lemma InitialInv()
    ensures Inv(Initial())
  {
    var q := Initial();
    forall x | 0 <= x < |q.slots| ensures x in q.free {
      assert q.free[x] == x;
    }
  }

  lemma {:induction false} ReachableInv(qs: seq<Queue>, steps: seq<Step>, n: nat)
    requires IsRun(qs, steps) && n < |qs|
    ensures Inv(qs[n])
  {
    if n == 0 {
      InitialInv();
    } else {
      ReachableInv(qs, steps, n - 1);
      StepKeepsInv(qs[n - 1], steps[n - 1]);
    }
  }

  /** The table after `n` requests that nobody has worked on. */
  function Backlog(n: nat): (q: Queue)
    requires n < NR_MAX_PARALLEL_IO
    ensures Inv(q) && |q.free| == NR_MAX_PARALLEL_IO - n && q.cursor == NIL
    decreases n
  {
    InitialInv();
    if n == 0 then Initial() else
    EnqueueKeepsInv(Backlog(n - 1), 0, false);
    Enqueue(Backlog(n - 1), 0, false)
  }

  /** It happens: after 16383 requests that the worker has not come to, every further one is dropped. */
  lemma DroppedInRun(target: nat, writeback: bool)
    ensures var n := NR_MAX_PARALLEL_IO - 1;
      && IsRun(seq(n + 1, i requires 0 <= i < n + 1 => Backlog(i)), seq(n, _ => DoEnqueue(0, false)))
      && Enqueue(Backlog(n), target, writeback) == Backlog(n)
  {
    var n := NR_MAX_PARALLEL_IO - 1;
    hide Inv, Enqueue;
    forall i | 0 <= i < n ensures Partition(Backlog(i)) && Backlog(i + 1) == Enqueue(Backlog(i), 0, false) {
      InvPartition(Backlog(i));
    }
    InvPartition(Backlog(n));
    DroppedExactly(Backlog(n), target, writeback);
  }

  lemma InvPartition(q: Queue)
    requires Inv(q)
    ensures Partition(q)
  {
  }

  /** No request that is already completed sits behind one that is not yet due. */
  lemma NoneCompletedBehindUndue(q: Queue, i: nat, j: nat)
    requires Inv(q) && i < j < |q.io| && q.slots[q.io[j]].completed
    ensures q.slots[q.io[i]].target <= q.now
  {
  }

  /** In every run, at every step: a slot leaves the I/O list only when its request was copied
      and completed and its time has come; a request is completed only by the worker, at a clock
      no earlier than its target, and it was not completed before; the log only grows. */
  lemma StepEffects(qs: seq<Queue>, steps: seq<Step>, n: nat)
    requires IsRun(qs, steps) && n < |steps|
    ensures Inv(qs[n]) && Inv(qs[n + 1])
    ensures forall x :: x in qs[n].io && x !in qs[n + 1].io ==>
      var e := qs[n].slots[x]; e.copied && e.completed && e.target <= qs[n].now && e.ticket in qs[n].done
    ensures qs[n].done <= qs[n + 1].done && |qs[n + 1].done| <= |qs[n].done| + 1
    ensures |qs[n + 1].done| > |qs[n].done| ==>
      && steps[n].DoVisit? && qs[n].cursor in qs[n].io
      && var e := qs[n].slots[qs[n].cursor];
         e.target <= steps[n].clock && qs[n + 1].done == qs[n].done + [e.ticket] && e.ticket !in qs[n].done
  {
    ReachableInv(qs, steps, n);
    ReachableInv(qs, steps, n + 1);
    var q := qs[n];
    if steps[n].DoReclaim? {
      ReclaimPartition(q);
      assert forall x :: x in q.io ==> Tracked(q, q.slots[x]);
    } else if steps[n].DoEnqueue? && Accepts(q) {
      EnqueuePartition(q, steps[n].target, steps[n].writeback);
    } else if steps[n].DoVisit? {
      assert q.cursor in q.io ==> Tracked(q, q.slots[q.cursor]);
    }
  }

  ghost function Elements(s: seq<nat>): set<nat> {
    set x | x in s
  }

  lemma {:induction false} DistinctCard(s: seq<nat>)
    requires Distinct(s)
    ensures |Elements(s)| == |s|
  {
    if s != [] {
      var r, e := s[..|s| - 1], s[|s| - 1];
      DistinctCard(r);
      assert s == r + [e] && e !in r;
      assert Elements(s) == Elements(r) + {e};
    }
  }

  ghost function Numbers(n: nat): set<nat> {
    if n == 0 then {} else Numbers(n - 1) + {n - 1}
  }

  lemma {:induction false} NumbersCard(n: nat)
    ensures |Numbers(n)| == n && forall t :: t in Numbers(n) <==> 0 <= t < n
  {
    if n > 0 { NumbersCard(n - 1); }
  }

  lemma DistinctCoversAll(s: seq<nat>, n: nat)
    requires Distinct(s) && forall t :: t in s <==> 0 <= t < n
    ensures |s| == n
  {
    DistinctCard(s);
    NumbersCard(n);
    assert Elements(s) == Numbers(n);
  }

  /** Exactly once: when no request of the I/O list is left uncompleted, the completion log is a
      permutation of all accepted requests. */
  lemma EachCompletedOnce(q: Queue)
    requires Inv(q) && forall x :: x in q.io ==> q.slots[x].completed
    ensures Distinct(q.done) && |q.done| == q.issued
    ensures forall t :: 0 <= t < q.issued <==> t in q.done
  {
    forall t | 0 <= t < q.issued ensures t in q.done {
      HeldIsDone(q, t);
    }
    DistinctCoversAll(q.done, q.issued);
  }

  lemma HeldIsDone(q: Queue, t: nat)
    requires Partition(q) && Tickets(q) && forall x :: x in q.io ==> q.slots[x].completed
    ensures Held(q, t) ==> t in q.done
  {
    if Held(q, t) {
      var x :| x in q.io && q.slots[x].ticket == t;
      assert Tracked(q, q.slots[x]);
    }
  }

  /** A visit of entry `n` of the I/O list: only that entry changes, and the cursor moves to the next one. */
  lemma VisitEntry(q: Queue, clock: nat, n: nat)
    requires Inv(q) && q.now <= clock && n < |q.io| && q.cursor == q.io[n]
    ensures var q' := Visit(q, clock);
      && Inv(q') && q'.now == clock && q'.io == q.io
      && q'.cursor == (if n + 1 < |q.io| then q.io[n + 1] else NIL)
      && (forall i :: 0 <= i < |q.io| && i != n ==> q'.slots[q.io[i]] == q.slots[q.io[i]])
      && q'.slots[q.io[n]].copied && (q'.slots[q.io[n]].completed <==> q.slots[q.io[n]].target <= clock)
  {
    VisitKeepsInv(q, clock);
    SuccessorAt(q.io, n);
    assert q.cursor in q.io;
  }

  /** The worker reads the clock at every entry; it does not go back. */
  ghost predicate Clocks(q: Queue, clocks: seq<nat>, n: nat) {
    && |clocks| == |q.io|
    && (forall i :: n <= i < |clocks| ==> q.now <= clocks[i])
    && (forall i, j :: n <= i < j < |clocks| ==> clocks[i] <= clocks[j])
  }

  /** A pass that no other step interrupts, from entry `n` of the I/O list on. */
  ghost function Pass(q: Queue, clocks: seq<nat>, n: nat): Queue
    requires Inv(q) && n <= |q.io| && Clocks(q, clocks, n)
    requires q.cursor == if n < |q.io| then q.io[n] else NIL
    decreases |q.io| - n
  {
    if n == |q.io| then q else
    VisitEntry(q, clocks[n], n);
    Pass(Visit(q, clocks[n]), clocks, n + 1)
  }

  /** It copies every request and completes exactly those that are due when the worker comes to them. */
  lemma {:induction false} PassCompletesAllDue(q: Queue, clocks: seq<nat>, n: nat)
    requires Inv(q) && n <= |q.io| && Clocks(q, clocks, n)
    requires q.cursor == if n < |q.io| then q.io[n] else NIL
    ensures var q' := Pass(q, clocks, n);
      && q'.io == q.io && q'.cursor == NIL && Inv(q')
      && (forall i :: 0 <= i < n ==> q'.slots[q.io[i]] == q.slots[q.io[i]])
      && (forall i :: n <= i < |q.io| ==>
            q'.slots[q.io[i]].copied && (q'.slots[q.io[i]].completed <==> q.slots[q.io[i]].target <= clocks[i]))
    decreases |q.io| - n
  {
    hide Tickets, Logs, NothingLost, RecycledBehind, Sorted, CursorSafe, Visit, Distinct;
    if n < |q.io| {
      VisitEntry(q, clocks[n], n);
      PassCompletesAllDue(Visit(q, clocks[n]), clocks, n + 1);
    }
  }

  /** The steps lead from `q` to `r`, every one of them enabled when it is taken. */
  ghost predicate Leads(q: Queue, steps: seq<Step>, r: Queue)
    decreases |steps|
  {
    if steps == [] then q == r
    else Partition(q) && Enabled(q, steps[0]) && Leads(Do(q, steps[0]), steps[1..], r)
  }

  function Visits(clocks: seq<nat>): seq<Step> {
    seq(|clocks|, i requires 0 <= i < |clocks| => DoVisit(clocks[i]))
  }

  lemma {:induction false} PassLeads(q: Queue, clocks: seq<nat>, n: nat)
    requires Inv(q) && n <= |q.io| && Clocks(q, clocks, n)
    requires q.cursor == if n < |q.io| then q.io[n] else NIL
    ensures Leads(q, Visits(clocks[n..]), Pass(q, clocks, n))
    decreases |q.io| - n
  {
    hide Inv, Visit, Pass;
    if n < |q.io| {
      InvPartition(q);
      VisitEntry(q, clocks[n], n);
      PassLeads(Visit(q, clocks[n]), clocks, n + 1);
      PassUnfold(q, clocks, n);
      assert Visits(clocks[n..])[1..] == Visits(clocks[n + 1..]);
      assert Partition(q) && q.io[n] < |q.slots|;
    } else {
      PassUnfold(q, clocks, n);
    }
  }

  lemma PassUnfold(q: Queue, clocks: seq<nat>, n: nat)
    requires Inv(q) && n <= |q.io| && Clocks(q, clocks, n)
    requires q.cursor == if n < |q.io| then q.io[n] else NIL
    ensures n == |q.io| ==> Pass(q, clocks, n) == q
    ensures n < |q.io| ==>
      var v := Visit(q, clocks[n]);
      && Inv(v) && n + 1 <= |v.io| && Clocks(v, clocks, n + 1)
      && v.cursor == (if n + 1 < |v.io| then v.io[n + 1] else NIL)
      && Pass(q, clocks, n) == Pass(v, clocks, n + 1)
  {
    if n < |q.io| { VisitEntry(q, clocks[n], n); }
  }

  /** What a pass from entry `n` on writes to the completion log: the tickets of the entries not completed before
      that are due when the worker comes to them, in order. */
  ghost function DueTickets(q: Queue, clocks: seq<nat>, n: nat): seq<nat>
    requires Partition(q) && n <= |q.io| == |clocks|
    decreases |q.io| - n
  {
    if n == |q.io| then [] else
    var e := q.slots[q.io[n]];
    (if !e.completed && e.target <= clocks[n] then [e.ticket] else []) + DueTickets(q, clocks, n + 1)
  }

  lemma {:induction false} DueTicketsSame(q: Queue, v: Queue, clocks: seq<nat>, n: nat)
    requires Partition(q) && Partition(v) && v.io == q.io && n <= |q.io| == |clocks|
    requires forall i :: n <= i < |q.io| ==> v.slots[q.io[i]] == q.slots[q.io[i]]
    ensures DueTickets(v, clocks, n) == DueTickets(q, clocks, n)
    decreases |q.io| - n
  {
    if n < |q.io| { DueTicketsSame(q, v, clocks, n + 1); }
  }

  lemma VisitLogs(q: Queue, clock: nat, n: nat)
    requires Inv(q) && q.now <= clock && n < |q.io| && q.cursor == q.io[n]
    ensures Partition(q) && q.io[n] < |q.slots|
    ensures var e := q.slots[q.io[n]];
      Visit(q, clock).done == q.done + if !e.completed && e.target <= clock then [e.ticket] else []
  {
    hide RecycledBehind, Sorted, Tickets, Logs, NothingLost, CompletedIsDue, CursorSafe, Next;
  }

  lemma {:induction false} PassLogs(q: Queue, clocks: seq<nat>, n: nat)
    requires Inv(q) && n <= |q.io| && Clocks(q, clocks, n) && Partition(q)
    requires q.cursor == if n < |q.io| then q.io[n] else NIL
    ensures Pass(q, clocks, n).done == q.done + DueTickets(q, clocks, n)
    decreases |q.io| - n
  {
    hide Inv, Pass, Partition, Visit;
    PassUnfold(q, clocks, n);
    if n < |q.io| {
      VisitLogs(q, clocks[n], n);
      var v := Visit(q, clocks[n]);
      VisitEntry(q, clocks[n], n);
      InvPartition(v);
      PassLogs(v, clocks, n + 1);
      DueTicketsSame(q, v, clocks, n + 1);
    }
  }

  /** A pass started by an idle worker is the step that starts it and one step for every entry. */
  lemma BeginLeads(q: Queue, clocks: seq<nat>)
    requires Inv(q) && q.cursor == NIL && Clocks(q, clocks, 0)
    ensures var b := BeginPass(q);
      && Inv(b) && b == q.(cursor := b.cursor) && b.cursor == (if |q.io| > 0 then q.io[0] else NIL)
      && Clocks(b, clocks, 0) && Leads(q, [DoBeginPass] + Visits(clocks), Pass(b, clocks, 0))
  {
    hide RecycledBehind, Sorted, Tickets, Logs, NothingLost, CursorSafe, Pass, Visit, Enqueue, Reclaim;
    var b := Do(q, DoBeginPass);
    StepKeepsInv(q, DoBeginPass);
    PassLeads(b, clocks, 0);
    var steps := [DoBeginPass] + Visits(clocks);
    assert steps[1..] == Visits(clocks) && clocks[0..] == clocks;
  }

  /** A whole pass of an idle worker, with no other step in between: one step to start and one for every entry of the
      I/O list.  It copies every entry, completes exactly those not completed before that are due at their visit, and
      leaves the worker idle again. */
  lemma WholePass(q: Queue, clocks: seq<nat>)
    requires Inv(q) && q.cursor == NIL && Clocks(q, clocks, 0)
    ensures Partition(q)
    ensures exists r ::
      && Leads(q, [DoBeginPass] + Visits(clocks), r)
      && Inv(r) && r.io == q.io && r.cursor == NIL && r.done == q.done + DueTickets(q, clocks, 0)
      && (forall i :: 0 <= i < |q.io| ==>
            var e, e' := q.slots[q.io[i]], r.slots[q.io[i]];
            e'.copied && (e'.completed <==> e.completed || e.target <= clocks[i]))
  {
    hide RecycledBehind, Sorted, Tickets, Logs, NothingLost, CursorSafe, Pass, Visit, DueTickets, Leads;
    BeginLeads(q, clocks);
    var b := BeginPass(q);
    PassCompletesAllDue(b, clocks, 0);
    PassLogs(b, clocks, 0);
    DueTicketsSame(q, b, clocks, 0);
    var r := Pass(b, clocks, 0);
    assert Leads(q, [DoBeginPass] + Visits(clocks), r);
    forall i | 0 <= i < |q.io|
      ensures r.slots[q.io[i]].copied
      ensures r.slots[q.io[i]].completed <==> q.slots[q.io[i]].completed || q.slots[q.io[i]].target <= clocks[i]
    {
      assert q.io[i] in q.io;
    }
  }

  /** A reclaim cuts off exactly the completed front part of the I/O list: all of it was completed, what follows
      first is not, and the slots go to the end of the free list in order. */
  lemma ReclaimTakesCompleted(q: Queue)
    requires Inv(q)
    ensures var q' := Reclaim(q);
      exists k | 0 <= k <= |q.io| ::
        && q'.io == q.io[k..] && q'.free == q.free + q.io[..k] && q' == q.(io := q'.io, free := q'.free)
        && (forall i :: 0 <= i < k ==> q.slots[q.io[i]].completed)
        && (k < |q.io| ==> !q.slots[q.io[k]].completed)
  {
    ReclaimMeaning(q, 0);
    var k := ReclaimCount(q, 0);
    if k < |q.io| { assert q.io[k] in q.io; }
  }
}
