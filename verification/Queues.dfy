/** The submission and completion rings of io.c and main.c: doorbells that wrap around, a handler
    that may refuse a command, and the phase tag of section 4.6 of NVM Express 1.4. */
module Queues {
  import opened Arith

  lemma Residue(n: nat, size: nat)
    requires 0 < size
    ensures n % size < size && n == n / size * size + n % size
  {
    assert n == size * (n / size) + n % size;
  }

  /** Fewer than `size` steps around the ring. */
  lemma AddResidue(n: nat, d: nat, size: nat)
    requires 0 < size && d < size
    ensures (n + d) % size == (if n % size + d < size then n % size + d else n % size + d - size)
    ensures (n + d) / size == (if n % size + d < size then n / size else n / size + 1)
  {
    var q, r := n / size, n % size;
    Residue(n, size);
    if r + d < size {
      DivModUnique(n + d, size, q, r + d);
    } else {
      NextMultiple(size, q);
      DivModUnique(n + d, size, q + 1, r + d - size);
    }
  }

  lemma NextMultiple(size: nat, q: nat)
    ensures size * (q + 1) == size * q + size
  {
  }

  /** One step around the ring. */
  lemma NextResidue(n: nat, size: nat)
    requires 0 < size
    ensures (n + 1) % size == (if n % size + 1 == size then 0 else n % size + 1)
    ensures (n + 1) / size == (if n % size + 1 == size then n / size + 1 else n / size)
  {
    Residue(n, size);
    if size == 1 {
      WholeTurn(n, 1);
    } else {
      AddResidue(n, 1, size);
    }
  }

  /** A whole turn: same slot, next round. */
  lemma WholeTurn(n: nat, size: nat)
    requires 0 < size
    ensures (n + size) % size == n % size && (n + size) / size == n / size + 1
  {
    Residue(n, size);
    assert n + size == size * (n / size + 1) + n % size;
    DivModUnique(n + size, size, n / size + 1, n % size);
  }

  // ---------- completion queue ----------

  /** A completion entry as the host sees it: the phase bit and the rest. */
  datatype Cqe = Cqe(phase: bool, body: nat)

  /** The phase of the n-th completion: set in the first round, then alternating. */
  function PhaseOf(n: nat, size: nat): bool requires 0 < size { n / size % 2 == 0 }

  /** A queue of `size` slots after `posted`: slot k holds the last completion whose number is k modulo the size, or
      nothing yet. */
  ghost predicate Holds(slots: seq<Cqe>, posted: seq<nat>, size: nat) {
    && 0 < size == |slots|
    && (forall i :: 0 <= i < |posted| && |posted| <= i + size ==> SlotIs(slots, posted, i, size))
    && (forall k :: |posted| <= k < size ==> !slots[k].phase)
  }

  ghost predicate SlotIs(slots: seq<Cqe>, posted: seq<nat>, i: nat, size: nat)
    requires 0 < size == |slots| && i < |posted|
  {
    Residue(i, size);
    slots[i % size] == Cqe(PhaseOf(i, size), posted[i])
  }

  /** The n-th completion lands in slot n modulo the size, with the phase of its round. */
  lemma PostHolds(slots: seq<Cqe>, posted: seq<nat>, size: nat, body: nat)
    requires Holds(slots, posted, size)
    ensures |posted| % size < size
    ensures Holds(slots[|posted| % size := Cqe(PhaseOf(|posted|, size), body)], posted + [body], size)
  {
    var n := |posted|;
    Residue(n, size);
    var slots', posted' := slots[n % size := Cqe(PhaseOf(n, size), body)], posted + [body];
    forall i | 0 <= i < |posted'| && |posted'| <= i + size ensures SlotIs(slots', posted', i, size) {
      if i < n {
        assert SlotIs(slots, posted, i, size);
        SlotsDiffer(i, n, size);
      }
    }
    if n < size { DivModUnique(n, size, 0, n); }
  }

  /** A host that has read `r` completions and lags by at most the queue size finds the next one by its phase tag:
      the tag of slot r matches exactly when the r-th completion was posted, and then the slot holds it. */
  lemma HostReadsPosted(slots: seq<Cqe>, posted: seq<nat>, size: nat, r: nat)
    requires Holds(slots, posted, size) && r <= |posted| <= r + size
    ensures r % size < size
    ensures slots[r % size].phase == PhaseOf(r, size) <==> r < |posted|
    ensures r < |posted| ==> slots[r % size].body == posted[r]
  {
    Residue(r, size);
    if r < |posted| {
      assert SlotIs(slots, posted, r, size);
    } else if r < size {
      DivModUnique(r, size, 0, r);
    } else {
      assert SlotIs(slots, posted, r - size, size);
      WholeTurn(r - size, size);
    }
  }

  /** How many whole rounds the host is behind, when completion `r` is its next one. */
  function Overruns(posted: nat, r: nat, size: nat): (k: nat)
    requires 0 < size && r < posted
  {
    DivNonnegative(posted - r - 1, size);
    (posted - r - 1) / size
  }

  /** Whatever the lag: after k overruns the slot of completion r holds completion r + k * size, and its phase tag looks
      right to the host exactly if k is even. */
  lemma OverrunSlot(slots: seq<Cqe>, posted: seq<nat>, size: nat, r: nat)
    requires Holds(slots, posted, size) && r < |posted|
    ensures var k := Overruns(|posted|, r, size);
      && r % size < size && r + k * size < |posted|
      && slots[r % size].body == posted[r + k * size]
      && (slots[r % size].phase == PhaseOf(r, size) <==> k % 2 == 0)
      && (k == 0 <==> |posted| <= r + size)
  {
    var k := Overruns(|posted|, r, size);
    DivMod(|posted| - r - 1, size);
    NextMultiple(size, k);
    if |posted| <= r + size { DivModUnique(|posted| - r - 1, size, 0, |posted| - r - 1); }
    Turns(r, k, size);
    assert SlotIs(slots, posted, r + k * size, size);
    Parity(r / size, k);
  }

  lemma Parity(q: nat, k: nat)
    ensures (q + k) % 2 == q % 2 <==> k % 2 == 0
  {
  }

  /** k whole turns. */
  lemma Turns(r: nat, k: nat, size: nat)
    requires 0 < size
    ensures (r + k * size) % size == r % size && (r + k * size) / size == r / size + k
  {
    Residue(r, size);
    assert r + k * size == size * (r / size + k) + r % size;
    DivModUnique(r + k * size, size, r / size + k, r % size);
  }

  /** The host is told by the tag exactly whether completion `r` is there, and then reads it. */
  ghost predicate ReadsRight(slots: seq<Cqe>, posted: seq<nat>, size: nat, r: nat)
    requires 0 < size == |slots|
  {
    Residue(r, size);
    && (slots[r % size].phase == PhaseOf(r, size) <==> r < |posted|)
    && (r < |posted| ==> slots[r % size].body == posted[r])
  }

  /** The bound on the lag is exact: whatever was posted, the host reads right, if and only if it lags by at most the
      size. */
  lemma LagBound(size: nat, n: nat, r: nat)
    requires 0 < size && r <= n
    ensures n <= r + size <==>
      forall slots, posted :: Holds(slots, posted, size) && |posted| == n ==> ReadsRight(slots, posted, size, r)
  {
    if n <= r + size {
      forall slots, posted | Holds(slots, posted, size) && |posted| == n ensures ReadsRight(slots, posted, size, r) {
        HostReadsPosted(slots, posted, size, r);
      }
    } else {
      var posted := seq(n, i => i);
      var slots := SlotsAfter(posted, size);
      OverrunSlot(slots, posted, size, r);
      var k := Overruns(n, r, size);
      MulMono(1, k, size);
      assert !ReadsRight(slots, posted, size, r);
    }
  }

  /** The ring after these completions. */
  ghost function SlotsAfter(posted: seq<nat>, size: nat): (slots: seq<Cqe>)
    requires 0 < size
    ensures Holds(slots, posted, size)
  {
    if posted == [] then
      seq(size, _ => Cqe(false, 0))
    else
      var n := |posted| - 1;
      assert posted[..n] + [posted[n]] == posted;
      PostHolds(SlotsAfter(posted[..n], size), posted[..n], size, posted[n]);
      SlotsAfter(posted[..n], size)[n % size := Cqe(PhaseOf(n, size), posted[n])]
  }

  class CompletionQueue {
    const size: nat
    const slots: array<Cqe>
    var phase: bool
    var cqHead: nat
    /** All completions so far. */
    ghost var posted: seq<nat>

    ghost predicate Valid()
      reads this, slots
    {
      && Holds(slots[..], posted, size)
      && cqHead == |posted| % size && phase == PhaseOf(|posted|, size)
    }

    constructor (size: nat)
      requires 0 < size
      ensures Valid() && posted == [] && fresh(slots) && this.size == size
    {
      this.size := size;
      slots := new Cqe[size](_ => Cqe(false, 0));
      phase, cqHead, posted := true, 0, [];
      new;
      DivModUnique(0, size, 0, 0);
    }

    /** __fill_cq_result. */
    method Fill(body: nat)
      requires Valid()
      modifies this, slots
      ensures Valid() && posted == old(posted) + [body]
    {
      hide Holds;
      PostHolds(slots[..], posted, size, body);
      NextResidue(|posted|, size);
      ghost var s := slots[..];
      var head := cqHead;
      assert slots.Length == size > 0 by { SizeOf(s, posted, size); }
      slots[head] := Cqe(phase, body);
      assert slots[..] == s[head := Cqe(phase, body)];
      head := head + 1;
      if head == size {
        head := 0;
        phase := !phase;
      }
      cqHead := head;
      posted := posted + [body];
    }
  }

  lemma SizeOf(slots: seq<Cqe>, posted: seq<nat>, size: nat)
    requires Holds(slots, posted, size)
    ensures 0 < size == |slots|
  {
  }

  // ---------- submission queue ----------

  /** `submitted` are all commands the host ever put in the ring, `handled` all that the handler accepted; history.
      `db` and `oldDb` are the doorbell and the dispatcher's copy of it. */
  datatype Sq = Sq(ring: seq<nat>, db: nat, oldDb: nat, submitted: seq<nat>, handled: seq<nat>)

  ghost predicate SqInv(q: Sq) {
    var size := |q.ring|;
    && 0 < size && |q.handled| <= |q.submitted| < |q.handled| + size
    && q.handled == q.submitted[..|q.handled|]
    && q.oldDb == |q.handled| % size && q.db == |q.submitted| % size
    && forall i :: |q.handled| <= i < |q.submitted| ==> Waiting(q, i)
  }

  ghost predicate Waiting(q: Sq, i: nat)
    requires 0 < |q.ring| && i < |q.submitted|
  {
    Residue(i, |q.ring|);
    q.ring[i % |q.ring|] == q.submitted[i]
  }

  /** The host writes the slot of its tail and rings; it keeps one slot free. */
  ghost function Submit(q: Sq, cmd: nat): Sq
    requires SqInv(q)
  {
    Residue(|q.submitted|, |q.ring|);
    NextResidue(|q.submitted|, |q.ring|);
    q.(ring := q.ring[q.db := cmd], submitted := q.submitted + [cmd], db := (|q.submitted| + 1) % |q.ring|)
  }

  lemma SubmitInv(q: Sq, cmd: nat)
    requires SqInv(q) && |q.submitted| + 1 < |q.handled| + |q.ring|
    ensures SqInv(Submit(q, cmd))
  {
    var q' := Submit(q, cmd);
    forall i | |q.handled| <= i < |q'.submitted| ensures Waiting(q', i) {
      if i < |q.submitted| {
        assert Waiting(q, i);
        SlotsDiffer(i, |q.submitted|, |q.ring|);
      }
    }
  }

  /** The dispatcher accepts the next `n` waiting commands. */
  ghost function Handle(q: Sq, n: nat): Sq
    requires SqInv(q) && |q.handled| + n <= |q.submitted|
  {
    q.(handled := q.submitted[..|q.handled| + n], oldDb := (|q.handled| + n) % |q.ring|)
  }

  /** However often the handler refuses, accepted commands are the submitted ones, each once and in order. */
  lemma HandleInv(q: Sq, n: nat)
    requires SqInv(q) && |q.handled| + n <= |q.submitted|
    ensures SqInv(Handle(q, n))
  {
    var q' := Handle(q, n);
    forall i | |q'.handled| <= i < |q'.submitted| ensures Waiting(q', i) { assert Waiting(q, i); }
  }

  datatype SqStep = DoSubmit(cmd: nat) | DoHandle(n: nat)

  /** The host submits only into a ring that is not full; the dispatcher accepts any number of the waiting commands. */
  ghost predicate SqEnabled(q: Sq, s: SqStep)
    requires SqInv(q)
  {
    match s
    case DoSubmit(cmd) => |q.submitted| + 1 < |q.handled| + |q.ring|
    case DoHandle(n) => |q.handled| + n <= |q.submitted|
  }

  ghost function SqDo(q: Sq, s: SqStep): Sq
    requires SqInv(q) && SqEnabled(q, s)
  {
    match s
    case DoSubmit(cmd) => Submit(q, cmd)
    case DoHandle(n) => Handle(q, n)
  }

  ghost predicate IsSqRun(qs: seq<Sq>, steps: seq<SqStep>) {
    && |qs| == |steps| + 1 && qs[0].submitted == [] == qs[0].handled && qs[0].db == 0 == qs[0].oldDb && 0 < |qs[0].ring|
    && forall i :: 0 <= i < |steps| ==> SqInv(qs[i]) && SqEnabled(qs[i], steps[i]) && qs[i + 1] == SqDo(qs[i], steps[i])
  }

  /** After any interleaving of submissions, refusals and acceptances the accepted commands are a prefix of the
      submitted ones, and both logs only ever grow. */
  lemma {:induction false} SqRunInOrder(qs: seq<Sq>, steps: seq<SqStep>, m: nat, n: nat)
    requires IsSqRun(qs, steps) && m <= n < |qs|
    ensures SqInv(qs[n]) && qs[n].handled <= qs[n].submitted
    ensures qs[m].handled <= qs[n].handled && qs[m].submitted <= qs[n].submitted
    decreases n
  {
    hide SqInv, Waiting;
    if n == 0 {
      StartInv(qs[0]);
    } else {
      var k := if m < n then m else n - 1;
      SqRunInOrder(qs, steps, k, n - 1);
      SqStepKeeps(qs[n - 1], steps[n - 1]);
    }
  }

  lemma StartInv(q: Sq)
    requires q.submitted == [] == q.handled && q.db == 0 == q.oldDb && 0 < |q.ring|
    ensures SqInv(q)
  {
    DivModUnique(0, |q.ring|, 0, 0);
  }

  lemma SqStepKeeps(q: Sq, s: SqStep)
    requires SqInv(q) && SqEnabled(q, s)
    ensures var q' := SqDo(q, s);
      SqInv(q') && q'.handled <= q'.submitted && q.handled <= q'.handled && q.submitted <= q'.submitted
  {
    match s
    case DoSubmit(cmd) => SubmitInv(q, cmd);
    case DoHandle(n) => HandleInv(q, n);
  }

  /** The number of new entries between the doorbells. */
  lemma DoorbellDistance(q: Sq)
    requires SqInv(q)
    ensures var d := q.db - q.oldDb;
      (if d < 0 then d + |q.ring| else d) == |q.submitted| - |q.handled|
  {
    Residue(|q.handled|, |q.ring|);
    AddResidue(|q.handled|, |q.submitted| - |q.handled|, |q.ring|);
  }

  /** nvmev_proc_io_sq: offer the new entries until one is refused; `accepts[i]` is the answer to the i-th offer.
      The result is the doorbell value to remember, `taken` the commands accepted, in order. */
  method ProcIoSq(ring: seq<nat>, newDb: nat, oldDb: nat, accepts: seq<bool>, ghost q: Sq)
    returns (latestDb: nat, taken: seq<nat>)
    requires SqInv(q) && ring == q.ring && newDb == q.db && oldDb == q.oldDb && |accepts| == |q.submitted| - |q.handled|
    ensures |taken| <= |accepts| && (forall i :: 0 <= i < |taken| ==> accepts[i])
    ensures |taken| < |accepts| ==> !accepts[|taken|]
    ensures SqInv(Handle(q, |taken|)) && latestDb == Handle(q, |taken|).oldDb
    ensures taken == Handle(q, |taken|).handled[|q.handled|..]
  {
    var size := |ring|;
    DoorbellDistance(q);
    var numProc := newDb - oldDb;
    if numProc < 0 { numProc := numProc + size; }
    var sqEntry, n := oldDb, 0;
    taken := [];
    ghost var h := |q.handled|;
    while n < numProc
      invariant 0 <= n <= numProc == |accepts| && n == |taken| && sqEntry == (h + n) % size
      invariant taken == q.submitted[h..h + n] && forall i :: 0 <= i < n ==> accepts[i]
    {
      if !accepts[n] { break; }
      assert Waiting(q, h + n);
      Residue(h + n, size);
      NextResidue(h + n, size);
      taken := taken + [ring[sqEntry]];
      sqEntry := sqEntry + 1;
      if sqEntry == size { sqEntry := 0; }
      n := n + 1;
    }
    HandleInv(q, n);
    latestDb := (oldDb + n) % size;
    SumResidue(h, n, size);
  }

  lemma SumResidue(h: nat, n: nat, size: nat)
    requires 0 < size
    ensures (h % size + n) % size == (h + n) % size
  {
    Residue(h, size);
    var x := h % size + n;
    Residue(x, size);
    assert h + n == size * (h / size + x / size) + x % size;
    DivModUnique(h + n, size, h / size + x / size, x % size);
  }
}
