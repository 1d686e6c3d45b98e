/** The channel bandwidth model of channel_model.c.

    Time is cut into slots of UNIT_TIME_INTERVAL nanoseconds and every slot offers
    `maxCredits` transfer credits.  `Ledger` is the simple form: the credits left in every
    absolute slot from the current one on, without bound.  `CreditRing` is the form of the
    source: one circular buffer that is advanced lazily and reset only where it was used. */
module Channel {
  import opened Arith

  const NR_CREDIT_ENTRIES: nat := 98304
  const UNIT_TIME_INTERVAL: nat := 4000
  const UNIT_XFER_SIZE: nat := 128
  const TWO32: nat := 0x1_0000_0000

  const NS_PER_SEC: nat := 1000000000
  const MB: nat := 0x10_0000

  /** BANDWIDTH_TO_MAX_CREDITS: the whole transfer units that `mbs` MB/s moves in one slot. */
  function MaxCredits(mbs: nat): nat { mbs * MB * UNIT_TIME_INTERVAL / NS_PER_SEC / UNIT_XFER_SIZE }

  /** BANDWIDTH_TO_TX_TIME: the nanoseconds of one transfer unit. */
  function TxTime(mbs: nat): nat
    requires 0 < mbs
  {
    DivNonnegative(UNIT_XFER_SIZE * NS_PER_SEC, mbs * MB);
    UNIT_XFER_SIZE * NS_PER_SEC / (mbs * MB)
  }

  /** The credits of a slot are the most that keeps within the bandwidth. */
  lemma CreditsWithinBandwidth(mbs: nat)
    ensures MaxCredits(mbs) * UNIT_XFER_SIZE * NS_PER_SEC <= mbs * MB * UNIT_TIME_INTERVAL
    ensures mbs * MB * UNIT_TIME_INTERVAL < (MaxCredits(mbs) + 1) * UNIT_XFER_SIZE * NS_PER_SEC
  {
    var bytes := mbs * MB * UNIT_TIME_INTERVAL / NS_PER_SEC;
    assert bytes / UNIT_XFER_SIZE == MaxCredits(mbs);
  }

  /** The time of a transfer unit is the whole number of nanoseconds that its bytes take at that bandwidth. */
  lemma TxTimeWithinBandwidth(mbs: nat)
    requires 0 < mbs
    ensures TxTime(mbs) * (mbs * MB) <= UNIT_XFER_SIZE * NS_PER_SEC < (TxTime(mbs) + 1) * (mbs * MB)
  {
    var x, n := UNIT_XFER_SIZE * NS_PER_SEC, mbs * MB;
    assert TxTime(mbs) == x / n;
    hide *;
    QuotientBounds(x, n);
  }

  function Slot(t: nat): nat { t / UNIT_TIME_INTERVAL }

  function Units(length: nat): nat { (length + UNIT_XFER_SIZE - 1) / UNIT_XFER_SIZE }

  /** A slot is the span of UNIT_TIME_INTERVAL nanoseconds that a time lies in. */
  lemma SlotSpan(t: nat)
    ensures Slot(t) * UNIT_TIME_INTERVAL <= t < (Slot(t) + 1) * UNIT_TIME_INTERVAL
  {
  }

  /** The transfer units of a request are the fewest that hold its bytes. */
  lemma UnitsHold(length: nat)
    ensures length <= Units(length) * UNIT_XFER_SIZE < length + UNIT_XFER_SIZE
  {
  }

  function U32(x: nat): nat { x % TWO32 }

  // ---------- the unbounded ledger ----------

  /** `window[i]` is what slot `Slot(time) + i` still offers; every later slot is untouched. */
  datatype Ledger = Ledger(time: nat, window: seq<nat>, maxCredits: nat, commandCredits: nat, xferLat: nat)
  {
    ghost predicate Valid() {
      && |window| == NR_CREDIT_ENTRIES
      && 1 <= maxCredits <= 255
      && forall i :: 0 <= i < |window| ==> window[i] <= maxCredits
    }

    function Credits(s: nat): nat
      requires Slot(time) <= s
    {
      if s - Slot(time) < |window| then window[s - Slot(time)] else maxCredits
    }

    /** The same ledger looked at from a later clock. */
    function Elapse(now: nat): Ledger
      requires time <= now
    {
      this.(time := now,
            window := seq<nat>(|window|, i requires 0 <= i => Credits(Slot(now) + i)))
    }

    /** One request: the clock, the time it may start, its length in bytes. */
    function Serve(r: Request): (Ledger, nat)
      requires Valid() && time <= r.now
    {
      var l := Elapse(r.now);
      var first := Slot(r.start) - Slot(r.now);
      if r.start < r.now || first >= NR_CREDIT_ENTRIES then (l, r.start) else
      var credits := Units(r.length) + commandCredits;
      var (w, last) := Charge(l.window, first, credits);
      var waited := last - first;
      var expected := credits / maxCredits;
      var delay := if waited > expected then waited - expected else 0;
      (l.(window := w), r.start + xferLat * Units(r.length) + delay * UNIT_TIME_INTERVAL)
    }
  }

  datatype Request = Request(now: nat, start: nat, length: nat)

  /** Take `c` credits from slot `p` on; stop when they are paid or the window ends. */
  function Charge(w: seq<nat>, p: nat, c: nat): (r: (seq<nat>, nat))
    requires p < |w|
    ensures |r.0| == |w| && p <= r.1 < |w|
    decreases |w| - p
  {
    var used := Min(c, w[p]);
    var w' := w[p := w[p] - used];
    if c - used > 0 && p + 1 < |w| then Charge(w', p + 1, c - used) else (w', p)
  }

  lemma ChargeUnfold(w: seq<nat>, p: nat, c: nat)
    requires p < |w|
    ensures var used := Min(c, w[p]); var w' := w[p := w[p] - used];
      Charge(w, p, c) == if c - used > 0 && p + 1 < |w| then Charge(w', p + 1, c - used) else (w', p)
  {
  }

  function Sum(w: seq<nat>, lo: nat, hi: nat): nat
    requires lo <= hi <= |w|
    decreases hi - lo
  {
    if lo == hi then 0 else w[lo] + Sum(w, lo + 1, hi)
  }

  lemma {:induction false} SumCongruent(a: seq<nat>, b: seq<nat>, lo: nat, hi: nat)
    requires lo <= hi <= |a| == |b|
    requires forall i :: lo <= i < hi ==> a[i] == b[i]
    ensures Sum(a, lo, hi) == Sum(b, lo, hi)
    decreases hi - lo
  {
    if lo < hi { SumCongruent(a, b, lo + 1, hi); }
  }

  /** What Charge does: slots before `p` and after the last one are untouched, every slot before
      the last one is drained, and the last one pays exactly what the earlier ones could not.
      With the two bounds on `c` this determines the result: the earliest slots pay first. */
  lemma {:induction false} ChargeDrainsEarliestFirst(w: seq<nat>, p: nat, c: nat)
    requires p < |w|
    ensures var (w', q) := Charge(w, p, c);
      && (forall i :: 0 <= i < |w| && (i < p || q < i) ==> w'[i] == w[i])
      && (forall i :: p <= i < q ==> w'[i] == 0)
      && Sum(w, p, q) <= c
      && (p < q ==> Sum(w, p, q) < c)
      && w'[q] == w[q] - Min(w[q], c - Sum(w, p, q))
      && (c <= Sum(w, p, q) + w[q] || q == |w| - 1)
    decreases |w| - p
  {
    var used := Min(c, w[p]);
    var w1 := w[p := w[p] - used];
    if c - used > 0 && p + 1 < |w| {
      ChargeDrainsEarliestFirst(w1, p + 1, c - used);
      var (w', q) := Charge(w1, p + 1, c - used);
      SumCongruent(w, w1, p + 1, q);
    }
  }

  // ---------- monotonicity: load never helps ----------

  ghost predicate Below(a: seq<nat>, b: seq<nat>) {
    |a| == |b| && forall i :: 0 <= i < |a| ==> a[i] <= b[i]
  }

  /** Fewer credits and a larger bill end no earlier and leave no more behind. */
  lemma {:induction false} ChargeMonotone(a: seq<nat>, b: seq<nat>, p: nat, ca: nat, cb: nat)
    requires Below(a, b) && p < |a| && cb <= ca
    ensures Below(Charge(a, p, ca).0, Charge(b, p, cb).0)
    ensures Charge(b, p, cb).1 <= Charge(a, p, ca).1
    decreases |a| - p
  {
    var ua, ub := Min(ca, a[p]), Min(cb, b[p]);
    var a1, b1 := a[p := a[p] - ua], b[p := b[p] - ub];
    if p + 1 < |a| && ca - ua > 0 {
      if cb - ub > 0 {
        ChargeMonotone(a1, b1, p + 1, ca - ua, cb - ub);
      } else {
        ChargeDrainsEarliestFirst(a1, p + 1, ca - ua);
      }
    }
  }

  /** Looking from a later clock changes no slot that is still ahead. */
  lemma ElapseKeepsCredits(l: Ledger, now: nat, s: nat)
    requires l.Valid() && l.time <= now && Slot(now) <= s
    ensures l.Elapse(now).Valid()
    ensures l.Elapse(now).Credits(s) == l.Credits(s)
  {
    var e := l.Elapse(now);
    forall i | 0 <= i < |e.window| ensures e.window[i] <= l.maxCredits {
      assert e.window[i] == l.Credits(Slot(now) + i);
    }
  }

  /** Same clock and parameters, pointwise no more credits. */
  ghost predicate Busier(a: Ledger, b: Ledger) {
    a == b.(window := a.window) && Below(a.window, b.window)
  }

  lemma ServeMonotone(a: Ledger, b: Ledger, r: Request)
    requires a.Valid() && b.Valid() && Busier(a, b) && a.time <= r.now
    ensures Busier(a.Serve(r).0, b.Serve(r).0)
    ensures b.Serve(r).1 <= a.Serve(r).1
  {
    var ea, eb := a.Elapse(r.now), b.Elapse(r.now);
    forall i | 0 <= i < |ea.window| ensures ea.window[i] <= eb.window[i] {
      assert ea.window[i] == a.Credits(Slot(r.now) + i);
    }
    var first := Slot(r.start) - Slot(r.now);
    if r.now <= r.start && first < NR_CREDIT_ENTRIES {
      var credits := Units(r.length) + a.commandCredits;
      ChargeMonotone(ea.window, eb.window, first, credits, credits);
    }
  }

  lemma ServeValid(l: Ledger, r: Request)
    requires l.Valid() && l.time <= r.now
    ensures l.Serve(r).0.Valid() && l.Serve(r).0.time == r.now
    ensures l.Serve(r).0 == l.(time := r.now, window := l.Serve(r).0.window)
    ensures r.start <= l.Serve(r).1
  {
    hide Charge;
    var e := l.Elapse(r.now);
    ElapseKeepsCredits(l, r.now, Slot(r.now));
    var first := Slot(r.start) - Slot(r.now);
    if r.now <= r.start && first < NR_CREDIT_ENTRIES {
      ChargeOnlyTakes(e.window, first, Units(r.length) + l.commandCredits);
    }
  }

  lemma ChargeOnlyTakes(w: seq<nat>, p: nat, c: nat)
    requires p < |w|
    ensures Below(Charge(w, p, c).0, w)
  {
    ChargeDrainsEarliestFirst(w, p, c);
  }

  /** Serving a request only takes credits. */
  lemma ServeOnlyTakes(l: Ledger, r: Request, s: nat)
    requires l.Valid() && l.time <= r.now && Slot(r.now) <= s
    ensures l.Serve(r).0.time == r.now
    ensures l.Serve(r).0.Credits(s) <= l.Credits(s)
  {
    var e := l.Elapse(r.now);
    ElapseKeepsCredits(l, r.now, s);
    var first := Slot(r.start) - Slot(r.now);
    if r.now <= r.start && first < NR_CREDIT_ENTRIES {
      ChargeOnlyTakes(e.window, first, Units(r.length) + l.commandCredits);
    }
  }

  lemma {:induction false} FullSlotsSum(w: seq<nat>, lo: nat, hi: nat, m: nat)
    requires lo <= hi <= |w| && forall i :: lo <= i < hi ==> w[i] == m
    ensures Sum(w, lo, hi) == (hi - lo) * m
    decreases hi - lo
  {
    if lo < hi {
      FullSlotsSum(w, lo + 1, hi, m);
      assert (hi - lo) * m == (hi - lo - 1) * m + m;
    }
  }

  /** A request that finds every slot from its own on untouched waits for nobody: it takes its transfer time and no
      more. */
  lemma IdleChannelNoDelay(l: Ledger, r: Request)
    requires l.Valid() && l.time <= r.now <= r.start
    requires forall s :: Slot(r.start) <= s ==> l.Credits(s) == l.maxCredits
    requires Slot(r.start) - Slot(r.now) < NR_CREDIT_ENTRIES
    ensures l.Serve(r).1 == r.start + l.xferLat * Units(r.length)
  {
    var e, first, credits := l.Elapse(r.now), Slot(r.start) - Slot(r.now), Units(r.length) + l.commandCredits;
    var (w, last) := Charge(e.window, first, credits);
    assert forall i :: first <= i < |e.window| ==> e.window[i] == l.Credits(Slot(r.now) + i);
    ChargeDrainsEarliestFirst(e.window, first, credits);
    FullSlotsSum(e.window, first, last, l.maxCredits);
    FullSlotsPaid(last - first, l.maxCredits, credits);
    hide Charge;
  }

  lemma FullSlotsPaid(n: nat, m: nat, c: nat)
    requires 0 < m && n * m <= c
    ensures n <= c / m
  {
    DivMod(c, m);
    if c / m < n { MulMono(c / m + 1, n, m); }
  }

  /** What a request took from slot `s`. */
  ghost predicate TakesFrom(l: Ledger, r: Request, s: nat)
    requires l.Valid() && l.time <= r.now
  {
    ServeValid(l, r);
    Slot(r.now) <= s && l.Serve(r).0.Credits(s) < l.Credits(s)
  }

  /** What a request must pay: its units of data, and the fixed price of a command. */
  function Bill(l: Ledger, r: Request): nat { Units(r.length) + l.commandCredits }

  /** The answer to a request that has waited for slot `s`, in nanoseconds: its transfer time, and a slot's time for
      every slot from its own to `s` beyond those that an untouched channel would take, which the transfer time
      covers. */
  function AnswerAt(l: Ledger, r: Request, s: int): int
    requires 0 < l.maxCredits
  {
    r.start + l.xferLat * Units(r.length) + UNIT_TIME_INTERVAL * (s - Slot(r.start) - Bill(l, r) / l.maxCredits)
  }

  /** What the window offers a request from its own slot on. */
  function Offered(l: Ledger, r: Request): nat
    requires l.time <= r.now && Slot(r.now) <= Slot(r.start) < Slot(r.now) + |l.window|
  {
    var w := l.Elapse(r.now).window;
    Sum(w, Slot(r.start) - Slot(r.now), |w|)
  }

  /** The law of the busy channel.  Whoever takes credits from a slot waits for it.  If the window can pay the bill,
      the last slot that pays gives the answer exactly; if it cannot, its last slot does, paying or not.  A request
      from the past or beyond the window takes nothing and is answered at its own start. */
  lemma BusyChannel(l: Ledger, r: Request, s: nat)
    requires l.Valid() && l.time <= r.now
    ensures r.start < r.now || Slot(r.start) - Slot(r.now) >= NR_CREDIT_ENTRIES ==>
      l.Serve(r).1 == r.start && !TakesFrom(l, r, s)
    ensures r.now <= r.start && Slot(r.start) - Slot(r.now) < NR_CREDIT_ENTRIES ==>
      && 0 < l.maxCredits && Slot(r.now) <= Slot(r.start) && |l.window| == NR_CREDIT_ENTRIES
      && r.start + l.xferLat * Units(r.length) <= l.Serve(r).1
      && (TakesFrom(l, r, s) ==> Slot(r.start) <= s && AnswerAt(l, r, s) <= l.Serve(r).1)
      && (TakesFrom(l, r, s) && Bill(l, r) <= Offered(l, r) && (forall t :: s < t ==> !TakesFrom(l, r, t)) ==>
            l.Serve(r).1 == Later(r.start + l.xferLat * Units(r.length), AnswerAt(l, r, s)))
      && (Bill(l, r) > Offered(l, r) ==>
            l.Serve(r).1 == Later(r.start + l.xferLat * Units(r.length),
                                  AnswerAt(l, r, Slot(r.now) + NR_CREDIT_ENTRIES - 1)))
  {
    ServeValid(l, r);
    ElapseKeepsCredits(l, r.now, Slot(r.now));
    var first := Slot(r.start) - Slot(r.now);
    if r.now <= r.start && first < NR_CREDIT_ENTRIES {
      ServeCases(l, r);
      ChargedSlots(l, r, s);
    }
    hide Charge, Ledger.Serve;
  }

  function Later(a: int, b: int): int { if a <= b then b else a }

  lemma ChargedSlots(l: Ledger, r: Request, s: nat)
    requires l.Valid() && l.time <= r.now <= r.start && Slot(r.start) - Slot(r.now) < NR_CREDIT_ENTRIES
    ensures Slot(r.now) <= Slot(r.start) && |l.Elapse(r.now).window| == NR_CREDIT_ENTRIES
    ensures var e, first := l.Elapse(r.now), Slot(r.start) - Slot(r.now);
      var (w, last) := Charge(e.window, first, Bill(l, r));
      && (TakesFrom(l, r, s) ==> Slot(r.now) + first <= s <= Slot(r.now) + last)
      && (Bill(l, r) > Offered(l, r) ==> last == NR_CREDIT_ENTRIES - 1)
      && (Bill(l, r) <= Offered(l, r) && TakesFrom(l, r, s) ==> TakesFrom(l, r, Slot(r.now) + last))
  {
    hide Charge, Ledger.Serve, Ledger.Elapse, Ledger.Valid, TakesFrom, Sum, Slot;
    TakesIs(l, r, s);
    var e, first, c := l.Elapse(r.now), Slot(r.start) - Slot(r.now), Bill(l, r);
    SlotMonotone(r.now, r.start);
    var (w, last) := Charge(e.window, first, c);
    ChargeDrainsEarliestFirst(e.window, first, c);
    SumSplit(e.window, first, last, |e.window|);
    SumSplit(e.window, last, last + 1, |e.window|);
    TakesIs(l, r, Slot(r.now) + last);
  }

  lemma SlotMonotone(a: nat, b: nat)
    requires a <= b
    ensures Slot(a) <= Slot(b)
  {
  }

  lemma {:induction false} SumSplit(w: seq<nat>, lo: nat, mid: nat, hi: nat)
    requires lo <= mid <= hi <= |w|
    ensures Sum(w, lo, hi) == Sum(w, lo, mid) + Sum(w, mid, hi)
    ensures mid == lo + 1 ==> Sum(w, lo, mid) == w[lo]
    decreases mid - lo
  {
    if lo < mid { SumSplit(w, lo + 1, mid, hi); }
  }

  /** What a request takes, in terms of the window at its clock. */
  lemma TakesIs(l: Ledger, r: Request, s: nat)
    requires l.Valid() && l.time <= r.now <= r.start && Slot(r.start) - Slot(r.now) < NR_CREDIT_ENTRIES
    ensures var e, first, i := l.Elapse(r.now), Slot(r.start) - Slot(r.now), s - Slot(r.now);
      && |e.window| == NR_CREDIT_ENTRIES
      && (TakesFrom(l, r, s) <==> 0 <= i < |e.window| && Charge(e.window, first, Bill(l, r)).0[i] < e.window[i])
  {
    ServeCases(l, r);
    ServeValid(l, r);
    if Slot(r.now) <= s { ElapseKeepsCredits(l, r.now, s); }
    hide Charge, Ledger.Serve, Ledger.Valid;
  }

  // ---------- whole traces ----------

  /** The clock does not go back. */
  ghost predicate InOrder(t: nat, rs: seq<Request>)
    decreases |rs|
  {
    rs == [] || (t <= rs[0].now && InOrder(rs[0].now, rs[1..]))
  }

  ghost function Run(l: Ledger, rs: seq<Request>): (r: (Ledger, seq<nat>))
    requires l.Valid() && InOrder(l.time, rs)
    ensures r.0.Valid() && |r.1| == |rs|
    decreases |rs|
  {
    if rs == [] then (l, []) else
    ServeValid(l, rs[0]);
    var (l1, t) := l.Serve(rs[0]);
    var (l2, ts) := Run(l1, rs[1..]);
    (l2, [t] + ts)
  }

  /** Credits charged to absolute slot `s` over a whole trace. */
  ghost function Charged(l: Ledger, rs: seq<Request>, s: nat): int
    requires l.Valid() && InOrder(l.time, rs)
    decreases |rs|
  {
    if rs == [] then 0 else
    ServeValid(l, rs[0]);
    var l1 := l.Serve(rs[0]).0;
    (if Slot(rs[0].now) <= s then l.Credits(s) - l1.Credits(s) else 0) + Charged(l1, rs[1..], s)
  }

  /** Bandwidth safety: no slot is ever charged more than it offers, and what a slot still
      offers at the end is exactly what it offered minus what was charged to it. */
  lemma {:induction false} BandwidthSafety(l: Ledger, rs: seq<Request>, s: nat)
    requires l.Valid() && InOrder(l.time, rs)
    ensures Slot(l.time) <= s ==> 0 <= Charged(l, rs, s) <= l.Credits(s) <= l.maxCredits
    ensures s < Slot(l.time) ==> Charged(l, rs, s) == 0
    ensures Slot(l.time) <= Slot(Run(l, rs).0.time)
    ensures Slot(Run(l, rs).0.time) <= s ==> Charged(l, rs, s) + Run(l, rs).0.Credits(s) == l.Credits(s)
    decreases |rs|
  {
    if rs != [] {
      ServeValid(l, rs[0]);
      if Slot(rs[0].now) <= s { ServeOnlyTakes(l, rs[0], s); }
      var l1 := l.Serve(rs[0]).0;
      BandwidthSafety(l1, rs[1..], s);
    }
  }

  /** A busier channel answers no request of the trace earlier, and stays busier. */
  lemma {:induction false} LoadNeverHelps(a: Ledger, b: Ledger, rs: seq<Request>)
    requires a.Valid() && b.Valid() && Busier(a, b) && InOrder(a.time, rs)
    ensures Busier(Run(a, rs).0, Run(b, rs).0)
    ensures forall i :: 0 <= i < |rs| ==> Run(b, rs).1[i] <= Run(a, rs).1[i]
    decreases |rs|
  {
    if rs != [] {
      ServeValid(a, rs[0]);
      ServeValid(b, rs[0]);
      ServeMonotone(a, b, rs[0]);
      LoadNeverHelps(a.Serve(rs[0]).0, b.Serve(rs[0]).0, rs[1..]);
    }
  }

  // ---------- the circular buffer ----------

  ghost function Rotate(a: seq<nat>, head: nat): (w: seq<nat>)
    requires head <= |a|
    ensures |w| == |a|
  {
    a[head..] + a[..head]
  }

  /** Writing cell `(head + i) % |a|` of the buffer writes slot `i` of the window. */
  lemma RotateUpdate(a: seq<nat>, head: nat, i: nat, v: nat)
    requires head < |a| && i < |a|
    ensures Rotate(a, head)[i] == a[(head + i) % |a|]
    ensures Rotate(a[(head + i) % |a| := v], head) == Rotate(a, head)[i := v]
  {
    var n := |a|;
    var p := if head + i < n then head + i else head + i - n;
    ModWrap(head + i, n);
    assert Rotate(a, head)[i] == a[p];
    var b := a[p := v];
    forall k | 0 <= k < n ensures Rotate(b, head)[k] == Rotate(a, head)[i := v][k] {
    }
  }

  /** Buffer `a` with this head and used length stands for ledger `l`: slots past the used part
      are untouched, which is what makes it enough to reset the used part. */
  ghost predicate Represents(a: seq<nat>, head: nat, validLen: nat, l: Ledger) {
    && |a| == NR_CREDIT_ENTRIES && head < NR_CREDIT_ENTRIES && validLen <= NR_CREDIT_ENTRIES
    && l.window == Rotate(a, head) && l.Valid()
    && UnusedFrom(l, validLen)
  }

  ghost predicate Parameters(l: Ledger, time: nat, maxCredits: nat, commandCredits: nat, xferLat: nat) {
    l == Ledger(time, l.window, maxCredits, commandCredits, xferLat)
  }

  ghost predicate UnusedFrom(l: Ledger, used: nat) {
    forall i :: used <= i < |l.window| ==> l.window[i] == l.maxCredits
  }

  lemma Wrapped(a: seq<nat>, mid: seq<nat>, head: nat, r: nat, rest: seq<nat>)
    requires r <= head <= |a| && mid == a[..head] + rest
    ensures mid[..0] == [] && mid[r..] == a[r..head] + rest
  {
  }

  /** Resetting the `k` cells from `head` on and moving the head past them shifts the window. */
  lemma ResetShifts(a: seq<nat>, b: seq<nat>, head: nat, k: nat, m: nat)
    requires head < |a| == |b| && k <= |a|
    requires head + k < |a| ==> b == a[..head] + seq(k, _ => m) + a[head + k..]
    requires head + k >= |a| ==>
      b == seq(k - (|a| - head), _ => m) + a[k - (|a| - head)..head] + seq(|a| - head, _ => m)
    ensures Rotate(b, (head + k) % |a|) == Rotate(a, head)[k..] + seq(k, _ => m)
  {
    ModWrap(head + k, |a|);
  }

  /** Elapsing by any number of slots is a shift by that number clamped to the used part. */
  lemma ElapseIsClampedShift(l: Ledger, now: nat, used: nat)
    requires l.Valid() && l.time <= now && used <= |l.window|
    requires UnusedFrom(l, used)
    ensures var k := Min(Slot(now) - Slot(l.time), used);
      l.Elapse(now).window == l.window[k..] + seq(k, _ => l.maxCredits)
  {
    var k := Min(Slot(now) - Slot(l.time), used);
    var e := l.Elapse(now).window;
    forall i | 0 <= i < |e| ensures e[i] == (l.window[k..] + seq(k, _ => l.maxCredits))[i] {
      assert e[i] == l.Credits(Slot(now) + i);
    }
  }

  /** The head advance as one step on values. */
  lemma AdvanceRepresents(a: seq<nat>, b: seq<nat>, head: nat, validLen: nat, l: Ledger, now: nat)
    requires Represents(a, head, validLen, l) && l.time <= now && |b| == |a|
    requires var k := Min(Slot(now) - Slot(l.time), validLen);
      && (head + k < |a| ==> b == a[..head] + seq(k, _ => l.maxCredits) + a[head + k..])
      && (head + k >= |a| ==>
           b == seq(k - (|a| - head), _ => l.maxCredits) + a[k - (|a| - head)..head]
           + seq(|a| - head, _ => l.maxCredits))
    ensures var k := Min(Slot(now) - Slot(l.time), validLen);
      && Represents(b, (head + k) % NR_CREDIT_ENTRIES, validLen - k, l.Elapse(now))
      && Parameters(l.Elapse(now), now, l.maxCredits, l.commandCredits, l.xferLat)
  {
    hide Rotate;
    var k := Min(Slot(now) - Slot(l.time), validLen);
    ResetShifts(a, b, head, k, l.maxCredits);
    ElapseIsClampedShift(l, now, validLen);
    ElapseKeepsCredits(l, now, Slot(now));
  }

  /** The charge as one step on values: the used length grows to cover the last slot paid. */
  lemma ChargeRepresents(a: seq<nat>, b: seq<nat>, head: nat, validLen: nat, l: Ledger, first: nat, c: nat)
    requires Represents(a, head, validLen, l) && |b| == |a| && first < NR_CREDIT_ENTRIES
    requires Rotate(b, head) == Charge(l.window, first, c).0
    ensures var last := Charge(l.window, first, c).1;
      && Represents(b, head, if last + 1 > validLen then last + 1 else validLen,
           l.(window := Charge(l.window, first, c).0))
      && UsedLength(head, (head + last) % NR_CREDIT_ENTRIES) == last + 1
  {
    ChargeDrainsEarliestFirst(l.window, first, c);
    ModWrap(head + Charge(l.window, first, c).1, NR_CREDIT_ENTRIES);
  }

  function UsedLength(head: nat, pos: nat): nat
    requires head < NR_CREDIT_ENTRIES && pos < NR_CREDIT_ENTRIES
  {
    if pos >= head then pos - head + 1 else NR_CREDIT_ENTRIES - (head - pos - 1)
  }

  /** A request outside the window changes no credits; any other is charged from its own slot on. */
  lemma ServeCases(l: Ledger, r: Request)
    requires l.Valid() && l.time <= r.now
    ensures var e, first := l.Elapse(r.now), Slot(r.start) - Slot(r.now);
      && |e.window| == NR_CREDIT_ENTRIES
      && (r.start < r.now || first >= NR_CREDIT_ENTRIES ==> l.Serve(r) == (e, r.start))
      && (r.now <= r.start && first < NR_CREDIT_ENTRIES ==>
            var credits := Units(r.length) + l.commandCredits;
            var (w, last) := Charge(e.window, first, credits);
            var (waited, expected) := (last - first, credits / l.maxCredits);
            l.Serve(r) == (e.(window := w), r.start + l.xferLat * Units(r.length)
                           + (if waited > expected then waited - expected else 0) * UNIT_TIME_INTERVAL))
  {
    hide Charge;
  }

  lemma U32Exact(x: nat)
    requires x < TWO32
    ensures U32(x) == x
  {
  }

  /** The next cell around the ring is that of the next slot, and the head comes up again behind the last one. */
  lemma NextCell(head: nat, i: nat, pos: nat)
    requires head < NR_CREDIT_ENTRIES && i < NR_CREDIT_ENTRIES && pos == (head + i) % NR_CREDIT_ENTRIES
    ensures (pos + 1) % NR_CREDIT_ENTRIES == (head + (i + 1)) % NR_CREDIT_ENTRIES
    ensures (pos + 1) % NR_CREDIT_ENTRIES == head <==> i + 1 == NR_CREDIT_ENTRIES
  {
  }

  class CreditRing {
    var curTime: nat
    var head: nat
    var validLen: nat
    const maxCredits: nat
    const commandCredits: nat
    const xferLat: nat
    const avail: array<nat>

    /** The ledger this ring stands for. */
    ghost var ledger: Ledger

    ghost predicate Valid()
      reads this, avail
    {
      && 1 <= maxCredits
      && Represents(avail[..], head, validLen, ledger)
      && Parameters(ledger, curTime, maxCredits, commandCredits, xferLat)
    }

    /** chmodel_init for a bandwidth in MB/s; `firmwareLat` is what ssd_init_ch then adds to the transfer latency. */
    constructor (bandwidth: nat, firmwareLat: nat)
      requires 1 <= MaxCredits(bandwidth) <= 255
      ensures Valid() && fresh(avail) && xferLat == TxTime(bandwidth) + firmwareLat
      ensures ledger == Ledger(0, seq(NR_CREDIT_ENTRIES, _ => MaxCredits(bandwidth)), MaxCredits(bandwidth), 0, xferLat)
    {
      var credits := MaxCredits(bandwidth);
      curTime, head, validLen := 0, 0, 0;
      maxCredits, commandCredits, xferLat := credits, 0, TxTime(bandwidth) + firmwareLat;
      avail := new nat[NR_CREDIT_ENTRIES](_ => credits);
      ledger := Ledger(0, seq(NR_CREDIT_ENTRIES, _ => credits), credits, 0, TxTime(bandwidth) + firmwareLat);
    }

    /** memset of `len` cells from `from` on. */
    method Reset(from: nat, len: nat)
      requires from + len <= avail.Length
      modifies avail
      ensures avail[..] == old(avail[..from]) + seq(len, _ => maxCredits) + old(avail[from + len..])
    {
      var i := from;
      while i < from + len
        invariant from <= i <= from + len
        invariant avail[..from] == old(avail[..from])
        invariant forall k :: from <= k < i ==> avail[k] == maxCredits
        invariant avail[from + len..] == old(avail[from + len..])
      {
        avail[i] := maxCredits;
        i := i + 1;
      }
      assert avail[from..from + len] == seq(len, _ => maxCredits);
      assert avail[..] == avail[..from] + avail[from..from + len] + avail[from + len..];
    }

    /** The reset of the `k` cells from the head on, in two pieces where it wraps around. */
    method ResetFromHead(k: nat)
      requires head < avail.Length && k <= avail.Length
      modifies avail
      ensures head + k < avail.Length ==>
        avail[..] == old(avail[..head]) + seq(k, _ => maxCredits) + old(avail[head + k..])
      ensures head + k >= avail.Length ==>
        avail[..] == seq(k - (avail.Length - head), _ => maxCredits) + old(avail[k - (avail.Length - head)..head])
                     + seq(avail.Length - head, _ => maxCredits)
    {
      ghost var n := avail.Length;
      ghost var a := avail[..];
      if head + k >= avail.Length {
        Reset(head, avail.Length - head);
        ghost var mid, rest := avail[..], seq(n - head, _ => maxCredits);
        assert mid == a[..head] + rest;
        Reset(0, k - (avail.Length - head));
        Wrapped(a, mid, head, k - (n - head), rest);
      } else {
        Reset(head, k);
      }
    }

    /** Move the head to the current time; the clamp to validLen makes the cost independent of
        how long the channel was idle. */
    method AdvanceHead(now: nat)
      requires Valid() && curTime <= now && Slot(now) - Slot(curTime) < TWO32
      modifies this, avail
      ensures Valid() && curTime == now
      ensures ledger == old(ledger).Elapse(now)
    {
      hide Rotate, Ledger.Elapse, Ledger.Valid, UnusedFrom, U32;
      ghost var a := avail[..];
      assert Slot(curTime) <= Slot(now);
      U32Exact(Slot(now) - Slot(curTime));
      hide Slot;
      var offs := U32(Slot(now) - Slot(curTime));
      offs := if offs < validLen then offs else validLen;
      ResetFromHead(offs);
      AdvanceRepresents(a, avail[..], head, validLen, ledger, now);
      hide Represents;
      head := (head + offs) % NR_CREDIT_ENTRIES;
      curTime := now;
      validLen := validLen - offs;
      ledger := ledger.Elapse(now);
    }

    /** Take what cell `pos`, slot `i` of the window, can give towards `remaining`. */
    method Pay(pos: nat, ghost i: nat, remaining: nat) returns (consumed: nat)
      requires head < avail.Length && i < avail.Length && pos == (head + i) % avail.Length
      modifies avail
      ensures var w := old(Rotate(avail[..], head));
        consumed == Min(remaining, w[i]) && Rotate(avail[..], head) == w[i := w[i] - consumed]
    {
      ghost var a := avail[..];
      consumed := if remaining <= avail[pos] then remaining else avail[pos];
      RotateUpdate(a, head, i, avail[pos] - consumed);
      avail[pos] := avail[pos] - consumed;
      assert avail[..] == a[pos := a[pos] - consumed];
    }

    /** The consuming loop: pay from slot `first` on, never wrapping past the head. */
    method Drain(first: nat, credits: nat) returns (pos: nat, delay: nat)
      requires avail.Length == NR_CREDIT_ENTRIES && head < NR_CREDIT_ENTRIES && first < NR_CREDIT_ENTRIES
      modifies avail
      ensures var (w, last) := Charge(old(Rotate(avail[..], head)), first, credits);
        Rotate(avail[..], head) == w && pos == (head + last) % NR_CREDIT_ENTRIES && delay == last - first
    {
      hide Rotate, Charge;
      pos := (head + first) % NR_CREDIT_ENTRIES;
      delay := 0;
      var remaining := credits;
      while true
        invariant first + delay < NR_CREDIT_ENTRIES
        invariant pos == (head + (first + delay)) % NR_CREDIT_ENTRIES
        invariant Charge(Rotate(avail[..], head), first + delay, remaining)
               == Charge(old(Rotate(avail[..], head)), first, credits)
        decreases NR_CREDIT_ENTRIES - delay
      {
        ChargeUnfold(Rotate(avail[..], head), first + delay, remaining);
        var consumed := Pay(pos, first + delay, remaining);
        remaining := remaining - consumed;
        if remaining == 0 { break; }
        NextCell(head, first + delay, pos);
        var nextPos := (pos + 1) % NR_CREDIT_ENTRIES;
        if nextPos == head { break; }
        delay := delay + 1;
        pos := nextPos;
      }
    }

    /** chmodel_request.  The bounds say where the 32-bit arithmetic of the source is exact. */
    method Request(r: Request) returns (done: nat)
      requires Valid() && curTime <= r.now
      requires Slot(r.now) - Slot(curTime) < TWO32 && Slot(r.start) < Slot(r.now) + TWO32
      requires Units(r.length) + commandCredits < TWO32 && xferLat * Units(r.length) < TWO32
      modifies this, avail
      ensures Valid()
      ensures (ledger, done) == old(ledger).Serve(r)
      ensures curTime == r.now && r.start <= done
    {
      hide Rotate, Charge, Ledger.Elapse, Ledger.Valid, Ledger.Serve, U32;
      ServeValid(ledger, r);
      ServeCases(ledger, r);
      U32Exact(Units(r.length));
      U32Exact(Units(r.length) + commandCredits);
      U32Exact(xferLat * Units(r.length));
      assert Slot(r.now) <= Slot(r.start) || r.start < r.now;
      if r.now <= r.start { U32Exact(Slot(r.start) - Slot(r.now)); }
      AdvanceHead(r.now);
      if r.start < r.now {
        return r.start;
      }
      var offs := U32(Slot(r.start) - Slot(r.now));
      if offs >= NR_CREDIT_ENTRIES {
        return r.start;
      }
      var units := U32(Units(r.length));
      var credits := U32(units + commandCredits);
      var expected := credits / maxCredits;
      var delay := Account(offs, credits);
      delay := if delay > expected then delay - expected else 0;
      done := r.start + U32(xferLat * units) + delay * UNIT_TIME_INTERVAL;
    }

    /** Drain, then extend the used part over the last cell paid from. */
    method Account(first: nat, credits: nat) returns (delay: nat)
      requires Valid() && first < NR_CREDIT_ENTRIES
      modifies this, avail
      ensures Valid() && curTime == old(curTime)
      ensures var (w, last) := Charge(old(ledger).window, first, credits);
        ledger == old(ledger).(window := w) && delay == last - first
    {
      hide Rotate, Charge, Ledger.Valid;
      ghost var a := avail[..];
      var pos;
      pos, delay := Drain(first, credits);
      ChargeRepresents(a, avail[..], head, validLen, ledger, first, credits);
      var len := UsedLength(head, pos);
      if len > validLen { validLen := len; }
      ledger := ledger.(window := Charge(ledger.window, first, credits).0);
    }
  }
}
