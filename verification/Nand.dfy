/** The NAND timeline of ssd.c: when each LUN is next available, on top of the channel model, and
    the flush time of zns_ftl.c. */
module Nand {
  import opened Arith
  import opened Channel

  /** Latencies in nanoseconds, the largest transfer in bytes. */
  datatype Params = Params(readLat: nat, progLat: nat, eraseLat: nat, maxXfer: nat)

  datatype Kind = Read | Program | Erase | Nop
  /** `clocks` are the readings of the wall clock that the channel transfers of the command make, in order, and
      `pcieClocks` those of its PCIe transfers, which only a read with `interleave` makes. */
  datatype Cmd = Cmd(kind: Kind, ch: nat, lun: nat, xferSize: nat, stime: nat, ioclock: nat, clocks: seq<nat>,
                     interleave: bool, pcieClocks: seq<nat>)

  /** A program or erase that occupied a LUN; history. */
  datatype Busy = Busy(ch: nat, lun: nat, start: nat, end: nat)

  /** `avail[ch][lun]` is next_lun_avail_time. */
  datatype State = State(avail: seq<seq<nat>>, chans: seq<Ledger>, pcie: Ledger, log: seq<Busy>)

  /** A read under way: its channel, the PCIe link, the end of its last channel transfer and its completion time so
      far. */
  datatype Xfer = Xfer(chan: Ledger, pcie: Ledger, end: nat, done: nat)

  function Max(a: nat, b: nat): nat { if a < b then b else a }

  /** Clock readings that do not go back, from time `t` on. */
  ghost predicate ClocksFrom(t: nat, s: seq<nat>) {
    (forall i :: 0 <= i < |s| ==> t <= s[i]) && (forall i, j :: 0 <= i < j < |s| ==> s[i] <= s[j])
  }

  /** How many transfers a read of `n` bytes takes. */
  function Transfers(pr: Params, n: nat): nat
    requires 0 < pr.maxXfer
  {
    if n == 0 then 0 else 1 + Transfers(pr, n - Min(n, pr.maxXfer))
  }

  /** What the caller owes: an existing LUN, a read that transfers something, and clocks that do not go back. */
  ghost predicate CmdOk(pr: Params, s: State, c: Cmd) {
    && 0 < pr.maxXfer && c.ch < |s.avail| == |s.chans| && c.lun < |s.avail[c.ch]|
    && ClocksFrom(s.chans[c.ch].time, c.clocks) && ClocksFrom(s.pcie.time, c.pcieClocks)
    && (c.kind.Read? ==> 0 < c.xferSize && Transfers(pr, c.xferSize) <= |c.clocks|)
    && (c.kind.Read? && c.interleave ==> Transfers(pr, c.xferSize) <= |c.pcieClocks|)
    && (c.kind.Program? ==> 1 <= |c.clocks|)
  }

  ghost predicate Wf(s: State) {
    |s.chans| == |s.avail| && s.pcie.Valid() && forall i :: 0 <= i < |s.chans| ==> s.chans[i].Valid()
  }

  ghost predicate XferOk(pr: Params, x: Xfer, n: nat, clocks: seq<nat>, interleave: bool, pcieClocks: seq<nat>) {
    && 0 < pr.maxXfer && x.chan.Valid() && x.pcie.Valid() && x.end <= x.done
    && ClocksFrom(x.chan.time, clocks) && ClocksFrom(x.pcie.time, pcieClocks)
    && Transfers(pr, n) <= |clocks| && (interleave ==> Transfers(pr, n) <= |pcieClocks|)
  }

  /** One transfer of `size` bytes: over the channel, and then over PCIe, which the channel does not wait for. */
  ghost function Piece(x: Xfer, size: nat, clock: nat, interleave: bool, pcieClock: nat): (y: Xfer)
    requires x.chan.Valid() && x.pcie.Valid() && x.chan.time <= clock && (interleave ==> x.pcie.time <= pcieClock)
    ensures y.chan.Valid() && y.pcie.Valid() && y.chan.time == clock && x.end <= y.end <= y.done
    ensures y.pcie.time == if interleave then pcieClock else x.pcie.time
  {
    ServeValid(x.chan, Request(clock, x.end, size));
    var (l, end) := x.chan.Serve(Request(clock, x.end, size));
    if interleave then
      ServeValid(x.pcie, Request(pcieClock, end, size));
      var (p, done) := x.pcie.Serve(Request(pcieClock, end, size));
      Xfer(l, p, end, done)
    else
      Xfer(l, x.pcie, end, end)
  }

  /** The transfer loop of a read. */
  ghost function Move(pr: Params, x: Xfer, n: nat, clocks: seq<nat>, interleave: bool, pcieClocks: seq<nat>): (y: Xfer)
    requires XferOk(pr, x, n, clocks, interleave, pcieClocks)
    ensures y.chan.Valid() && y.pcie.Valid() && x.end <= y.end <= y.done
    decreases n
  {
    if n == 0 then x else
    var size := Min(n, pr.maxXfer);
    var y := Piece(x, size, clocks[0], interleave, if interleave then pcieClocks[0] else 0);
    Move(pr, y, n - size, clocks[1..], interleave, if interleave then pcieClocks[1..] else pcieClocks)
  }

  /** One turn of the loop. */
  lemma MoveStep(pr: Params, x: Xfer, n: nat, clocks: seq<nat>, interleave: bool, pcieClocks: seq<nat>)
    requires XferOk(pr, x, n, clocks, interleave, pcieClocks) && 0 < n
    ensures 0 < pr.maxXfer && clocks != [] && (interleave ==> pcieClocks != [])
    ensures x.chan.Valid() && x.pcie.Valid() && x.chan.time <= clocks[0]
    ensures interleave ==> x.pcie.time <= pcieClocks[0]
    ensures var size, pcieClock := Min(n, pr.maxXfer), if interleave then pcieClocks[0] else 0;
      var y := Piece(x, size, clocks[0], interleave, pcieClock);
      var rest := if interleave then pcieClocks[1..] else pcieClocks;
      && XferOk(pr, y, n - size, clocks[1..], interleave, rest)
      && Move(pr, y, n - size, clocks[1..], interleave, rest) == Move(pr, x, n, clocks, interleave, pcieClocks)
  {
    hide Ledger.Serve, Ledger.Valid;
  }

  lemma MoveNothing(pr: Params, x: Xfer, n: nat, clocks: seq<nat>, interleave: bool, pcieClocks: seq<nat>)
    requires XferOk(pr, x, n, clocks, interleave, pcieClocks)
    ensures 0 < pr.maxXfer && (n == 0 ==> Move(pr, x, n, clocks, interleave, pcieClocks) == x)
  {
  }

  /** ssd_advance_nand, with the completion time it returns. */
  ghost function Advance(pr: Params, s: State, c: Cmd): (r: (State, nat))
    requires Wf(s) && CmdOk(pr, s, c)
    ensures Wf(r.0) && |r.0.avail| == |s.avail| && |r.0.avail[c.ch]| == |s.avail[c.ch]|
  {
    var start := Max(s.avail[c.ch][c.lun], if c.stime == 0 then c.ioclock else c.stime);
    match c.kind
    case Read =>
      var x := Move(pr, Xfer(s.chans[c.ch], s.pcie, start + pr.readLat, start + pr.readLat), c.xferSize, c.clocks,
                    c.interleave, c.pcieClocks);
      (SetAvail(s, c.ch, c.lun, x.end).(chans := s.chans[c.ch := x.chan], pcie := x.pcie), x.done)
    case Program =>
      var q := Request(c.clocks[0], start, c.xferSize);
      ServeValid(s.chans[c.ch], q);
      var (l, ready) := s.chans[c.ch].Serve(q);
      var end := ready + pr.progLat;
      (SetAvail(s, c.ch, c.lun, end).(chans := s.chans[c.ch := l], log := s.log + [Busy(c.ch, c.lun, ready, end)]), end)
    case Erase =>
      var end := start + pr.eraseLat;
      (SetAvail(s, c.ch, c.lun, end).(log := s.log + [Busy(c.ch, c.lun, start, end)]), end)
    case Nop => (SetAvail(s, c.ch, c.lun, start), start)
  }

  function SetAvail(s: State, ch: nat, lun: nat, t: nat): State
    requires ch < |s.avail| && lun < |s.avail[ch]|
  {
    var row: seq<nat> := s.avail[ch][lun := t];
    s.(avail := s.avail[ch := row])
  }

  // ---------- the invariant ----------

  /** Every logged interval ends before its LUN is available again, and before any later one of that LUN starts. */
  ghost predicate Timeline(s: State) {
    && Wf(s)
    && (forall i :: 0 <= i < |s.log| ==> Released(s, s.log[i]))
    && (forall i, j :: 0 <= i < j < |s.log| && SameLun(s.log[i], s.log[j]) ==> s.log[i].end <= s.log[j].start)
  }

  predicate SameLun(a: Busy, b: Busy) { a.ch == b.ch && a.lun == b.lun }

  ghost predicate Released(s: State, b: Busy) {
    b.ch < |s.avail| && b.lun < |s.avail[b.ch]| && b.start <= b.end <= s.avail[b.ch][b.lun]
  }

  /** Availability times never go back, and the new interval starts no earlier than the LUN was available. */
  lemma AdvanceMonotone(pr: Params, s: State, c: Cmd)
    requires Wf(s) && CmdOk(pr, s, c)
    ensures var s' := Advance(pr, s, c).0;
      && (forall ch, lun :: 0 <= ch < |s.avail| && 0 <= lun < |s.avail[ch]| ==>
           |s'.avail[ch]| == |s.avail[ch]| && s.avail[ch][lun] <= s'.avail[ch][lun])
      && (s'.log == s.log || (s'.log == s.log + [s'.log[|s.log|]] && var b := s'.log[|s.log|];
            b.ch == c.ch && b.lun == c.lun && s.avail[c.ch][c.lun] <= b.start <= b.end == s'.avail[c.ch][c.lun]))
  {
    if c.kind.Program? {
      var start := Max(s.avail[c.ch][c.lun], if c.stime == 0 then c.ioclock else c.stime);
      ServeValid(s.chans[c.ch], Request(c.clocks[0], start, c.xferSize));
    }
    hide Ledger.Serve, Ledger.Valid, Move;
  }

  // ---------- how long commands take ----------

  /** One piece of a read: the channel serves it from `x.end` on, and then, where asked, the PCIe link from `y.end`
      on. */
  ghost predicate Serves(x: Xfer, y: Xfer, size: nat, clock: nat, interleave: bool, pcieClock: nat) {
    && x.chan.Valid() && x.chan.time <= clock && (y.chan, y.end) == x.chan.Serve(Request(clock, x.end, size))
    && (interleave ==>
          && x.pcie.Valid() && x.pcie.time <= pcieClock
          && (y.pcie, y.done) == x.pcie.Serve(Request(pcieClock, y.end, size)))
    && (!interleave ==> y.pcie == x.pcie && y.done == y.end)
  }

  function Total(sizes: seq<nat>): nat {
    if sizes == [] then 0 else sizes[0] + Total(sizes[1..])
  }

  /** A read in pieces: all but the last of the largest size, each started when the channel is done with the one
      before. */
  ghost predicate IsRead(pr: Params, xs: seq<Xfer>, sizes: seq<nat>, clocks: seq<nat>, interleave: bool,
                         pcieClocks: seq<nat>) {
    && |xs| == |sizes| + 1 && |sizes| <= |clocks| && (interleave ==> |sizes| <= |pcieClocks|)
    && (forall i :: 0 <= i < |sizes| ==> 0 < sizes[i] <= pr.maxXfer && (i + 1 < |sizes| ==> sizes[i] == pr.maxXfer))
    && (forall i :: 0 <= i < |sizes| ==>
          Serves(xs[i], xs[i + 1], sizes[i], clocks[i], interleave, if interleave then pcieClocks[i] else 0))
  }

  lemma {:induction false} MoveIsRead(pr: Params, x: Xfer, n: nat, clocks: seq<nat>, interleave: bool,
                                    pcieClocks: seq<nat>)
    returns (xs: seq<Xfer>, sizes: seq<nat>)
    requires XferOk(pr, x, n, clocks, interleave, pcieClocks)
    ensures IsRead(pr, xs, sizes, clocks, interleave, pcieClocks) && Total(sizes) == n && xs[0] == x
    ensures xs[|sizes|] == Move(pr, x, n, clocks, interleave, pcieClocks)
    decreases n
  {
    hide Ledger.Serve, Ledger.Valid, Move, XferOk, Transfers;
    MoveNothing(pr, x, n, clocks, interleave, pcieClocks);
    if n == 0 {
      xs, sizes := [x], [];
    } else {
      MoveStep(pr, x, n, clocks, interleave, pcieClocks);
      var size, pc := Min(n, pr.maxXfer), if interleave then pcieClocks[0] else 0;
      var y, rest := Piece(x, size, clocks[0], interleave, pc), if interleave then pcieClocks[1..] else pcieClocks;
      assert Serves(x, y, size, clocks[0], interleave, pc);
      var ys, more := MoveIsRead(pr, y, n - size, clocks[1..], interleave, rest);
      xs, sizes := [x] + ys, [size] + more;
      Prepend(pr, x, ys, size, more, n, clocks, interleave, pcieClocks);
    }
  }

  lemma Prepend(pr: Params, x: Xfer, ys: seq<Xfer>, size: nat, more: seq<nat>, n: nat, clocks: seq<nat>,
                interleave: bool, pcieClocks: seq<nat>)
    requires clocks != [] && (interleave ==> pcieClocks != []) && 0 < pr.maxXfer && 0 < n && size == Min(n, pr.maxXfer)
    requires IsRead(pr, ys, more, clocks[1..], interleave, if interleave then pcieClocks[1..] else pcieClocks)
    requires Total(more) == n - size
    requires Serves(x, ys[0], size, clocks[0], interleave, if interleave then pcieClocks[0] else 0)
    ensures IsRead(pr, [x] + ys, [size] + more, clocks, interleave, pcieClocks) && Total([size] + more) == n
  {
    hide Serves;
    var xs, sizes := [x] + ys, [size] + more;
    assert sizes[1..] == more;
    forall i | 0 <= i < |sizes|
      ensures Serves(xs[i], xs[i + 1], sizes[i], clocks[i], interleave, if interleave then pcieClocks[i] else 0)
    {
      if i > 0 {
        assert Serves(ys[i - 1], ys[i], more[i - 1], clocks[1..][i - 1], interleave,
                      if interleave then pcieClocks[1..][i - 1] else 0);
      }
    }
  }

  /** When the command may start on its LUN: not before the LUN is available, and not before its own start time, or the
      clock if it has none. */
  function MayStart(s: State, c: Cmd): nat
    requires c.ch < |s.avail| && c.lun < |s.avail[c.ch]|
  {
    var t := if c.stime != 0 then c.stime else c.ioclock;
    if s.avail[c.ch][c.lun] < t then t else s.avail[c.ch][c.lun]
  }

  /** One LUN becomes available at `t`, the times of all others stay. */
  ghost predicate OnlyLun(s: State, s': State, ch: nat, lun: nat, t: nat) {
    && |s'.avail| == |s.avail| && (forall i :: 0 <= i < |s.avail| ==> |s'.avail[i]| == |s.avail[i]|)
    && (forall i, j :: 0 <= i < |s.avail| && 0 <= j < |s.avail[i]| ==>
          s'.avail[i][j] == if i == ch && j == lun then t else s.avail[i][j])
  }

  /** How long each command takes.  A program occupies the LUN for the program latency from the time at which the
      channel has delivered its data, an erase for the erase latency from its start; both return the end of that
      interval.  No other LUN, channel or interval changes. */
  lemma WriteTimes(pr: Params, s: State, c: Cmd)
    requires Wf(s) && CmdOk(pr, s, c) && !c.kind.Read?
    ensures var (s', done) := Advance(pr, s, c); var start := MayStart(s, c);
      && s'.pcie == s.pcie && OnlyLun(s, s', c.ch, c.lun, done)
      && (c.kind.Program? ==>
            var (l, data) := s.chans[c.ch].Serve(Request(c.clocks[0], start, c.xferSize));
            && start <= data && done == data + pr.progLat && s'.chans == s.chans[c.ch := l]
            && s'.log == s.log + [Busy(c.ch, c.lun, data, done)])
      && (c.kind.Erase? ==>
            && done == start + pr.eraseLat && s'.chans == s.chans
            && s'.log == s.log + [Busy(c.ch, c.lun, start, done)])
      && (c.kind.Nop? ==> done == start && s'.chans == s.chans && s'.log == s.log)
  {
    if c.kind.Program? { ServeValid(s.chans[c.ch], Request(c.clocks[0], MayStart(s, c), c.xferSize)); }
    hide Ledger.Serve, Ledger.Valid, Move;
  }

  /** A read senses its page for the read latency from its start, and then transfers all its bytes in pieces; it
      frees the LUN when the channel is done with the last one, and returns when the PCIe link is, if that has to
      send it on. */
  lemma ReadTimes(pr: Params, s: State, c: Cmd) returns (xs: seq<Xfer>, sizes: seq<nat>)
    requires Wf(s) && CmdOk(pr, s, c) && c.kind.Read?
    ensures IsRead(pr, xs, sizes, c.clocks, c.interleave, c.pcieClocks) && Total(sizes) == c.xferSize && sizes != []
    ensures var (s', done) := Advance(pr, s, c); var t, x := MayStart(s, c) + pr.readLat, xs[|sizes|];
      && xs[0] == Xfer(s.chans[c.ch], s.pcie, t, t) && t <= x.end <= x.done
      && done == x.done && s'.log == s.log && OnlyLun(s, s', c.ch, c.lun, x.end)
      && s'.chans == s.chans[c.ch := x.chan] && s'.pcie == x.pcie
  {
    var t := MayStart(s, c) + pr.readLat;
    xs, sizes := MoveIsRead(pr, Xfer(s.chans[c.ch], s.pcie, t, t), c.xferSize, c.clocks, c.interleave, c.pcieClocks);
    hide Ledger.Serve, Ledger.Valid, Move, IsRead;
  }

  // ---------- whole runs ----------

  lemma AdvanceTimeline(pr: Params, s: State, c: Cmd)
    requires Timeline(s) && CmdOk(pr, s, c)
    ensures Timeline(Advance(pr, s, c).0)
  {
    AdvanceMonotone(pr, s, c);
    var s' := Advance(pr, s, c).0;
    hide Advance, Ledger.Valid;
    forall i | 0 <= i < |s'.log| ensures Released(s', s'.log[i]) {
      if i < |s.log| { assert Released(s, s.log[i]); }
    }
    forall i, j | 0 <= i < j < |s'.log| && SameLun(s'.log[i], s'.log[j]) ensures s'.log[i].end <= s'.log[j].start {
      assert Released(s, s.log[i]);
    }
  }

  /** Sending the data on over PCIe holds up neither the channel nor the LUN, and the command completes no earlier
      than its last channel transfer. */
  lemma {:induction false} InterleaveOnlyDelays(pr: Params, x: Xfer, x': Xfer, n: nat, clocks: seq<nat>,
                                                pcieClocks: seq<nat>)
    requires XferOk(pr, x, n, clocks, true, pcieClocks) && XferOk(pr, x', n, clocks, false, [])
    requires x'.chan == x.chan && x'.end == x.end && x'.done == x'.end
    ensures var y, y' := Move(pr, x, n, clocks, true, pcieClocks), Move(pr, x', n, clocks, false, []);
      y.chan == y'.chan && y.end == y'.end == y'.done <= y.done && y'.pcie == x'.pcie
    decreases n
  {
    hide Ledger.Serve, Ledger.Valid;
    if n > 0 {
      var size := Min(n, pr.maxXfer);
      var y, y' := Piece(x, size, clocks[0], true, pcieClocks[0]), Piece(x', size, clocks[0], false, 0);
      InterleaveOnlyDelays(pr, y, y', n - size, clocks[1..], pcieClocks[1..]);
    }
  }

  /** A state reached from `s` by commands. */
  ghost predicate IsRun(pr: Params, ss: seq<State>, cs: seq<Cmd>) {
    && |ss| == |cs| + 1 && Wf(ss[0]) && ss[0].log == []
    && forall i :: 0 <= i < |cs| ==> Wf(ss[i]) && CmdOk(pr, ss[i], cs[i]) && ss[i + 1] == Advance(pr, ss[i], cs[i]).0
  }

  /** In every run the programs and erases of a LUN are disjoint and in issue order. */
  lemma {:induction false} RunTimeline(pr: Params, ss: seq<State>, cs: seq<Cmd>, n: nat)
    requires IsRun(pr, ss, cs) && n < |ss|
    ensures Timeline(ss[n])
  {
    if n > 0 {
      RunTimeline(pr, ss, cs, n - 1);
      AdvanceTimeline(pr, ss[n - 1], cs[n - 1]);
    }
  }

  // ---------- the device ----------

  /** `t` is the latest of the clock and the availability times of all LUNs before (ch, lun). */
  ghost predicate LatestBefore(s: State, clock: nat, ch: nat, lun: nat, t: nat) {
    && clock <= t
    && (forall c, l :: 0 <= c < |s.avail| && 0 <= l < |s.avail[c]| && (c < ch || (c == ch && l < lun)) ==>
         s.avail[c][l] <= t)
    && (t == clock || exists c, l :: 0 <= c < |s.avail| && 0 <= l < |s.avail[c]| && s.avail[c][l] == t)
  }

  /** A flush waits for every program and erase issued before it. */
  lemma FlushCoversLog(s: State, clock: nat, t: nat, i: nat)
    requires Timeline(s) && LatestBefore(s, clock, |s.avail|, 0, t) && i < |s.log|
    ensures s.log[i].end <= t
  {
  }

  class Ssd {
    const pr: Params
    var avail: seq<seq<nat>>
    /** The channel models, by the ledgers they stand for. */
    var chans: seq<Ledger>
    var pcie: Ledger
    ghost var log: seq<Busy>

    ghost function View(): State
      reads this
    {
      State(avail, chans, pcie, log)
    }

    method SetAvailTime(ch: nat, lun: nat, t: nat)
      requires ch < |avail| && lun < |avail[ch]|
      modifies this`avail
      ensures View() == SetAvail(old(View()), ch, lun, t)
    {
      var row: seq<nat> := avail[ch][lun := t];
      avail := avail[ch := row];
    }

    /** One transfer over the channel and, where asked, on over PCIe. */
    method Transfer(ch: nat, size: nat, start: nat, ghost done0: nat, clock: nat, interleave: bool, pcieClock: nat)
      returns (end: nat, done: nat)
      requires ch < |chans| && chans[ch].Valid() && pcie.Valid() && chans[ch].time <= clock
      requires interleave ==> pcie.time <= pcieClock
      modifies this`chans, this`pcie
      ensures var x := Piece(old(Xfer(chans[ch], pcie, start, done0)), size, clock, interleave, pcieClock);
        chans == old(chans)[ch := x.chan] && pcie == x.pcie && end == x.end && done == x.done
    {
      hide Ledger.Serve, Ledger.Valid;
      ServeValid(chans[ch], Request(clock, start, size));
      var (l, chnlEnd) := chans[ch].Serve(Request(clock, start, size));
      end, done := chnlEnd, chnlEnd;
      if interleave {
        ServeValid(pcie, Request(pcieClock, chnlEnd, size));
        var (p, t) := pcie.Serve(Request(pcieClock, chnlEnd, size));
        pcie, done := p, t;
      }
      chans := chans[ch := l];
    }

    /** The transfers of a NAND read. */
    method ReadTransfers(ch: nat, start: nat, size: nat, clocks: seq<nat>, interleave: bool, pcieClocks: seq<nat>)
      returns (end: nat, done: nat)
      requires ch < |chans| && XferOk(pr, Xfer(chans[ch], pcie, start, start), size, clocks, interleave, pcieClocks)
      modifies this`chans, this`pcie
      ensures var x := Move(pr, old(Xfer(chans[ch], pcie, start, start)), size, clocks, interleave, pcieClocks);
        chans == old(chans)[ch := x.chan] && pcie == x.pcie && end == x.end && done == x.done
    {
      hide Ledger.Serve, Ledger.Valid, Piece, Move, XferOk, Transfers, ClocksFrom;
      ghost var x0 := Xfer(chans[ch], pcie, start, start);
      ghost var x, cs, ps := x0, clocks, pcieClocks;
      MoveNothing(pr, x, size, cs, interleave, ps);
      var remaining, k := size, 0;
      end, done := start, start;
      while remaining > 0
        invariant |chans| == |old(chans)| && chans == old(chans)[ch := x.chan] && x == Xfer(chans[ch], pcie, end, done)
        invariant 0 <= remaining <= size && 0 <= k <= |clocks| && cs == clocks[k..]
        invariant interleave ==> k <= |pcieClocks| && ps == pcieClocks[k..]
        invariant XferOk(pr, x, remaining, cs, interleave, ps)
        invariant Move(pr, x, remaining, cs, interleave, ps) == Move(pr, x0, size, clocks, interleave, pcieClocks)
        decreases remaining
      {
        MoveStep(pr, x, remaining, cs, interleave, ps);
        var xfer := Min(remaining, pr.maxXfer);
        var clock, pcieClock := clocks[k], if interleave then pcieClocks[k] else 0;
        ghost var y := Piece(x, xfer, clock, interleave, pcieClock);
        end, done := Transfer(ch, xfer, end, done, clock, interleave, pcieClock);
        remaining := remaining - xfer;
        k := k + 1;
        x, cs, ps := y, cs[1..], if interleave then ps[1..] else ps;
      }
      MoveNothing(pr, x, 0, cs, interleave, ps);
    }

    /** ssd_advance_nand. */
    method AdvanceNand(c: Cmd) returns (completed: nat)
      requires Wf(View()) && CmdOk(pr, View(), c)
      modifies this
      ensures Wf(View()) && (View(), completed) == Advance(pr, old(View()), c)
    {
      hide Ledger.Serve, Ledger.Valid, Move;
      var stime := if c.stime == 0 then c.ioclock else c.stime;
      var start := Max(avail[c.ch][c.lun], stime);
      var free;
      match c.kind {
        case Read =>
          free, completed := ReadTransfers(c.ch, start + pr.readLat, c.xferSize, c.clocks, c.interleave, c.pcieClocks);
        case Program =>
          var q := Request(c.clocks[0], start, c.xferSize);
          ServeValid(chans[c.ch], q);
          var (l, ready) := chans[c.ch].Serve(q);
          chans := chans[c.ch := l];
          free, completed := ready + pr.progLat, ready + pr.progLat;
          log := log + [Busy(c.ch, c.lun, ready, completed)];
        case Erase =>
          free, completed := start + pr.eraseLat, start + pr.eraseLat;
          log := log + [Busy(c.ch, c.lun, start, completed)];
        case Nop =>
          free, completed := start, start;
      }
      SetAvailTime(c.ch, c.lun, free);
    }

    /** ssd_next_idle_time; zns_flush takes the larger of this and its own clock. */
    method NextIdleTime(clock: nat) returns (latest: nat)
      ensures LatestBefore(View(), clock, |avail|, 0, latest)
    {
      latest := clock;
      for i := 0 to |avail|
        invariant LatestBefore(View(), clock, i, 0, latest)
      {
        for j := 0 to |avail[i]|
          invariant LatestBefore(View(), clock, i, j, latest)
        {
          latest := Max(latest, avail[i][j]);
        }
      }
    }
  }

  /** No LUN is busy after `t`. */
  ghost predicate IdleBy(s: State, t: nat) {
    forall c, l :: 0 <= c < |s.avail| && 0 <= l < |s.avail[c]| ==> s.avail[c][l] <= t
  }

  ghost predicate FlushBound(parts: seq<Ssd>, n: nat, start: nat, clocks: seq<nat>, t: nat)
    requires n <= |parts| == |clocks|
    reads set i | 0 <= i < |parts| :: parts[i]
  {
    start <= t && forall i :: 0 <= i < n ==> clocks[i] <= t && IdleBy(parts[i].View(), t)
  }

  /** zns_flush over all partitions: the earliest time that is no earlier than the clocks and finds every LUN idle,
      so all programs and erases issued before have ended by then.  `clocks` are the clock readings for the
      partitions. */
  method Flush(parts: seq<Ssd>, start: nat, clocks: seq<nat>) returns (latest: nat)
    requires |parts| == |clocks|
    ensures FlushBound(parts, |parts|, start, clocks, latest)
    ensures forall t: nat :: FlushBound(parts, |parts|, start, clocks, t) ==> latest <= t
    ensures forall i, k :: 0 <= i < |parts| && Timeline(parts[i].View()) && 0 <= k < |parts[i].View().log| ==>
      parts[i].View().log[k].end <= latest
  {
    latest := start;
    for i := 0 to |parts|
      invariant FlushBound(parts, i, start, clocks, latest)
      invariant forall t: nat :: FlushBound(parts, i, start, clocks, t) ==> latest <= t
    {
      var idle := parts[i].NextIdleTime(clocks[i]);
      latest := Max(latest, idle);
      ghost var n := i + 1;
      forall t: nat | FlushBound(parts, n, start, clocks, t) ensures latest <= t {
        assert FlushBound(parts, i, start, clocks, t) && clocks[i] <= t && IdleBy(parts[i].View(), t);
      }
    }
    forall i, k | 0 <= i < |parts| && Timeline(parts[i].View()) && 0 <= k < |parts[i].View().log|
      ensures parts[i].View().log[k].end <= latest
    {
      assert Released(parts[i].View(), parts[i].View().log[k]);
    }
  }
}
