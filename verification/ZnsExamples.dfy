/** Short command sequences after which the zoned namespace does what its commands do not promise; the lemmas of
    `Zns` and of the two ledgers say for all inputs when it does. */
module ZnsExamples {
  import opened Zns

  /** From `s` the commands lead to `t`. */
  ghost predicate Reaches(p: Params, s: State, full: nat, cs: seq<Command>, t: State) {
    Inv(p, s) && Inv(p, t) && (forall i :: 0 <= i < |cs| ==> InRange(p, cs[i])) && Run(p, s, full, cs) == t
  }

  lemma ReachesSelf(p: Params, s: State, full: nat)
    requires Inv(p, s)
    ensures Reaches(p, s, full, [], s)
  {
  }

  /** Command `c` takes `s` to `t`. */
  ghost predicate Steps(p: Params, s: State, full: nat, c: Command, t: State) {
    p.Ok() && InRange(p, c) && (Inv(p, s) ==> Exec(p, s, full, c) == t)
  }

  lemma StepsInv(p: Params, s: State, full: nat, c: Command, t: State)
    requires Inv(p, s) && Steps(p, s, full, c, t)
    ensures Inv(p, t)
  {
    ExecInv(p, s, full, c);
    hide Inv, InRange, Exec;
  }

  lemma ReachesStep(p: Params, s: State, full: nat, c: Command, t: State, cs: seq<Command>, u: State)
    requires Inv(p, s) && Steps(p, s, full, c, t) && Reaches(p, t, full, cs, u)
    ensures Reaches(p, s, full, [c] + cs, u)
  {
    hide Inv, InRange, Exec;
    assert ([c] + cs)[1..] == cs;
  }

  lemma ReachesOne(p: Params, s0: State, full: nat, c1: Command, s1: State)
    requires Inv(p, s0) && Steps(p, s0, full, c1, s1)
    ensures Reaches(p, s0, full, [c1], s1) && Inv(p, s1)
  {
    hide Inv, Steps, Reaches;
    StepsInv(p, s0, full, c1, s1);
    ReachesSelf(p, s1, full);
    ReachesStep(p, s0, full, c1, s1, [], s1);
    assert [c1] + [] == [c1];
  }

  lemma ReachesTwo(p: Params, s0: State, full: nat, c1: Command, s1: State, c2: Command, s2: State)
    requires Inv(p, s0) && Steps(p, s0, full, c1, s1) && Steps(p, s1, full, c2, s2)
    ensures Reaches(p, s0, full, [c1, c2], s2) && Inv(p, s2)
  {
    hide Inv, Steps, Reaches;
    StepsInv(p, s0, full, c1, s1);
    ReachesOne(p, s1, full, c2, s2);
    ReachesStep(p, s0, full, c1, s1, [c2], s2);
    assert [c1] + [c2] == [c1, c2];
  }

  lemma ReachesThree(p: Params, s0: State, full: nat, c1: Command, s1: State, c2: Command, s2: State, c3: Command,
                     s3: State)
    requires Inv(p, s0) && Steps(p, s0, full, c1, s1) && Steps(p, s1, full, c2, s2) && Steps(p, s2, full, c3, s3)
    ensures Reaches(p, s0, full, [c1, c2, c3], s3) && Inv(p, s3)
  {
    hide Inv, Steps, Reaches;
    StepsInv(p, s0, full, c1, s1);
    ReachesTwo(p, s1, full, c2, s2, c3, s3);
    ReachesStep(p, s0, full, c1, s1, [c2, c3], s3);
    assert [c1] + [c2, c3] == [c1, c2, c3];
  }

  lemma ReachesFour(p: Params, s0: State, full: nat, c1: Command, s1: State, c2: Command, s2: State, c3: Command,
                    s3: State, c4: Command, s4: State)
    requires Inv(p, s0) && Steps(p, s0, full, c1, s1) && Steps(p, s1, full, c2, s2)
    requires Steps(p, s2, full, c3, s3) && Steps(p, s3, full, c4, s4)
    ensures Reaches(p, s0, full, [c1, c2, c3, c4], s4) && Inv(p, s4)
  {
    hide Inv, Steps, Reaches;
    StepsInv(p, s0, full, c1, s1);
    ReachesThree(p, s1, full, c2, s2, c3, s3, c4, s4);
    ReachesStep(p, s0, full, c1, s1, [c2, c3, c4], s4);
    assert [c1] + [c2, c3, c4] == [c1, c2, c3, c4];
  }

  /** An admissible plain write to block 0 on is the opening of the zone followed by the accepted write. */
  lemma PlainSteps(p: Params, s: State, full: nat, nlb: nat, t: State, u: State)
    requires p.Ok() && p.Zid(0) == 0 < p.nrZones && p.Start(0) == 0 < nlb
    requires 0 < |s.zones| == |t.zones| == |t.logs| && p.WbIndex(0) < |s.wb| && nlb * LBA_SIZE <= s.wb[p.WbIndex(0)]
    requires PlainAdmissible(p, s, 0, nlb, false) && !s.zones[0].zrwav && s.zones[0].wp == 0
    requires Opened(p, s, 0, nlb) == t && t.open > 0 && t.active > 0 && AcceptWrite(p, t, 0, 0, nlb) == u
    ensures Steps(p, s, full, Write(0, nlb, false), u)
  {
    hide Inv, WritePlain, AcceptWrite, Opened, PlainAdmissible, Params.Zid;
    if Inv(p, s) { PlainAccepted(p, s, 0, nlb, false); }
  }

  /** An accepted write of whole pages to the start of zone 0. */
  lemma AcceptIs(p: Params, t: State, nlb: nat, m: State, logs: seq<Log>, released: nat)
    requires p.Ok() && p.Start(0) == 0 < nlb && 0 < |t.zones| == |t.logs| == |logs| && t.open > 0 && t.active > 0
    requires IncreaseWp(p, t, 0, nlb) == m && m.logs == t.logs && t.logs[0] == NoLog
    requires ReleaseLoop(p, 0, (nlb - 1) / SECS_PER_PG + 1) == released
    requires logs == t.logs[0 := Log([Extent(0, nlb)], nlb * LBA_SIZE, released)]
    ensures AcceptWrite(p, t, 0, 0, nlb) == m.(logs := logs)
  {
    hide ReleaseLoop, IncreaseWp;
    assert NoLog.writes + [Extent(0, nlb)] == [Extent(0, nlb)];
  }

  /** One zone of 16 blocks, which is also the size of its random write area, and one resource of each kind. */
  function TinyNamespace(): (p: Params) { Tiny(1) }

  function Tiny(oneshot: nat): (p: Params) { Params(1, 16, oneshot, 4096, 16, 8, 0, 1, 1, 1) }

  /** Its states: one zone, what its buffers have left, the ZRWA resources in use and lost, and the history of the
      zone. */
  function OneZone(z: Zone, wb: nat, zbuf: nat, fills: nat, log: Log): State {
    State([z], B(IsOpen(z)), B(IsActive(z)), B(HoldsZrwa(z)) + fills, [wb], [zbuf], fills, [log])
  }

  const NoLog: Log := Log([], 0, 0)

  function Fresh(st: ZoneState, zrwav: bool, zbuf: nat): State {
    OneZone(Zone(st, 0, 0, zrwav), 65536, zbuf, 0, NoLog)
  }

  lemma TinyStart()
    ensures Initial(TinyNamespace(), 8192, 65536) == Fresh(Empty, false, 8192)
    ensures Inv(TinyNamespace(), Fresh(Empty, false, 8192))
  {
    InitialInv(TinyNamespace(), 8192, 65536);
    hide Inv;
  }

  // ---------- the assertion in the reopening of a ZRWA zone ----------

  /** A zone opened with a random write area, closed, written, closed and written again: the buffer of one random write
      area is charged twice. */
  lemma ReopenAssertionFails()
    ensures var p, close := TinyNamespace(), Send(ActClose, 0, false, false);
      var cs := [Send(ActOpen, 0, false, true), close, Write(0, 8, false), close];
      && Reaches(p, Initial(p, 8192, 65536), 8192, cs, Fresh(Closed, true, 0))
      && WriteZrwa(p, Fresh(Closed, true, 0), 0, 8).1 == Bug
  {
    hide *;
    WriteHits();
    ClosedTwice(TinyNamespace(), Send(ActOpen, 0, false, true), Send(ActClose, 0, false, false), Write(0, 8, false));
  }

  lemma ClosedTwice(p: Params, c1: Command, c2: Command, c3: Command)
    requires p == TinyNamespace() && c1 == Send(ActOpen, 0, false, true)
    requires c2 == Send(ActClose, 0, false, false) && c3 == Write(0, 8, false)
    ensures Reaches(p, Initial(p, 8192, 65536), 8192, [c1, c2, c3, c2], Fresh(Closed, true, 0))
    ensures Inv(p, Fresh(Closed, true, 0))
  {
    hide *;
    ClosedTwiceSteps(p, c1, c2, c3);
    ReachesFour(p, Fresh(Empty, false, 8192), 8192, c1, Fresh(OpenedExpl, true, 8192), c2, Fresh(Closed, true, 8192),
                c3, Fresh(OpenedImpl, true, 0), c2, Fresh(Closed, true, 0));
  }

  lemma ClosedTwiceSteps(p: Params, c1: Command, c2: Command, c3: Command)
    requires p == TinyNamespace() && c1 == Send(ActOpen, 0, false, true)
    requires c2 == Send(ActClose, 0, false, false) && c3 == Write(0, 8, false)
    ensures Initial(p, 8192, 65536) == Fresh(Empty, false, 8192) && Inv(p, Fresh(Empty, false, 8192))
    ensures Steps(p, Fresh(Empty, false, 8192), 8192, c1, Fresh(OpenedExpl, true, 8192))
    ensures Steps(p, Fresh(OpenedExpl, true, 8192), 8192, c2, Fresh(Closed, true, 8192))
    ensures Steps(p, Fresh(Closed, true, 8192), 8192, c3, Fresh(OpenedImpl, true, 0))
    ensures Steps(p, Fresh(OpenedImpl, true, 0), 8192, c2, Fresh(Closed, true, 0))
  {
    hide *;
    TinyStart();
    StepOpen();
    StepClose(OpenedExpl, 8192);
    StepReopen();
    StepClose(OpenedImpl, 0);
  }

  lemma StepOpen()
    ensures Steps(TinyNamespace(), Fresh(Empty, false, 8192), 8192, Send(ActOpen, 0, false, true),
                  Fresh(OpenedExpl, true, 8192))
  {
    hide Inv;
  }

  lemma StepClose(st: ZoneState, zbuf: nat)
    requires st.OpenedImpl? || st.OpenedExpl?
    ensures Steps(TinyNamespace(), Fresh(st, true, zbuf), 8192, Send(ActClose, 0, false, false),
                  Fresh(Closed, true, zbuf))
  {
    hide Inv;
  }

  lemma StepReopen()
    ensures Steps(TinyNamespace(), Fresh(Closed, true, 8192), 8192, Write(0, 8, false), Fresh(OpenedImpl, true, 0))
  {
    ReopenSwitch();
    ReopenMove();
    hide Inv, ZrwaMove, ZrwaSwitch, Exec, WriteZrwa, WriteCommand, Steps;
    ZrwaSteps(Fresh(Closed, true, 8192), 8, Fresh(OpenedImpl, true, 0), Fresh(OpenedImpl, true, 0));
  }

  lemma ReopenSwitch()
    ensures ZrwaSwitch(TinyNamespace(), Fresh(Closed, true, 8192), 0) == (Fresh(OpenedImpl, true, 0), Done(Success))
  {
    var r := ZrwaSwitch(TinyNamespace(), Fresh(Closed, true, 8192), 0).0;
    assert r.zones == Fresh(OpenedImpl, true, 0).zones && r.zbuf == [0];
  }

  lemma ReopenMove()
    ensures ZrwaMove(TinyNamespace(), Fresh(OpenedImpl, true, 0), 0, 7) == (Fresh(OpenedImpl, true, 0), Done(Success))
  {
  }

  /** An admissible write of `nlb` blocks from block 0 on is its state switch followed by its implicit flush. */
  lemma ZrwaSteps(s: State, nlb: nat, t: State, u: State)
    requires |s.zones| == |t.zones| == |t.zbuf| == |s.zbuf| == 1
    requires s.zones[0].zrwav && s.zones[0].wp == t.zones[0].wp == 0
    requires 0 < nlb <= 16 && nlb % 8 == 0 && t.open > 0 && t.active > 0
    requires ZrwaSwitch(TinyNamespace(), s, 0) == (t, Done(Success))
    requires ZrwaMove(TinyNamespace(), t, 0, nlb - 1) == (u, Done(Success))
    ensures Steps(TinyNamespace(), s, 8192, Write(0, nlb, false), u)
  {
    hide Inv, ZrwaSwitch, ZrwaMove;
    assert nlb * LBA_SIZE % 4096 == 0;
  }

  lemma WriteHits()
    ensures var p, s := TinyNamespace(), Fresh(Closed, true, 0); Inv(p, s) ==> WriteZrwa(p, s, 0, 8).1 == Bug
  {
    hide Inv;
  }

  // ---------- a ZRWA resource lost ----------

  function Filled(): State { OneZone(Zone(Full, 0, 16, true), 65536, 0, 1, NoLog) }

  function Emptied(): State { OneZone(Zone(Empty, 0, 0, false), 65536, 8192, 1, NoLog) }

  /** A zone opened with a random write area, filled by one write and reset: no zone holds the ZRWA resource, and
      the namespace has none left. */
  lemma FillLosesZrwa()
    ensures Reaches(TinyNamespace(), Initial(TinyNamespace(), 8192, 65536), 8192,
                    [Send(ActOpen, 0, false, true), Write(0, 16, false), Send(ActReset, 0, false, false)], Emptied())
    ensures Emptied().zones == [Zone(Empty, 0, 0, false)]
    ensures OpenZone(TinyNamespace(), Emptied(), 0, true) == (Emptied(), ZrwaUnavail)
  {
    hide *;
    NoneLeft();
    var c1, c2, c3 := Send(ActOpen, 0, false, true), Write(0, 16, false), Send(ActReset, 0, false, false);
    EmptiedReached(TinyNamespace(), c1, c2, c3);
  }

  lemma EmptiedReached(p: Params, c1: Command, c2: Command, c3: Command)
    requires p == TinyNamespace() && c1 == Send(ActOpen, 0, false, true) && c2 == Write(0, 16, false)
    requires c3 == Send(ActReset, 0, false, false)
    ensures Reaches(p, Initial(p, 8192, 65536), 8192, [c1, c2, c3], Emptied())
  {
    hide *;
    TinyStart();
    StepOpen();
    StepFill();
    StepReset();
    ReachesThree(p, Fresh(Empty, false, 8192), 8192, c1, Fresh(OpenedExpl, true, 8192), c2, Filled(), c3, Emptied());
  }

  lemma StepFill()
    ensures Steps(TinyNamespace(), Fresh(OpenedExpl, true, 8192), 8192, Write(0, 16, false), Filled())
  {
    FillMove();
    hide Inv, ZrwaMove, Exec, WriteZrwa, WriteCommand, Steps;
    ZrwaSteps(Fresh(OpenedExpl, true, 8192), 16, Fresh(OpenedExpl, true, 8192), Filled());
  }

  lemma FillMove()
    ensures ZrwaMove(TinyNamespace(), Fresh(OpenedExpl, true, 8192), 0, 15) == (Filled(), Done(Success))
  {
    FillFlush();
    FillWp();
    hide ZrwaFlush, IncreaseWp, TinyNamespace;
    assert [8192][0 := 0] == [0];
  }

  lemma FillFlush()
    ensures TinyNamespace().Ok() && TinyNamespace().HasZrwa() && ZrwaFlush(TinyNamespace(), 0, 0, 15) == 16
  {
  }

  lemma FillWp()
    ensures var z := Zone(Full, 0, 16, true);
      IncreaseWp(TinyNamespace(), Fresh(OpenedExpl, true, 8192), 0, 16)
      == State([z], 0, 0, 1, [65536], [8192], 0, [NoLog])
  {
    var t := IncreaseWp(TinyNamespace(), Fresh(OpenedExpl, true, 8192), 0, 16);
    assert t.zones == [Zone(Full, 0, 16, true)];
  }

  lemma StepReset()
    ensures Steps(TinyNamespace(), Filled(), 8192, Send(ActReset, 0, false, false), Emptied())
  {
    hide Inv;
  }

  lemma NoneLeft()
    ensures Emptied().zones == [Zone(Empty, 0, 0, false)]
    ensures OpenZone(TinyNamespace(), Emptied(), 0, true) == (Emptied(), ZrwaUnavail)
  {
  }

  // ---------- a buffer that comes out larger than it is ----------

  function Overfull(): State { OneZone(Zone(Empty, 0, 0, false), 65536, 16384, 1, NoLog) }

  /** The same write takes the whole buffer and, as FillSchedules says, schedules all of it for release.  The reset
      refills the buffer at once; when the worker then gives the scheduled bytes back, the buffer has twice its size
      left. */
  lemma ResetOverfills()
    ensures Reaches(TinyNamespace(), Initial(TinyNamespace(), 8192, 65536), 8192,
                    [Send(ActOpen, 0, false, true), Write(0, 16, false), Send(ActReset, 0, false, false),
                     RefillZrwa(0, 8192)], Overfull())
  {
    hide *;
    TinyStart();
    StepOpen();
    StepFill();
    StepReset();
    StepOverfill();
    ReachesFour(TinyNamespace(), Fresh(Empty, false, 8192), 8192, Send(ActOpen, 0, false, true),
                Fresh(OpenedExpl, true, 8192), Write(0, 16, false), Filled(), Send(ActReset, 0, false, false),
                Emptied(), RefillZrwa(0, 8192), Overfull());
  }

  lemma StepOverfill()
    ensures Steps(TinyNamespace(), Emptied(), 8192, RefillZrwa(0, 8192), Overfull())
  {
    hide Inv;
  }

  lemma FillSchedules()
    requires Inv(TinyNamespace(), Fresh(OpenedExpl, true, 8192))
    ensures WriteZrwa(TinyNamespace(), Fresh(OpenedExpl, true, 8192), 0, 16).1 == Done(Success)
    ensures ZrwaScheduled(TinyNamespace(), Fresh(OpenedExpl, true, 8192), 0, 16) == 8192
  {
    hide ZrwaFlush, IncreaseWp, Inv, ZrwaMove;
    FillMove();
    FillFlush();
    ReleasesOneshots(TinyNamespace(), 0, 2);
    hide ZrwaReleases;
  }

  // ---------- the status of a full zone ----------

  /** A zone finished below its end: a write at its write pointer reports OFFLINE. */
  lemma FullReportsOffline()
    ensures var p, s := TinyNamespace(), Fresh(Full, false, 8192);
      && Reaches(p, Initial(p, 8192, 65536), 8192, [Send(ActFinish, 0, false, false)], s)
      && WritePlain(p, s, 0, 8, false).1 == Done(ErrOffline)
  {
    hide *;
    TinyStart();
    StepFinish();
    var p, s, t := TinyNamespace(), Fresh(Empty, false, 8192), Fresh(Full, false, 8192);
    ReachesOne(p, s, 8192, Send(ActFinish, 0, false, false), t);
  }

  lemma StepFinish()
    ensures Steps(TinyNamespace(), Fresh(Empty, false, 8192), 8192, Send(ActFinish, 0, false, false),
                  Fresh(Full, false, 8192))
    ensures Inv(TinyNamespace(), Fresh(Full, false, 8192)) ==>
      WritePlain(TinyNamespace(), Fresh(Full, false, 8192), 0, 8, false).1 == Done(ErrOffline)
  {
    hide Inv;
  }

  // ---------- a rejected write ----------

  /** The first write of a namespace, not at the start of its zone, is rejected, and its 4096 bytes are gone. */
  lemma RejectedWrite()
    ensures var p := TinyNamespace(); var s := Initial(p, 8192, 65536);
      Inv(p, s) && WritePlain(p, s, 8, 8, false) == (Charged(s, 0, 4096), Done(InvalidWrite))
  {
    TinyStart();
    RejectedAt8();
    hide Inv, WritePlain, Initial, Fresh, TinyNamespace;
  }

  lemma RejectedAt8()
    ensures var p, s := TinyNamespace(), Fresh(Empty, false, 8192);
      Inv(p, s) ==> WritePlain(p, s, 8, 8, false) == (Charged(s, 0, 4096), Done(InvalidWrite))
  {
    hide Inv;
  }

  // ---------- an append that moves to the next zone ----------

  function TwoZones(): (p: Params) { Params(2, 16, 2, 4096, 16, 8, 0, 1, 1, 1) }

  /** Zone 0 written to its end, zone 1 empty. */
  function FirstFull(wb: nat): State {
    State([Zone(Full, 0, 16, false), Zone(Empty, 16, 16, false)], 0, 0, 0, [wb], [0, 0], 0,
          [Log([Extent(0, 16)], 8192, 8192), NoLog])
  }

  /** Zone 0 is full and the buffer is used up.  An append to zone 0 is refused; with buffer space it would be rejected.
      Offered again, with the address it was left with, it is an append to zone 1 and succeeds. */
  lemma AppendChangesZone()
    ensures var p, s := TwoZones(), Initial(TwoZones(), 0, 8192);
      && Reaches(p, s, 0, [Write(0, 16, false)], FirstFull(0))
      && Reaches(p, s, 0, [Write(0, 16, false), RefillWb(0, 8192)], FirstFull(8192))
    ensures WritePlain(TwoZones(), FirstFull(0), 0, 8, true) == (FirstFull(0), Retry)
    ensures WritePlain(TwoZones(), FirstFull(8192), 0, 8, true).1 == Done(ErrOffline)
    ensures Rewritten(TwoZones(), FirstFull(0), 0, true) == 16
    ensures WritePlain(TwoZones(), FirstFull(8192), 16, 8, true).1 == Done(Success)
  {
    FirstFullReached();
    AppendFirst();
    hide Inv, Run, Initial, TwoZones, FirstFull, WritePlain, Rewritten;
  }

  lemma FirstFullReached()
    ensures var p, s := TwoZones(), Initial(TwoZones(), 0, 8192);
      && Reaches(p, s, 0, [Write(0, 16, false)], FirstFull(0))
      && Reaches(p, s, 0, [Write(0, 16, false), RefillWb(0, 8192)], FirstFull(8192))
  {
    var p, s := TwoZones(), Initial(TwoZones(), 0, 8192);
    InitialInv(p, 0, 8192);
    FillFirst();
    RefillFirst();
    hide Inv, Steps, Reaches, Run, Initial, TwoZones, FirstFull;
    ReachesOne(p, s, 0, Write(0, 16, false), FirstFull(0));
    ReachesTwo(p, s, 0, Write(0, 16, false), FirstFull(0), RefillWb(0, 8192), FirstFull(8192));
  }

  lemma FillFirst()
    ensures Steps(TwoZones(), Initial(TwoZones(), 0, 8192), 0, Write(0, 16, false), FirstFull(0))
  {
    hide *;
    FirstAdmissible();
    FirstOpened();
    FirstAccepted();
    PlainSteps(TwoZones(), Initial(TwoZones(), 0, 8192), 0, 16, FirstOpen(), FirstFull(0));
  }

  lemma FirstAdmissible()
    ensures var p := TwoZones(); p.Ok() && p.Zid(0) == 0 < p.nrZones && p.Start(0) == 0 && p.WbIndex(0) == 0
    ensures var s := Initial(TwoZones(), 0, 8192);
      s.zones == [Zone(Empty, 0, 0, false), Zone(Empty, 16, 16, false)] && s.wb == [8192]
    ensures PlainAdmissible(TwoZones(), Initial(TwoZones(), 0, 8192), 0, 16, false) && 16 * LBA_SIZE <= 8192
    ensures var t := FirstOpen(); |t.zones| == 2 == |t.logs| && t.open == 1 == t.active
  {
  }

  /** Zone 0 opened for its first write, the buffer charged. */
  function FirstOpen(): State {
    State([Zone(OpenedImpl, 0, 0, false), Zone(Empty, 16, 16, false)], 1, 1, 0, [0], [0, 0], 0, [NoLog, NoLog])
  }

  lemma FirstOpened()
    ensures Opened(TwoZones(), Initial(TwoZones(), 0, 8192), 0, 16) == FirstOpen()
  {
    var t := Opened(TwoZones(), Initial(TwoZones(), 0, 8192), 0, 16);
    assert t.zones == FirstOpen().zones && t.wb == [0] && t.logs == [NoLog, NoLog] && t.zbuf == [0, 0];
  }

  lemma FirstAccepted()
    ensures AcceptWrite(TwoZones(), FirstOpen(), 0, 0, 16) == FirstFull(0)
  {
    var p := TwoZones();
    assert ReleaseLoop(p, 0, 2) == 8192 && p.Start(0) == 0;
    hide ReleaseLoop;
    var u := AcceptWrite(p, FirstOpen(), 0, 0, 16);
    assert u.zones == FirstFull(0).zones && NoLog.writes + [Extent(0, 16)] == [Extent(0, 16)];
    assert u.logs[0] == Log([Extent(0, 16)], 8192, 8192) && u.logs == FirstFull(0).logs;
  }

  lemma RefillFirst()
    ensures Steps(TwoZones(), FirstFull(0), 0, RefillWb(0, 8192), FirstFull(8192))
  {
    hide Inv;
  }

  lemma AppendFirst()
    ensures var p := TwoZones();
      && Rewritten(p, FirstFull(0), 0, true) == 16
      && (Inv(p, FirstFull(0)) ==> WritePlain(p, FirstFull(0), 0, 8, true) == (FirstFull(0), Retry))
      && (Inv(p, FirstFull(8192)) ==>
            && WritePlain(p, FirstFull(8192), 0, 8, true).1 == Done(ErrOffline)
            && WritePlain(p, FirstFull(8192), 16, 8, true).1 == Done(Success))
  {
    hide Inv;
  }

  // ---------- an append that goes to a random write area ----------

  function Half(wb: nat, released: nat): State {
    OneZone(Zone(OpenedImpl, 0, 8, false), wb, 8192, 0, Log([Extent(0, 8)], 4096, released))
  }

  function Area(): State { OneZone(Zone(OpenedExpl, 0, 0, true), 0, 8192, 0, NoLog) }

  function Bare(wb: nat): State { OneZone(Zone(Empty, 0, 0, false), wb, 8192, 0, NoLog) }

  /** Half of the zone is written and the buffer is used up; an append is refused and left with address 8.  The zone is
      reset and opened with a random write area.  Offered again the append puts its data at block 8, fills the zone and
      makes it FULL; at its own address it would have written block 0 and left the zone as it is. */
  lemma AppendFillsArea()
    ensures Reaches(TinyNamespace(), Initial(TinyNamespace(), 8192, 4096), 8192, [Write(0, 8, false)], Half(0, 4096))
    ensures WriteCommand(TinyNamespace(), Half(0, 4096), 0, 8, true) == Effect(Half(0, 4096), Retry, 8)
    ensures Reaches(TinyNamespace(), Initial(TinyNamespace(), 8192, 4096), 8192,
                    [Write(0, 8, false), Send(ActReset, 0, false, false), Send(ActOpen, 0, false, true)], Area())
    ensures WriteCommand(TinyNamespace(), Area(), 0, 8, true) == Effect(Area(), Done(Success), 0)
    ensures var e := WriteCommand(TinyNamespace(), Area(), 8, 8, true);
      e.outcome == Done(Success) && e.addr == 8 && e.after.zones == [Zone(Full, 0, 16, true)]
  {
    hide *;
    AreaReached(TinyNamespace(), Write(0, 8, false), Send(ActReset, 0, false, false), Send(ActOpen, 0, false, true));
    HalfRefuses();
    AreaWrites();
  }

  lemma AreaReached(p: Params, c1: Command, c2: Command, c3: Command)
    requires p == TinyNamespace() && c1 == Write(0, 8, false)
    requires c2 == Send(ActReset, 0, false, false) && c3 == Send(ActOpen, 0, false, true)
    ensures Reaches(p, Initial(p, 8192, 4096), 8192, [c1], Half(0, 4096)) && Inv(p, Half(0, 4096))
    ensures Reaches(p, Initial(p, 8192, 4096), 8192, [c1, c2, c3], Area()) && Inv(p, Area())
  {
    hide *;
    AreaSteps(p, c1, c2, c3);
    ReachesOne(p, Bare(4096), 8192, c1, Half(0, 4096));
    ReachesThree(p, Bare(4096), 8192, c1, Half(0, 4096), c2, Bare(0), c3, Area());
  }

  lemma AreaSteps(p: Params, c1: Command, c2: Command, c3: Command)
    requires p == TinyNamespace() && c1 == Write(0, 8, false)
    requires c2 == Send(ActReset, 0, false, false) && c3 == Send(ActOpen, 0, false, true)
    ensures Initial(p, 8192, 4096) == Bare(4096) && Inv(p, Bare(4096))
    ensures Steps(p, Bare(4096), 8192, c1, Half(0, 4096)) && Steps(p, Half(0, 4096), 8192, c2, Bare(0))
    ensures Steps(p, Bare(0), 8192, c3, Area())
  {
    hide *;
    BareStart(1, 4096);
    TinyIsTiny();
    StepHalf(1, 4096, 4096);
    StepForget(1, 0, 4096);
    StepArea();
  }

  lemma BareStart(oneshot: nat, wb: nat)
    requires 0 < oneshot
    ensures Initial(Tiny(oneshot), 8192, wb) == Bare(wb) && Inv(Tiny(oneshot), Bare(wb))
  {
    InitialInv(Tiny(oneshot), 8192, wb);
    hide Inv;
  }

  lemma TinyIsTiny()
    ensures TinyNamespace() == Tiny(1)
  {
  }

  /** The first write of half a zone, with one-shot pages of 1 or 2 pages. */
  lemma StepHalf(oneshot: nat, wb: nat, released: nat)
    requires 4096 <= wb && ((oneshot == 1 && released == 4096) || (oneshot == 2 && released == 0))
    ensures Steps(Tiny(oneshot), Bare(wb), 8192, Write(0, 8, false), Half(wb - 4096, released))
  {
    hide *;
    HalfAdmissible(oneshot, wb);
    HalfOpened(oneshot, wb);
    HalfIs(wb, released);
    HalfAccepted(oneshot, wb, released);
    PlainSteps(Tiny(oneshot), Bare(wb), 8192, 8, HalfOpen(wb - 4096), Half(wb - 4096, released));
  }

  lemma HalfAdmissible(oneshot: nat, wb: nat)
    requires 0 < oneshot && 4096 <= wb
    ensures var p := Tiny(oneshot); p.Ok() && p.Zid(0) == 0 < p.nrZones && p.Start(0) == 0 && p.WbIndex(0) == 0
    ensures Bare(wb).zones == [Zone(Empty, 0, 0, false)] && Bare(wb).wb == [wb] && 8 * LBA_SIZE <= wb
    ensures PlainAdmissible(Tiny(oneshot), Bare(wb), 0, 8, false)
  {
  }

  function HalfOpen(wb: nat): State { OneZone(Zone(OpenedImpl, 0, 0, false), wb, 8192, 0, NoLog) }

  lemma HalfOpened(oneshot: nat, wb: nat)
    requires 4096 <= wb
    ensures Opened(Tiny(oneshot), Bare(wb), 0, 8) == HalfOpen(wb - 4096)
  {
    var t := Opened(Tiny(oneshot), Bare(wb), 0, 8);
    assert t.zones == HalfOpen(wb - 4096).zones && t.wb == [wb - 4096];
  }

  lemma HalfAccepted(oneshot: nat, wb: nat, released: nat)
    requires 4096 <= wb && ((oneshot == 1 && released == 4096) || (oneshot == 2 && released == 0))
    ensures Tiny(oneshot).Ok() && Tiny(oneshot).Start(0) == 0
    ensures AcceptWrite(Tiny(oneshot), HalfOpen(wb - 4096), 0, 0, 8) == Half(wb - 4096, released)
  {
    hide *;
    HalfReleases(oneshot, released);
    HalfWp(oneshot, wb);
    HalfIs(wb, released);
    HalfLog(Tiny(oneshot), HalfOpen(wb - 4096), HalfMoved(wb - 4096), Half(wb - 4096, released), released);
  }

  lemma HalfLog(p: Params, t: State, m: State, u: State, released: nat)
    requires p.Ok() && p.Start(0) == 0 && |t.zones| == 1 && t.open > 0 && t.active > 0 && t.logs == m.logs == [NoLog]
    requires IncreaseWp(p, t, 0, 8) == m && ReleaseLoop(p, 0, 1) == released
    requires u == m.(logs := [Log([Extent(0, 8)], 4096, released)])
    ensures AcceptWrite(p, t, 0, 0, 8) == u
  {
    var log := Log([Extent(0, 8)], 4096, released);
    assert t.logs[0 := log] == [log];
    hide IncreaseWp, ReleaseLoop, Params.Ok, Params.Start;
    AcceptIs(p, t, 8, m, [log], released);
  }

  function HalfMoved(wb: nat): State { OneZone(Zone(OpenedImpl, 0, 8, false), wb, 8192, 0, NoLog) }

  lemma HalfIs(wb: nat, released: nat)
    requires 4096 <= wb
    ensures Half(wb - 4096, released) == HalfMoved(wb - 4096).(logs := [Log([Extent(0, 8)], 4096, released)])
    ensures HalfMoved(wb - 4096).logs == [NoLog]
    ensures var t := HalfOpen(wb - 4096); |t.zones| == 1 == t.open == t.active && t.logs == [NoLog]
  {
  }

  lemma HalfReleases(oneshot: nat, released: nat)
    requires (oneshot == 1 && released == 4096) || (oneshot == 2 && released == 0)
    ensures var p := Tiny(oneshot); p.Ok() && p.Start(0) == 0 && ReleaseLoop(p, 0, 1) == released
  {
  }

  lemma HalfWp(oneshot: nat, wb: nat)
    requires 4096 <= wb
    ensures IncreaseWp(Tiny(oneshot), HalfOpen(wb - 4096), 0, 8) == HalfMoved(wb - 4096)
  {
    assert IncreaseWp(Tiny(oneshot), HalfOpen(wb - 4096), 0, 8).zones == [Zone(OpenedImpl, 0, 8, false)];
  }

  lemma StepForget(oneshot: nat, wb: nat, released: nat)
    requires 0 < oneshot
    ensures Steps(Tiny(oneshot), Half(wb, released), 8192, Send(ActReset, 0, false, false), Bare(wb))
  {
    hide Inv;
  }

  lemma StepArea()
    ensures Steps(TinyNamespace(), Bare(0), 8192, Send(ActOpen, 0, false, true), Area())
  {
    hide Inv;
  }

  lemma HalfRefuses()
    ensures Inv(TinyNamespace(), Half(0, 4096)) ==>
      WriteCommand(TinyNamespace(), Half(0, 4096), 0, 8, true) == Effect(Half(0, 4096), Retry, 8)
  {
    hide Inv;
  }

  lemma AreaWrites()
    ensures Inv(TinyNamespace(), Area()) ==>
      WriteCommand(TinyNamespace(), Area(), 0, 8, true) == Effect(Area(), Done(Success), 0)
    ensures Inv(TinyNamespace(), Area()) ==>
      var e := WriteCommand(TinyNamespace(), Area(), 8, 8, true);
      e.outcome == Done(Success) && e.addr == 8 && e.after.zones == [Zone(Full, 0, 16, true)]
  {
    AreaMoves();
    hide Inv, ZrwaMove, WriteCommand;
    if Inv(TinyNamespace(), Area()) {
      IntoOpenArea(Area(), 0, 8);
      IntoOpenArea(Area(), 8, 8);
    }
  }

  /** An admissible write to an open random write area is its implicit flush. */
  lemma IntoOpenArea(s: State, slba: nat, nlb: nat)
    requires Inv(TinyNamespace(), s) && |s.zones| == 1 == |s.zbuf| && s.open > 0 && s.active > 0
    requires IsOpen(s.zones[0]) && s.zones[0].zrwav && s.zones[0].wp == 0
    requires 0 < nlb && nlb % 8 == 0 && slba + nlb <= 16
    ensures var m := ZrwaMove(TinyNamespace(), s, 0, slba + nlb - 1);
      WriteCommand(TinyNamespace(), s, slba, nlb, true) == Effect(m.0, m.1, slba)
  {
    hide Inv, ZrwaMove;
    assert nlb * LBA_SIZE % 4096 == 0;
  }

  lemma AreaMoves()
    ensures ZrwaMove(TinyNamespace(), Area(), 0, 7) == (Area(), Done(Success))
    ensures var m := ZrwaMove(TinyNamespace(), Area(), 0, 15);
      m.0.zones == [Zone(Full, 0, 16, true)] && m.1 == Done(Success)
  {
    AreaFlush();
    AreaWp();
    hide ZrwaFlush, IncreaseWp, TinyNamespace;
  }

  lemma AreaFlush()
    ensures var p := TinyNamespace();
      p.Ok() && p.HasZrwa() && ZrwaFlush(p, 0, 0, 15) == 16 && ZrwaFlush(p, 0, 0, 7) == 0
  {
  }

  lemma AreaWp()
    ensures IncreaseWp(TinyNamespace(), Area(), 0, 16).zones == [Zone(Full, 0, 16, true)]
  {
    assert Area().zones == [Zone(OpenedExpl, 0, 0, true)];
  }

  // ---------- bytes lost by resets ----------

  /** A one-shot page of two pages: a page written and the zone reset, twice, and a new namespace has an empty
      buffer. */
  lemma ResetsEmptyBuffer()
    ensures var p, write, reset := Tiny(2), Write(0, 8, false), Send(ActReset, 0, false, false);
      Reaches(p, Initial(p, 8192, 8192), 8192, [write, reset, write, reset], Initial(p, 8192, 0))
  {
    hide *;
    var p := Tiny(2);
    BufferEmptied(p, Write(0, 8, false), Send(ActReset, 0, false, false));
  }

  lemma BufferEmptied(p: Params, c: Command, d: Command)
    requires p == Tiny(2) && c == Write(0, 8, false) && d == Send(ActReset, 0, false, false)
    ensures Reaches(p, Initial(p, 8192, 8192), 8192, [c, d, c, d], Initial(p, 8192, 0))
  {
    hide *;
    TwicePartial(p, c, d);
    ReachesFour(p, Bare(8192), 8192, c, Half(4096, 0), d, Bare(4096), c, Half(0, 0), d, Bare(0));
  }

  lemma TwicePartial(p: Params, c: Command, d: Command)
    requires p == Tiny(2) && c == Write(0, 8, false) && d == Send(ActReset, 0, false, false)
    ensures Initial(p, 8192, 8192) == Bare(8192) && Initial(p, 8192, 0) == Bare(0) && Inv(p, Bare(8192))
    ensures Steps(p, Bare(8192), 8192, c, Half(4096, 0)) && Steps(p, Half(4096, 0), 8192, d, Bare(4096))
    ensures Steps(p, Bare(4096), 8192, c, Half(0, 0)) && Steps(p, Half(0, 0), 8192, d, Bare(0))
  {
    hide *;
    BareStart(2, 8192);
    BareStart(2, 0);
    StepHalf(2, 8192, 0);
    StepForget(2, 4096, 0);
    StepHalf(2, 4096, 0);
    StepForget(2, 0, 0);
  }

  // ---------- a namespace without random write areas ----------

  function NoAreas(): (p: Params) { Params(1, 16, 1, 4096, 0, 0, 0, 1, 1, 1) }

  function Opened0(): State { OneZone(Zone(OpenedExpl, 0, 0, true), 65536, 0, 0, NoLog) }

  /** It accepts an open with a random write area; then a write and an explicit flush both divide by zero. */
  lemma NoAreasDivides()
    ensures Reaches(NoAreas(), Initial(NoAreas(), 0, 65536), 0, [Send(ActOpen, 0, false, true)], Opened0())
    ensures WriteCommand(NoAreas(), Opened0(), 0, 8, false).outcome == Fault
    ensures SendOne(NoAreas(), Opened0(), 0, ActFlush, 0, false).1 == DivideFault
  {
    hide *;
    NoAreasReached(NoAreas(), Send(ActOpen, 0, false, true));
    AreaDivides();
  }

  lemma NoAreasReached(p: Params, c: Command)
    requires p == NoAreas() && c == Send(ActOpen, 0, false, true)
    ensures Reaches(p, Initial(p, 0, 65536), 0, [c], Opened0()) && Inv(p, Opened0())
  {
    InitialInv(p, 0, 65536);
    StepOpened0();
    hide Inv, Steps, Reaches, Run, Initial, NoAreas, Opened0;
    ReachesOne(p, Initial(p, 0, 65536), 0, c, Opened0());
  }

  lemma StepOpened0()
    ensures Steps(NoAreas(), Initial(NoAreas(), 0, 65536), 0, Send(ActOpen, 0, false, true), Opened0())
  {
    var s := Initial(NoAreas(), 0, 65536);
    assert s == OneZone(Zone(Empty, 0, 0, false), 65536, 0, 0, NoLog);
    hide Inv;
  }

  lemma AreaDivides()
    ensures Inv(NoAreas(), Opened0()) ==>
      && WriteCommand(NoAreas(), Opened0(), 0, 8, false).outcome == Fault
      && SendOne(NoAreas(), Opened0(), 0, ActFlush, 0, false).1 == DivideFault
  {
    if Inv(NoAreas(), Opened0()) {
      WriteDivides(NoAreas(), Opened0(), 0, 8);
      AllReleasable(NoAreas(), Opened0(), 0);
      FlushDivides(NoAreas(), Opened0(), 0);
    }
    hide Inv, WriteZrwa, FlushZone;
  }
}
