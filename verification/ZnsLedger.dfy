/** Where the bytes of a write buffer go over a whole run of commands: what the worker gave back, what was scheduled
    for it to give back, what is in partly filled one-shot pages, and what is lost. */
module ZnsLedger {
  import opened Arith
  import opened Zns

  /** Bytes of the partly filled one-shot page of a plain zone: allocated and not yet scheduled for release. */
  function Partial(p: Params, z: Zone): nat
    requires p.Ok()
  {
    if z.zrwav || z.wp <= z.zslba || z.wp == z.zslba + p.zoneLbas then 0
    else (z.wp - z.zslba) / SECS_PER_PG % p.oneshot * PG_SIZE
  }

  /** Those of the first `n` zones that use buffer `w`. */
  function Held(p: Params, zs: seq<Zone>, w: nat, n: nat): nat
    requires p.Ok() && n <= |zs|
  {
    if n == 0 then 0 else Held(p, zs, w, n - 1) + if p.WbIndex(n - 1) == w then Partial(p, zs[n - 1]) else 0
  }

  lemma {:induction false} HeldUpdate(p: Params, zs: seq<Zone>, zs': seq<Zone>, w: nat, n: nat, zid: nat)
    requires p.Ok() && n <= |zs| == |zs'| && zid < |zs| && forall i :: 0 <= i < |zs| && i != zid ==> zs'[i] == zs[i]
    ensures Held(p, zs', w, n) + (if zid < n && p.WbIndex(zid) == w then Partial(p, zs[zid]) else 0)
         == Held(p, zs, w, n) + (if zid < n && p.WbIndex(zid) == w then Partial(p, zs'[zid]) else 0)
  {
    hide Partial;
    if n > 0 { HeldUpdate(p, zs, zs', w, n - 1, zid); }
  }

  lemma {:induction false} HeldNone(p: Params, zs: seq<Zone>, w: nat, n: nat)
    requires p.Ok() && n <= |zs| && forall i :: 0 <= i < |zs| ==> Partial(p, zs[i]) == 0
    ensures Held(p, zs, w, n) == 0
  {
    if n > 0 { HeldNone(p, zs, w, n - 1); }
  }

  /** What a command does with the bytes of one buffer, beside allocating them. */
  datatype Flow = Flow(refilled: nat, scheduled: nat, lost: nat)

  const NoFlow: Flow := Flow(0, 0, 0)

  function Plus(a: Flow, b: Flow): Flow {
    Flow(a.refilled + b.refilled, a.scheduled + b.scheduled, a.lost + b.lost)
  }

  /** A write that is not admissible loses the bytes that it took, a reset loses the partly filled one-shot page. */
  function FlowOf(p: Params, s: State, c: Command, w: nat): Flow
    requires Inv(p, s) && InRange(p, c)
  {
    match c
    case Write(lba, nlb, append) =>
      var zid := p.Zid(lba);
      if s.zones[zid].zrwav || p.WbIndex(zid) != w || s.wb[w] < nlb * LBA_SIZE then NoFlow
      else if !PlainAdmissible(p, s, lba, nlb, append) then Flow(0, 0, nlb * LBA_SIZE)
      else Flow(0, ScheduledBy(p, s.zones[zid], nlb), 0)
    case Send(action, lba, selectAll, zrwa) =>
      if !action.ActReset? then NoFlow
      else if selectAll then Flow(0, 0, Held(p, s.zones, w, p.nrZones))
      else Flow(0, 0, if p.WbIndex(p.Zid(lba)) == w then Partial(p, s.zones[p.Zid(lba)]) else 0)
    case RefillWb(v, bytes) => if v == w then Flow(bytes, 0, 0) else NoFlow
    case RefillZrwa(zid, bytes) => NoFlow
  }

  /** What the release loop of an accepted write of `nlb` blocks schedules. */
  function ScheduledBy(p: Params, z: Zone, nlb: nat): nat
    requires p.Ok() && z.zslba <= z.wp && 0 < nlb
  {
    ReleaseLoop(p, (z.wp - z.zslba) / SECS_PER_PG, (z.wp + nlb - 1 - z.zslba) / SECS_PER_PG + 1)
  }

  // ---------- every command balances ----------

  ghost predicate Balanced(p: Params, s: State, s': State, w: nat, f: Flow)
    requires Inv(p, s) && Inv(p, s') && w < |s.wb|
  {
    s.wb[w] + Held(p, s.zones, w, p.nrZones) + f.refilled
    == s'.wb[w] + Held(p, s'.zones, w, p.nrZones) + f.scheduled + f.lost
  }

  lemma PartialIsUnscheduled(p: Params, s: State, zid: nat)
    requires Inv(p, s) && zid < p.nrZones && !s.zones[zid].zrwav && p.writeUnit % PG_SIZE == 0
    ensures s.logs[zid].released + Partial(p, s.zones[zid]) == s.logs[zid].reserved
  {
    BufferBalance(p, s, zid);
    assert ZoneOk(p, zid, s.zones[zid]);
    if s.zones[zid].wp == p.Start(zid) { DivModUnique(0, p.oneshot, 0, 0); }
    hide Inv;
  }

  lemma WriteBalanced(p: Params, s: State, lba: nat, nlb: nat, append: bool, w: nat)
    requires Inv(p, s) && InRange(p, Write(lba, nlb, append)) && w < |s.wb| && p.writeUnit % PG_SIZE == 0
    requires Inv(p, WriteCommand(p, s, lba, nlb, append).after)
    ensures Balanced(p, s, WriteCommand(p, s, lba, nlb, append).after, w, FlowOf(p, s, Write(lba, nlb, append), w))
  {
    var zid, s' := p.Zid(lba), WriteCommand(p, s, lba, nlb, append).after;
    assert ZoneOk(p, zid, s.zones[zid]);
    if s.zones[zid].zrwav {
      ZrwaKeepsPartial(p, s, lba, nlb);
      HeldUpdate(p, s.zones, s'.zones, w, p.nrZones, zid);
    } else {
      RejectedWriteKeepsBytes(p, s, lba, nlb, append);
      if s.wb[p.WbIndex(zid)] >= nlb * LBA_SIZE && PlainAdmissible(p, s, lba, nlb, append) {
        AcceptedFlow(p, s, lba, nlb, append);
        HeldUpdate(p, s.zones, s'.zones, w, p.nrZones, zid);
      }
    }
    hide Inv, ZoneOk, WriteCommand, WritePlain, WriteZrwa, Held, Partial, PlainAdmissible;
  }

  lemma ZrwaKeepsPartial(p: Params, s: State, lba: nat, nlb: nat)
    requires Inv(p, s) && p.Zid(lba) < p.nrZones && 0 < nlb && s.zones[p.Zid(lba)].zrwav
    ensures var s' := WriteZrwa(p, s, lba, nlb).0;
      && s'.wb == s.wb && |s'.zones| == |s.zones| && s'.zones[p.Zid(lba)].zrwav
      && forall i :: 0 <= i < p.nrZones && i != p.Zid(lba) ==> s'.zones[i] == s.zones[i]
  {
    assert ZoneOk(p, p.Zid(lba), s.zones[p.Zid(lba)]);
    AllReleasable(p, s, p.Zid(lba));
    hide Inv, ZrwaFlush;
  }

  /** An accepted write takes its bytes and schedules some; no other zone changes. */
  lemma AcceptedPlain(p: Params, s: State, lba: nat, nlb: nat, append: bool)
    requires Inv(p, s) && p.Zid(lba) < p.nrZones && 0 < nlb && !s.zones[p.Zid(lba)].zrwav
    requires nlb * LBA_SIZE <= s.wb[p.WbIndex(p.Zid(lba))] && PlainAdmissible(p, s, lba, nlb, append)
    requires s.zones[p.Zid(lba)].zslba <= s.zones[p.Zid(lba)].wp
    ensures var zid, s' := p.Zid(lba), WritePlain(p, s, lba, nlb, append).0; var w := p.WbIndex(zid);
      && Inv(p, s') && |s'.zones| == |s.zones| == |s.logs| == |s'.logs| == p.nrZones
      && s'.wb == s.wb[w := s.wb[w] - nlb * LBA_SIZE] && !s'.zones[zid].zrwav
      && (forall i :: 0 <= i < p.nrZones && i != zid ==> s'.zones[i] == s.zones[i])
      && s'.logs[zid].reserved == s.logs[zid].reserved + nlb * LBA_SIZE
      && s'.logs[zid].released == s.logs[zid].released + ScheduledBy(p, s.zones[zid], nlb)
  {
    var zid := p.Zid(lba);
    ZoneStart(p, s, zid);
    InvSizes(p, s);
    PlainAccepted(p, s, lba, nlb, append);
    PlainInv(p, s, lba, nlb, append);
    var t, s' := Opened(p, s, zid, nlb), WritePlain(p, s, lba, nlb, append).0;
    assert s' == AcceptWrite(p, t, zid, s.zones[zid].wp, nlb);
    hide *;
    InvSizes(p, s');
    OpenedFields(p, s, zid, nlb);
    AcceptedFields(p, t, zid, nlb);
    SameSchedule(p, s.zones[zid], t.zones[zid], nlb);
  }

  /** So the partly filled page changes by the difference. */
  lemma AcceptedFlow(p: Params, s: State, lba: nat, nlb: nat, append: bool)
    requires Inv(p, s) && p.Zid(lba) < p.nrZones && 0 < nlb && !s.zones[p.Zid(lba)].zrwav && p.writeUnit % PG_SIZE == 0
    requires nlb * LBA_SIZE <= s.wb[p.WbIndex(p.Zid(lba))] && PlainAdmissible(p, s, lba, nlb, append)
    requires s.zones[p.Zid(lba)].zslba <= s.zones[p.Zid(lba)].wp
    ensures var zid, s' := p.Zid(lba), WritePlain(p, s, lba, nlb, append).0; var w := p.WbIndex(zid);
      && s'.wb == s.wb[w := s.wb[w] - nlb * LBA_SIZE] && |s'.zones| == |s.zones| == p.nrZones
      && (forall i :: 0 <= i < p.nrZones && i != zid ==> s'.zones[i] == s.zones[i])
      && nlb * LBA_SIZE + Partial(p, s.zones[zid]) == ScheduledBy(p, s.zones[zid], nlb) + Partial(p, s'.zones[zid])
  {
    AcceptedPlain(p, s, lba, nlb, append);
    hide Inv, WritePlain, PlainAdmissible, Partial, ScheduledBy;
    PartialIsUnscheduled(p, s, p.Zid(lba));
    PartialIsUnscheduled(p, WritePlain(p, s, lba, nlb, append).0, p.Zid(lba));
  }

  lemma SameSchedule(p: Params, z: Zone, z': Zone, nlb: nat)
    requires p.Ok() && z.zslba <= z.wp && 0 < nlb && z' == z.(state := z'.state)
    ensures ScheduledBy(p, z', nlb) == ScheduledBy(p, z, nlb)
  {
  }

  lemma ZoneStart(p: Params, s: State, zid: nat)
    requires Inv(p, s) && zid < p.nrZones
    ensures |s.zones| == p.nrZones && s.zones[zid].zslba == p.Start(zid) && p.WbIndex(zid) < |s.wb|
  {
    assert ZoneOk(p, zid, s.zones[zid]);
  }

  lemma OpenedFields(p: Params, s: State, zid: nat, nlb: nat)
    requires zid < |s.zones| && p.WbIndex(zid) < |s.wb| && nlb * LBA_SIZE <= s.wb[p.WbIndex(zid)]
    ensures var t, w := Opened(p, s, zid, nlb), p.WbIndex(zid);
      && t.wb == s.wb[w := s.wb[w] - nlb * LBA_SIZE] && t.logs == s.logs && |t.zones| == |s.zones|
      && t.zones[zid] == s.zones[zid].(state := t.zones[zid].state)
      && forall i :: 0 <= i < |s.zones| && i != zid ==> t.zones[i] == s.zones[i]
  {
  }

  lemma AcceptedFields(p: Params, t: State, zid: nat, nlb: nat)
    requires p.Ok() && zid < |t.zones| == |t.logs| && t.open > 0 && t.active > 0 && 0 < nlb
    requires t.zones[zid].zslba == p.Start(zid) <= t.zones[zid].wp
    ensures var z, s' := t.zones[zid], AcceptWrite(p, t, zid, t.zones[zid].wp, nlb);
      && s'.wb == t.wb && |s'.zones| == |t.zones| && |s'.logs| == |t.logs| && s'.zones[zid].zrwav == z.zrwav
      && (forall i :: 0 <= i < |t.zones| && i != zid ==> s'.zones[i] == t.zones[i])
      && s'.logs[zid].reserved == t.logs[zid].reserved + nlb * LBA_SIZE
      && s'.logs[zid].released == t.logs[zid].released + ScheduledBy(p, z, nlb)
  {
    hide ReleaseLoop;
  }

  /** What a management command leaves of the partly filled page of a zone. */
  ghost predicate PartialAfter(p: Params, action: Action, z: Zone, z': Zone)
    requires p.Ok()
  {
    Partial(p, z') == if action.ActReset? then 0 else Partial(p, z)
  }

  lemma SendOnePartial(p: Params, s: State, full: nat, action: Action, lba: nat, zrwa: bool)
    requires Inv(p, s) && p.Zid(lba) < p.nrZones
    ensures var s' := SendOne(p, s, full, action, lba, zrwa).0; var zid := p.Zid(lba);
      && s'.wb == s.wb && |s'.zones| == |s.zones| && PartialAfter(p, action, s.zones[zid], s'.zones[zid])
      && forall i :: 0 <= i < p.nrZones && i != zid ==> s'.zones[i] == s.zones[i]
  {
    SendOneOutcome(p, s, full, action, lba, zrwa);
    assert ZoneOk(p, p.Zid(lba), s.zones[p.Zid(lba)]);
    hide Inv, SendOne;
  }

  lemma {:induction false} SendAllPartial(p: Params, s: State, full: nat, action: Action, zrwa: bool, zid: nat)
    requires Inv(p, s) && zid <= p.nrZones
    ensures var s' := SendAll(p, s, full, action, zrwa, zid);
      && s'.wb == s.wb && |s'.zones| == |s.zones| == p.nrZones
      && (forall i :: 0 <= i < zid ==> s'.zones[i] == s.zones[i])
      && (forall i :: zid <= i < p.nrZones ==> PartialAfter(p, action, s.zones[i], s'.zones[i]))
    decreases p.nrZones - zid
  {
    InvSizes(p, s);
    if zid < p.nrZones {
      StartInRange(p, zid);
      SendOneInv(p, s, full, action, p.Start(zid), zrwa);
      SendOnePartial(p, s, full, action, p.Start(zid), zrwa);
      var t := SendOne(p, s, full, action, p.Start(zid), zrwa).0;
      SendAllPartial(p, t, full, action, zrwa, zid + 1);
      hide Inv, SendOne, PartialAfter;
    }
  }

  lemma {:induction false} HeldSame(p: Params, zs: seq<Zone>, zs': seq<Zone>, w: nat, n: nat)
    requires p.Ok() && n <= |zs| == |zs'| && forall i :: 0 <= i < |zs| ==> Partial(p, zs'[i]) == Partial(p, zs[i])
    ensures Held(p, zs', w, n) == Held(p, zs, w, n)
  {
    if n > 0 { HeldSame(p, zs, zs', w, n - 1); }
  }

  lemma SendBalanced(p: Params, s: State, full: nat, action: Action, lba: nat, selectAll: bool, zrwa: bool, w: nat)
    requires Inv(p, s) && InRange(p, Send(action, lba, selectAll, zrwa)) && w < |s.wb|
    requires Inv(p, Exec(p, s, full, Send(action, lba, selectAll, zrwa)))
    ensures var c := Send(action, lba, selectAll, zrwa); Balanced(p, s, Exec(p, s, full, c), w, FlowOf(p, s, c, w))
  {
    var s' := Exec(p, s, full, Send(action, lba, selectAll, zrwa));
    InvSizes(p, s);
    if selectAll {
      SendAllPartial(p, s, full, action, zrwa, 0);
      if action.ActReset? {
        assert forall i :: 0 <= i < p.nrZones ==> PartialAfter(p, action, s.zones[i], s'.zones[i]);
        HeldNone(p, s'.zones, w, p.nrZones);
      } else {
        assert forall i :: 0 <= i < p.nrZones ==> PartialAfter(p, action, s.zones[i], s'.zones[i]);
        HeldSame(p, s.zones, s'.zones, w, p.nrZones);
      }
    } else {
      SendOnePartial(p, s, full, action, lba, zrwa);
      HeldUpdate(p, s.zones, s'.zones, w, p.nrZones, p.Zid(lba));
    }
    hide Inv, SendOne, SendAll, Held, Partial;
  }

  lemma ExecBalanced(p: Params, s: State, full: nat, c: Command, w: nat)
    requires Inv(p, s) && InRange(p, c) && w < |s.wb| && p.writeUnit % PG_SIZE == 0
    ensures Inv(p, Exec(p, s, full, c)) && Balanced(p, s, Exec(p, s, full, c), w, FlowOf(p, s, c, w))
  {
    ExecInv(p, s, full, c);
    match c
    case Write(lba, nlb, append) =>
      hide Inv, Balanced, FlowOf, WriteCommand;
      WriteBalanced(p, s, lba, nlb, append, w);
    case Send(action, lba, selectAll, zrwa) =>
      hide Inv, Balanced, FlowOf, SendOne, SendAll;
      SendBalanced(p, s, full, action, lba, selectAll, zrwa, w);
    case RefillWb(v, bytes) => hide Inv, Held;
    case RefillZrwa(zid, bytes) => hide Inv, Held;
  }

  // ---------- whole runs ----------

  ghost function RunFlow(p: Params, s: State, full: nat, cs: seq<Command>, w: nat): Flow
    requires Inv(p, s) && forall i :: 0 <= i < |cs| ==> InRange(p, cs[i])
    decreases |cs|
  {
    if cs == [] then NoFlow else
    ExecInv(p, s, full, cs[0]);
    Plus(FlowOf(p, s, cs[0], w), RunFlow(p, Exec(p, s, full, cs[0]), full, cs[1..], w))
  }

  /** The ledger of a buffer over any run: what it had and what came back is what it has left, what was scheduled, what
      partly filled pages hold more, and what was lost. */
  lemma {:induction false} RunBalanced(p: Params, s: State, full: nat, cs: seq<Command>, w: nat)
    requires Inv(p, s) && (forall i :: 0 <= i < |cs| ==> InRange(p, cs[i])) && w < |s.wb| && p.writeUnit % PG_SIZE == 0
    ensures w < |Run(p, s, full, cs).wb| && Balanced(p, s, Run(p, s, full, cs), w, RunFlow(p, s, full, cs, w))
    decreases |cs|
  {
    hide Inv, Exec, InRange, Held, FlowOf;
    if cs != [] {
      ExecBalanced(p, s, full, cs[0], w);
      SameBuffers(p, s, Exec(p, s, full, cs[0]));
      RunBalanced(p, Exec(p, s, full, cs[0]), full, cs[1..], w);
    }
  }

  lemma SameBuffers(p: Params, s: State, s': State)
    requires Inv(p, s) && Inv(p, s')
    ensures |s.wb| == |s'.wb|
  {
  }

  /** From the start on, when the worker has given back all that was scheduled: the buffer lacks exactly what partly
      filled pages hold and what rejected writes and resets have lost for ever. */
  lemma LostForEver(p: Params, zrwaBuffer: nat, writeBuffer: nat, cs: seq<Command>, w: nat)
    requires p.Ok() && (forall i :: 0 <= i < |cs| ==> InRange(p, cs[i])) && p.writeUnit % PG_SIZE == 0
    requires w < if p.zoneWb > 0 then p.nrZones else 1
    ensures Inv(p, Initial(p, zrwaBuffer, writeBuffer))
    ensures var s0 := Initial(p, zrwaBuffer, writeBuffer);
      var s, f := Run(p, s0, zrwaBuffer, cs), RunFlow(p, s0, zrwaBuffer, cs, w);
      && w < |s.wb| && |s.zones| == p.nrZones
      && (f.refilled == f.scheduled ==>
            s.wb[w] + Held(p, s.zones, w, p.nrZones) + f.lost == if p.zoneWb > 0 then p.zoneWb else writeBuffer)
  {
    var s0 := Initial(p, zrwaBuffer, writeBuffer);
    InitialInv(p, zrwaBuffer, writeBuffer);
    assert forall i :: 0 <= i < p.nrZones ==> s0.zones[i] == Zone(Empty, p.Start(i), p.Start(i), false);
    HeldNone(p, s0.zones, w, p.nrZones);
    RunBalanced(p, s0, zrwaBuffer, cs, w);
    InvSizes(p, Run(p, s0, zrwaBuffer, cs));
    hide Inv, Run, RunFlow, Held;
  }

  /** What a reset loses: the partly filled page of its zone, which no later command schedules, since the zone starts
      anew. */
  lemma ResetLoses(p: Params, s: State, zid: nat, full: nat)
    requires Inv(p, s) && zid < p.nrZones && !s.zones[zid].zrwav && p.writeUnit % PG_SIZE == 0 && Releasable(s, zid)
    ensures var s' := ResetZone(s, zid, full).0;
      && s'.wb == s.wb && s'.logs[zid] == Log([], 0, 0)
      && s.logs[zid].reserved - s.logs[zid].released == Partial(p, s.zones[zid]) && Partial(p, s'.zones[zid]) == 0
  {
    PartialIsUnscheduled(p, s, zid);
    assert ZoneOk(p, zid, s.zones[zid]);
    hide Inv;
  }
}
