/** The zns_ftl object: the zone descriptors, resource counters and buffers that the commands
    update in place.  Every method is proved to do the step of `Zns` that it implements. */
module ZnsFtl {
  import opened Zns

  datatype Resource = ActiveRes | OpenRes | ZrwaRes

  class ZnsFtl {
    const p: Params
    const zrwaBufferSize: nat
    var zones: seq<Zone>
    var open: nat
    var active: nat
    var zrwa: nat
    var wb: seq<nat>
    var zbuf: seq<nat>
    ghost var fills: nat
    ghost var logs: seq<Log>

    ghost function View(): State
      reads this
    {
      State(zones, open, active, zrwa, wb, zbuf, fills, logs)
    }

    /** __init_descriptor and __init_resource. */
    constructor (p: Params, zrwaBufferSize: nat, writeBufferSize: nat)
      requires p.Ok()
      ensures this.p == p && View() == Initial(p, zrwaBufferSize, writeBufferSize) && Inv(p, View())
    {
      this.p, this.zrwaBufferSize := p, zrwaBufferSize;
      open, active, zrwa, fills := 0, 0, 0, 0;
      zones := seq<Zone>(p.nrZones, i requires 0 <= i => Zone(Empty, p.Start(i), p.Start(i), false));
      wb := seq(if p.zoneWb > 0 then p.nrZones else 1, _ => if p.zoneWb > 0 then p.zoneWb else writeBufferSize);
      zbuf := seq(p.nrZones, _ => zrwaBufferSize);
      logs := seq(p.nrZones, _ => Log([], 0, 0));
      new;
      InitialInv(p, zrwaBufferSize, writeBufferSize);
      hide Inv;
    }

    function Acquired(r: Resource): nat
      reads this
    {
      match r case ActiveRes => active case OpenRes => open case ZrwaRes => zrwa
    }

    function Total(r: Resource): nat {
      match r case ActiveRes => p.maxActive case OpenRes => p.maxOpen case ZrwaRes => p.maxZrwa
    }

    /** acquire_zone_resource. */
    method Acquire(r: Resource) returns (ok: bool)
      modifies this`active, this`open, this`zrwa
      ensures ok <==> old(Acquired(r)) < Total(r)
      ensures open == old(open) + B(ok && r.OpenRes?) && active == old(active) + B(ok && r.ActiveRes?)
      ensures zrwa == old(zrwa) + B(ok && r.ZrwaRes?)
    {
      ok := Acquired(r) < Total(r);
      if ok {
        match r
        case ActiveRes => active := active + 1;
        case OpenRes => open := open + 1;
        case ZrwaRes => zrwa := zrwa + 1;
      }
    }

    /** release_zone_resource, with its assertion as precondition. */
    method Release(r: Resource)
      requires Acquired(r) > 0
      modifies this`active, this`open, this`zrwa
      ensures open == old(open) - B(r.OpenRes?) && active == old(active) - B(r.ActiveRes?)
      ensures zrwa == old(zrwa) - B(r.ZrwaRes?)
    {
      match r
      case ActiveRes => active := active - 1;
      case OpenRes => open := open - 1;
      case ZrwaRes => zrwa := zrwa - 1;
    }

    /** change_zone_state. */
    method ChangeState(zid: nat, st: ZoneState)
      requires zid < |zones|
      modifies this`zones
      ensures zones == old(zones)[zid := old(zones)[zid].(state := st)]
    {
      zones := zones[zid := zones[zid].(state := st)];
    }

    method Close(zid: nat) returns (status: Status)
      requires zid < |zones| && Releasable(View(), zid)
      modifies this
      ensures (View(), status) == CloseZone(old(View()), zid)
    {
      status := Success;
      match zones[zid].state {
        case OpenedImpl | OpenedExpl => ChangeState(zid, Closed); Release(OpenRes);
        case Closed =>
        case _ => status := InvalidTransition;
      }
    }

    /** The fall-through of finish and reset. */
    method ReleaseHeld(z: Zone)
      requires (IsOpen(z) ==> open > 0) && (IsActive(z) ==> active > 0) && (HoldsZrwa(z) ==> zrwa > 0)
      modifies this`active, this`open, this`zrwa
      ensures View() == ReleaseAll(old(View()), z)
    {
      if IsOpen(z) { Release(OpenRes); }
      if IsActive(z) {
        Release(ActiveRes);
        if z.zrwav { Release(ZrwaRes); }
      }
    }

    method Finish(zid: nat) returns (status: Status)
      requires zid < |zones| && Releasable(View(), zid)
      modifies this
      ensures (View(), status) == FinishZone(old(View()), zid)
    {
      status := Success;
      match zones[zid].state {
        case OpenedImpl | OpenedExpl | Closed => ReleaseHeld(zones[zid]); ChangeState(zid, Full);
        case Empty => ChangeState(zid, Full);
        case Full =>
        case _ => status := InvalidTransition;
      }
    }

    method Open(zid: nat, withZrwa: bool) returns (status: Status)
      requires zid < |zones| && open <= p.maxOpen && active <= p.maxActive && zrwa <= p.maxZrwa
      modifies this
      ensures (View(), status) == OpenZone(p, old(View()), zid, withZrwa)
    {
      var ok;
      var st := zones[zid].state;
      match st {
        case Empty =>
          if active == p.maxActive { return NoActiveZone; }
          if open == p.maxOpen { return NoOpenZone; }
          if withZrwa {
            if zrwa == p.maxZrwa { return ZrwaUnavail; }
            ok := Acquire(ZrwaRes);
            zones := zones[zid := zones[zid].(zrwav := true)];
          }
          ok := Acquire(ActiveRes);
          ok := Acquire(OpenRes);
          if !ok { return NoOpenZone; }
        case Closed =>
          ok := Acquire(OpenRes);
          if !ok { return NoOpenZone; }
        case OpenedImpl =>
        case OpenedExpl => return Success;
        case _ => return InvalidTransition;
      }
      ChangeState(zid, OpenedExpl);
      assert zones == old(zones)[zid := zones[zid]];
      return Success;
    }

    method Reset(zid: nat) returns (status: Status)
      requires zid < |zones| == |zbuf| == |logs| && Releasable(View(), zid)
      modifies this
      ensures (View(), status) == ResetZone(old(View()), zid, zrwaBufferSize)
    {
      if zones[zid].state.ReadOnly? || zones[zid].state.Offline? { return InvalidTransition; }
      ReleaseHeld(zones[zid]);
      ChangeState(zid, Empty);
      zones := zones[zid := zones[zid].(wp := zones[zid].zslba, zrwav := false)];
      if zrwaBufferSize > 0 { zbuf := zbuf[zid := zrwaBufferSize]; }
      logs := logs[zid := Log([], 0, 0)];
      assert zones == old(zones)[zid := zones[zid]];
      return Success;
    }

    method TakeOffline(zid: nat) returns (status: Status)
      requires zid < |zones|
      modifies this
      ensures (View(), status) == OfflineZone(old(View()), zid)
    {
      status := Success;
      match zones[zid].state {
        case ReadOnly => ChangeState(zid, Offline);
        case Offline =>
        case _ => status := InvalidTransition;
      }
    }

    method FlushExplicit(slba: nat) returns (status: Status)
      requires p.Ok() && p.Zid(slba) < |zones| && Releasable(View(), p.Zid(slba))
      modifies this
      ensures (View(), status) == FlushZone(p, old(View()), slba)
    {
      var zid := p.Zid(slba);
      var wp := zones[zid].wp;
      if !zones[zid].zrwav { return InvalidZoneOperation; }
      if !(slba >= wp && BelowWindowEnd(wp + p.zrwaLbas, slba) && slba < p.End(zid)) { return InvalidZoneOperation; }
      if !p.HasZrwa() { return DivideFault; }
      if (slba - wp + 1) % p.zrwafgLbas != 0 { return InvalidField; }
      var st := zones[zid].state;
      if !(st.OpenedExpl? || st.OpenedImpl? || st.Closed?) { return InvalidZoneOperation; }
      zones := zones[zid := zones[zid].(wp := slba + 1)];
      if zones[zid].wp == p.End(zid) {
        if !st.Closed? { Release(OpenRes); }
        Release(ActiveRes);
        Release(ZrwaRes);
        ChangeState(zid, Full);
      }
      assert zones == old(zones)[zid := zones[zid]];
      return Success;
    }

    /** __zmgmt_send. */
    method Send(action: Action, lba: nat, withZrwa: bool) returns (status: Status)
      requires Inv(p, View()) && p.Zid(lba) < p.nrZones
      modifies this
      ensures Inv(p, View()) && (View(), status) == SendOne(p, old(View()), zrwaBufferSize, action, lba, withZrwa)
    {
      var zid := p.Zid(lba);
      AllReleasable(p, View(), zid);
      CountersBound(p, View());
      assert ZoneOk(p, zid, zones[zid]);
      SendOneInv(p, View(), zrwaBufferSize, action, lba, withZrwa);
      hide Counters, ZoneOk, LogOk, CloseZone, FinishZone, OpenZone, ResetZone, OfflineZone, FlushZone;
      match action {
        case ActClose => status := Close(zid);
        case ActFinish => status := Finish(zid);
        case ActOpen => status := Open(zid, withZrwa);
        case ActReset => status := Reset(zid);
        case ActOffline => status := TakeOffline(zid);
        case ActFlush => status := FlushExplicit(lba);
      }
    }

    /** zns_zmgmt_send; with select_all the statuses of the zones are dropped. */
    method ZoneManagementSend(action: Action, lba: nat, selectAll: bool, withZrwa: bool) returns (status: Status)
      requires Inv(p, View()) && (selectAll || p.Zid(lba) < p.nrZones)
      modifies this
      ensures Inv(p, View())
      ensures View() == Exec(p, old(View()), zrwaBufferSize, Command.Send(action, lba, selectAll, withZrwa))
      ensures !selectAll ==> status == SendOne(p, old(View()), zrwaBufferSize, action, lba, withZrwa).1
      ensures !selectAll ==> (status == Success <==> Admissible(p, old(View()), action, lba, withZrwa))
      ensures selectAll ==> status == Success
    {
      hide Counters, ZoneOk, LogOk, SendOne;
      status := Success;
      if !selectAll {
        SendOneOutcome(p, View(), zrwaBufferSize, action, lba, withZrwa);
        status := Send(action, lba, withZrwa);
        return;
      }
      for zid := 0 to p.nrZones
        invariant Inv(p, View())
        invariant SendAll(p, View(), zrwaBufferSize, action, withZrwa, zid)
          == SendAll(p, old(View()), zrwaBufferSize, action, withZrwa, 0)
      {
        StartInRange(p, zid);
        var ignored := Send(action, p.Start(zid), withZrwa);
      }
    }

    /** buffer_allocate: all or nothing; it returns what it allocated. */
    method AllocateWb(w: nat, size: nat) returns (got: nat)
      requires w < |wb|
      modifies this`wb
      ensures got == if size <= old(wb)[w] then size else 0
      ensures wb == old(wb)[w := old(wb)[w] - got] && (got == 0 ==> wb == old(wb))
    {
      got := if wb[w] < size then 0 else size;
      assert wb[w := wb[w] - 0] == wb;
      wb := wb[w := wb[w] - got];
    }

    method AllocateZrwa(zid: nat, size: nat) returns (got: nat)
      requires zid < |zbuf|
      modifies this`zbuf
      ensures got == if size <= old(zbuf)[zid] then size else 0
      ensures zbuf == old(zbuf)[zid := old(zbuf)[zid] - got] && (got == 0 ==> zbuf == old(zbuf))
    {
      got := if zbuf[zid] < size then 0 else size;
      assert zbuf[zid := zbuf[zid] - 0] == zbuf;
      zbuf := zbuf[zid := zbuf[zid] - got];
    }

    /** __increase_write_ptr. */
    method IncreaseWritePtr(zid: nat, n: nat)
      requires zid < |zones| && open > 0 && active > 0
      modifies this
      ensures View() == IncreaseWp(p, old(View()), zid, n)
    {
      zones := zones[zid := zones[zid].(wp := zones[zid].wp + n)];
      if zones[zid].wp == p.End(zid) {
        Release(OpenRes);
        Release(ActiveRes);
        ChangeState(zid, Full);
      }
      assert zones == old(zones)[zid := zones[zid]];
    }

    /** The flush loop of __zns_write: the bytes of all release requests it enqueues. */
    method FlushPages(slpn: nat, elpn: nat, zoneSlpn: nat, zoneElpn: nat) returns (bytes: nat)
      requires p.Ok() && zoneSlpn <= slpn <= elpn && zoneElpn == zoneSlpn + p.ZonePgs() - 1
      ensures bytes == ReleaseLoop(p, slpn - zoneSlpn, elpn + 1 - zoneSlpn)
    {
      hide ReleaseLoop, Params.Unaligned, Params.ZonePgs;
      bytes := 0;
      var unaligned := p.Unaligned();
      var lpn := slpn;
      ghost var a, b := slpn - zoneSlpn, elpn + 1 - zoneSlpn;
      while lpn <= elpn
        invariant slpn <= lpn <= elpn + 1
        invariant bytes + ReleaseLoop(p, lpn - zoneSlpn, b) == ReleaseLoop(p, a, b)
        decreases elpn + 1 - lpn
      {
        ReleaseTurn(p, lpn - zoneSlpn, b);
        var pgOff := (lpn - zoneSlpn) % p.oneshot;
        var pgs := if elpn - lpn + 1 <= p.oneshot - pgOff then elpn - lpn + 1 else p.oneshot - pgOff;
        if pgOff + pgs == p.oneshot || lpn + pgs - 1 == zoneElpn {
          bytes := bytes + if lpn + pgs - 1 == zoneElpn && unaligned > 0 then unaligned else p.oneshot * PG_SIZE;
        }
        lpn := lpn + pgs;
      }
      ReleaseNone(p, b);
    }

    /** The page numbers of a write and the call of the flush loop. */
    method ScheduleReleases(zid: nat, slba: nat, nlb: nat) returns (bytes: nat)
      requires p.Ok() && p.Start(zid) <= slba && 0 < nlb && slba + nlb <= p.End(zid)
      ensures bytes
        == ReleaseLoop(p, (slba - p.Start(zid)) / SECS_PER_PG, (slba + nlb - 1 - p.Start(zid)) / SECS_PER_PG + 1)
    {
      hide ReleaseLoop;
      PageOffsets(p, zid, slba, nlb);
      var zoneSlpn, zoneElpn := zid * p.ZonePgs(), (p.End(zid) - 1) / SECS_PER_PG;
      bytes := FlushPages(slba / SECS_PER_PG, (slba + nlb - 1) / SECS_PER_PG, zoneSlpn, zoneElpn);
    }

    /** The state switch of __zns_write. */
    method OpenForWrite(zid: nat, slba: nat) returns (status: Status)
      requires zid < |zones| && open <= p.maxOpen && active <= p.maxActive && Releasable(View(), zid)
      modifies this
      ensures (View(), status) == PlainSwitch(p, old(View()), zid, slba)
    {
      var ok;
      match zones[zid].state {
        case Empty =>
          if slba != zones[zid].zslba { return InvalidWrite; }
          if active == p.maxActive { return NoActiveZone; }
          if open == p.maxOpen { return NoOpenZone; }
          ok := Acquire(ActiveRes);
          ok := Acquire(OpenRes);
          ChangeState(zid, OpenedImpl);
        case Closed =>
          ok := Acquire(OpenRes);
          if !ok { return NoOpenZone; }
          ChangeState(zid, OpenedImpl);
        case OpenedImpl | OpenedExpl =>
        case _ => return ErrOffline;
      }
      return Success;
    }

    /** What follows the checks of __zns_write. */
    method CarryOut(zid: nat, slba: nat, nlb: nat)
      requires p.Ok() && zid < |zones| == |logs| && open > 0 && active > 0 && p.Start(zid) <= slba && 0 < nlb
      requires slba + nlb <= p.End(zid)
      modifies this
      ensures View() == AcceptWrite(p, old(View()), zid, slba, nlb)
    {
      hide ReleaseLoop, IncreaseWp;
      IncreaseWritePtr(zid, nlb);
      var bytes := ScheduleReleases(zid, slba, nlb);
      KeepsLogs(p, old(View()), zid, nlb);
      ghost var g := logs[zid];
      logs := logs[zid := Log(g.writes + [Extent(slba, nlb)], g.reserved + nlb * LBA_SIZE, g.released + bytes)];
    }

    /** __zns_write; `slba` is the address that it leaves in the command. */
    method WriteZone(lba: nat, nlb: nat, append: bool) returns (o: Outcome, slba: nat)
      requires Inv(p, View()) && p.Zid(lba) < p.nrZones && 0 < nlb && !zones[p.Zid(lba)].zrwav
      modifies this
      ensures Inv(p, View()) && (View(), o) == WritePlain(p, old(View()), lba, nlb, append)
      ensures slba == Rewritten(p, old(View()), lba, append)
    {
      ghost var s := View();
      var zid := p.Zid(lba);
      PlainInv(p, s, lba, nlb, append);
      InvShape(p, s, zid);
      AllReleasable(p, s, zid);
      hide Inv, AcceptWrite, PlainSwitch, Params.Start, Params.End;
      slba := if append then zones[zid].wp else lba;
      var got := AllocateWb(p.WbIndex(zid), nlb * LBA_SIZE);
      if got < nlb * LBA_SIZE { return Retry, slba; }
      if nlb * LBA_SIZE % p.writeUnit != 0 { return Done(InvalidWrite), slba; }
      if p.Zid(slba) != p.Zid(slba + nlb - 1) { return Done(ErrBoundary), slba; }
      if slba != zones[zid].wp { return Done(InvalidWrite), slba; }
      assert slba + nlb <= p.End(zid) || !PlainSwitch(p, View(), zid, slba).1.Success? by {
        RoomInZone(p, s, zid, nlb, View(), slba);
      }
      var status := OpenForWrite(zid, slba);
      if status == Success { CarryOut(zid, slba, nlb); }
      return Done(status), slba;
    }

    /** The flush loop of __zns_write_zrwa: the bytes of all release requests it enqueues. */
    method FlushArea(zid: nat, prevWp: nat, n: nat) returns (bytes: nat)
      requires p.Ok() && p.Start(zid) <= prevWp
      ensures bytes == ZrwaReleases(p, (prevWp - p.Start(zid)) / SECS_PER_PG, n / SECS_PER_PG)
    {
      hide ZrwaReleases, Params.ZonePgs;
      PageOffset(p, zid, prevWp);
      bytes := 0;
      var zoneSlpn := zid * p.ZonePgs();
      var lpn := prevWp / SECS_PER_PG;
      var remaining := n / SECS_PER_PG;
      ghost var a, m := lpn - zoneSlpn, remaining;
      while remaining > 0
        invariant zoneSlpn <= lpn && 0 <= remaining
        invariant bytes + ZrwaReleases(p, lpn - zoneSlpn, remaining) == ZrwaReleases(p, a, m)
        decreases remaining
      {
        AreaTurn(p, lpn - zoneSlpn, remaining);
        var pgOff := (lpn - zoneSlpn) % p.oneshot;
        var pgs := if remaining <= p.oneshot - pgOff then remaining else p.oneshot - pgOff;
        if pgOff + pgs == p.oneshot { bytes := bytes + p.oneshot * PG_SIZE; }
        lpn := lpn + pgs;
        remaining := remaining - pgs;
      }
      AreaDone(p, lpn - zoneSlpn);
    }

    /** The implicit flush of a ZRWA write. */
    method MoveZrwa(zid: nat, elba: nat) returns (o: Outcome, bytes: nat)
      requires p.Ok() && zid < |zones| == |zbuf| && open > 0 && active > 0
      requires p.Start(zid) <= zones[zid].wp <= elba && !zones[zid].state.Full?
      modifies this
      ensures (View(), o) == ZrwaMove(p, old(View()), zid, elba)
      ensures var wp := old(zones[zid].wp);
        bytes == if o != Done(Success) then 0 else
          ZrwaReleases(p, (wp - p.Start(zid)) / SECS_PER_PG, ZrwaFlush(p, zid, wp, elba) / SECS_PER_PG)
    {
      bytes := 0;
      var prevWp := zones[zid].wp;
      var n := 0;
      if elba >= prevWp + p.zrwaLbas {
        if !p.HasZrwa() { return Fault, 0; }
        n := (elba - (prevWp + p.zrwaLbas) + 1 + p.zrwafgLbas - 1) / p.zrwafgLbas * p.zrwafgLbas;
      } else if elba == p.End(zid) - 1 {
        n := elba - prevWp + 1;
      }
      assert n == ZrwaFlush(p, zid, prevWp, elba);
      hide ZrwaFlush, ZrwaReleases;
      if n > 0 {
        var got := AllocateZrwa(zid, n * LBA_SIZE);
        if got == 0 { return Retry, 0; }
        IncreaseWritePtr(zid, n);
        if zones[zid].state.Full? { fills := fills + 1; }
      }
      bytes := FlushArea(zid, prevWp, n);
      return Done(Success), bytes;
    }

    /** The state switch of __zns_write_zrwa. */
    method OpenForZrwa(zid: nat) returns (o: Outcome)
      requires zid < |zones| == |zbuf|
      modifies this
      ensures o == ZrwaSwitch(p, old(View()), zid).1
      ensures o != Bug ==> View() == ZrwaSwitch(p, old(View()), zid).0
    {
      var st := zones[zid].state;
      if st.Closed? || st.Empty? {
        var ok := Acquire(OpenRes);
        if !ok { return Done(NoOpenZone); }
        var got := AllocateZrwa(zid, p.zrwaLbas * LBA_SIZE);
        if got == 0 { return Bug; }
        ChangeState(zid, OpenedImpl);
      } else if st.Full? {
        return Done(ErrFull);
      } else if st.ReadOnly? {
        return Done(ErrReadOnly);
      } else if st.Offline? {
        return Done(ErrOffline);
      }
      return Done(Success);
    }

    /** __zns_write_zrwa. */
    method WriteZrwaZone(slba: nat, nlb: nat) returns (o: Outcome, bytes: nat)
      requires Inv(p, View()) && p.Zid(slba) < p.nrZones && 0 < nlb && zones[p.Zid(slba)].zrwav
      modifies this
      ensures o != Bug ==> Inv(p, View()) && (View(), o) == WriteZrwa(p, old(View()), slba, nlb)
      ensures o == Bug <==> WriteZrwa(p, old(View()), slba, nlb).1 == Bug
      ensures bytes == ZrwaScheduled(p, old(View()), slba, nlb)
    {
      hide ZrwaReleases, ZrwaFlush, IncreaseWp, LogOk, Counters;
      bytes := 0;
      ghost var s := View();
      var zid := p.Zid(slba);
      ZrwaInv(p, s, slba, nlb);
      InvShape(p, s, zid);
      AllReleasable(p, s, zid);
      assert !zones[zid].state.Empty? by { assert ZoneOk(p, zid, zones[zid]); }
      hide Inv, ZoneOk, Params.Start, Params.End;
      var elba := slba + nlb - 1;
      if nlb * LBA_SIZE % p.writeUnit != 0 { return Done(InvalidWrite), 0; }
      if p.Zid(slba) != p.Zid(elba) { return Done(ErrBoundary), 0; }
      if slba < zones[zid].wp || !BelowWindowEnd(zones[zid].wp + 2 * p.zrwaLbas, elba) { return Done(InvalidWrite), 0; }
      o := OpenForZrwa(zid);
      if o == Done(Success) {
        NoBugInMove(p, View(), zid, elba);
        hide ZrwaMove;
        o, bytes := MoveZrwa(zid, elba);
      }
    }

    /** zns_write: the random write area decides which path a write takes. */
    method Write(lba: nat, nlb: nat, append: bool) returns (o: Outcome, slba: nat)
      requires Inv(p, View()) && p.Zid(lba) < p.nrZones && 0 < nlb
      modifies this
      ensures var e := WriteCommand(p, old(View()), lba, nlb, append);
        && o == e.outcome && slba == e.addr
        && (o != Bug ==> Inv(p, View()) && View() == e.after)
    {
      InvShape(p, View(), p.Zid(lba));
      hide Inv, WritePlain, WriteZrwa;
      if zones[p.Zid(lba)].zrwav {
        var bytes;
        o, bytes := WriteZrwaZone(lba, nlb);
        slba := lba;
      } else {
        o, slba := WriteZone(lba, nlb, append);
      }
    }
  }

  lemma NoBugInMove(p: Params, s: State, zid: nat, elba: nat)
    requires p.Ok() && zid < |s.zones| == |s.zbuf| && s.open > 0 && s.active > 0
    requires s.zones[zid].wp <= elba
    ensures ZrwaMove(p, s, zid, elba).1 != Bug
  {
  }

  lemma KeepsLogs(p: Params, s: State, zid: nat, n: nat)
    requires zid < |s.zones| && s.open > 0 && s.active > 0
    ensures IncreaseWp(p, s, zid, n).logs == s.logs
  {
  }

  lemma ReleaseTurn(p: Params, a: nat, b: nat)
    requires p.Ok() && a < b
    ensures var off := a % p.oneshot;
      var pgs := if b - a <= p.oneshot - off then b - a else p.oneshot - off;
      var atEnd := a + pgs == p.ZonePgs();
      ReleaseLoop(p, a, b) == ReleaseLoop(p, a + pgs, b)
        + if off + pgs != p.oneshot && !atEnd then 0
          else if atEnd && p.Unaligned() > 0 then p.Unaligned() else p.oneshot * PG_SIZE
  {
  }

  lemma AreaTurn(p: Params, a: nat, n: nat)
    requires p.Ok() && 0 < n
    ensures var off := a % p.oneshot; var pgs := if n <= p.oneshot - off then n else p.oneshot - off;
      ZrwaReleases(p, a, n)
        == ZrwaReleases(p, a + pgs, n - pgs) + if off + pgs == p.oneshot then p.oneshot * PG_SIZE else 0
  {
  }

  lemma AreaDone(p: Params, a: nat)
    requires p.Ok()
    ensures ZrwaReleases(p, a, 0) == 0
  {
  }

  lemma PageOffset(p: Params, zid: nat, lba: nat)
    requires p.Ok() && p.Start(zid) <= lba
    ensures lba / SECS_PER_PG - zid * p.ZonePgs() == (lba - p.Start(zid)) / SECS_PER_PG
  {
    var n := p.zoneLbas / SECS_PER_PG;
    assert p.Start(zid) == (zid * n) * SECS_PER_PG by {
      assert p.zoneLbas == n * SECS_PER_PG;
      assert zid * (n * SECS_PER_PG) == (zid * n) * SECS_PER_PG;
    }
  }

  lemma ReleaseNone(p: Params, b: nat)
    requires p.Ok()
    ensures ReleaseLoop(p, b, b) == 0
  {
  }

  /** A write at the write pointer that ends in the zone of its first block has room if the zone is not full. */
  lemma RoomInZone(p: Params, s: State, zid: nat, nlb: nat, t: State, slba: nat)
    requires Inv(p, s) && zid < p.nrZones && 0 < nlb && slba == s.zones[zid].wp && p.Zid(slba) == p.Zid(slba + nlb - 1)
    requires t.zones == s.zones && Releasable(t, zid)
    ensures slba + nlb <= p.End(zid) || !PlainSwitch(p, t, zid, slba).1.Success?
  {
    assert ZoneOk(p, zid, s.zones[zid]);
    InZone(p, zid, slba);
    InZone(p, zid, slba + nlb - 1);
  }

  lemma InvShape(p: Params, s: State, zid: nat)
    requires Inv(p, s) && zid < p.nrZones
    ensures p.Ok() && |s.zones| == |s.logs| == |s.zbuf| == p.nrZones && p.WbIndex(zid) < |s.wb|
    ensures p.Start(zid) <= s.zones[zid].wp && s.open <= p.maxOpen && s.active <= p.maxActive && s.zrwa <= p.maxZrwa
  {
  }

  /** Page numbers and page offsets in a zone. */
  lemma PageOffsets(p: Params, zid: nat, slba: nat, nlb: nat)
    requires p.Ok() && p.Start(zid) <= slba && 0 < nlb && slba + nlb <= p.End(zid)
    ensures var z, n := zid * p.ZonePgs(), p.ZonePgs();
      && slba / SECS_PER_PG - z == (slba - p.Start(zid)) / SECS_PER_PG
      && (slba + nlb - 1) / SECS_PER_PG - z == (slba + nlb - 1 - p.Start(zid)) / SECS_PER_PG
      && (p.End(zid) - 1) / SECS_PER_PG - z == n - 1
  {
    var n := p.zoneLbas / SECS_PER_PG;
    assert p.Start(zid) == (zid * n) * SECS_PER_PG by {
      assert p.zoneLbas == n * SECS_PER_PG;
      assert zid * (n * SECS_PER_PG) == (zid * n) * SECS_PER_PG;
    }
  }
}
