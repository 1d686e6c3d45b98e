/** The zoned namespace of zns_ftl.h, zns_read_write.c and zns_mgmt_send.c as a state machine over
    commands: zone states, write pointers, the three resource counters, random write areas (ZRWA)
    and write buffers.  Zone states are those of section 2.1.1.3 of the NVM Express Zoned Namespace
    Command Set Specification, Revision 1.1a. */
module Zns {
  import opened Arith

  const LBA_SIZE: nat := 512
  const SECS_PER_PG: nat := 8
  const PG_SIZE: nat := 4096

  datatype ZoneState = Empty | OpenedImpl | OpenedExpl | Closed | ReadOnly | Full | Offline
  datatype Zone = Zone(state: ZoneState, zslba: nat, wp: nat, zrwav: bool)
  datatype Status = Success | InvalidWrite | ErrBoundary | NoActiveZone | NoOpenZone | ErrFull | ErrReadOnly
                  | ErrOffline | InvalidTransition | ZrwaUnavail | InvalidZoneOperation | InvalidField | DivideFault
  /** Retry: the handler returned false and the dispatcher will offer the command again.  Bug: BUG_ON fired.  Fault, and
      the status DivideFault of a management command: the machine stopped in a division by zero. */
  datatype Outcome = Done(status: Status) | Retry | Bug | Fault
  datatype Extent = Extent(slba: nat, nlb: nat)

  /** Sizes in logical blocks of 512 bytes, except the two buffer sizes and the write unit, in bytes. */
  datatype Params = Params(nrZones: nat, zoneLbas: nat, oneshot: nat, writeUnit: nat, zrwaLbas: nat, zrwafgLbas: nat,
                           zoneWb: nat, maxActive: nat, maxOpen: nat, maxZrwa: nat)
  {
    /** zns_init_params asserts that zones are page aligned; the granularity of a flush fits in a random write area.
        A namespace without random write areas has sizes of zero. */
    predicate Ok() {
      && 0 < nrZones && 0 < zoneLbas && zoneLbas % SECS_PER_PG == 0 && 0 < oneshot && 0 < writeUnit
      && zrwafgLbas <= zrwaLbas
    }
    predicate HasZrwa() { 0 < zrwafgLbas }
    function Zid(lba: nat): nat requires 0 < zoneLbas { lba / zoneLbas }
    function Start(zid: nat): nat { zid * zoneLbas }
    function End(zid: nat): nat { zid * zoneLbas + zoneLbas }
    function ZonePgs(): nat { zoneLbas / SECS_PER_PG }
    /** Bytes of a zone behind its last complete one-shot page. */
    function Unaligned(): nat requires 0 < oneshot { zoneLbas * LBA_SIZE % (oneshot * PG_SIZE) }
    function WbIndex(zid: nat): nat { if zoneWb > 0 then zid else 0 }
  }

  /** History of a zone since its last reset: accepted writes, bytes allocated for them, bytes scheduled for release. */
  datatype Log = Log(writes: seq<Extent>, reserved: nat, released: nat)

  /** `wb` and `zbuf` are what the write buffers and the ZRWA buffers have left; `fills` counts the
      zones filled by the end-of-zone rule of a ZRWA write; `logs` and `fills` are history. */
  datatype State = State(zones: seq<Zone>, open: nat, active: nat, zrwa: nat, wb: seq<nat>, zbuf: seq<nat>,
                         fills: nat, logs: seq<Log>)

  predicate IsOpen(z: Zone) { z.state.OpenedImpl? || z.state.OpenedExpl? }
  predicate IsActive(z: Zone) { IsOpen(z) || z.state.Closed? }
  predicate HoldsZrwa(z: Zone) { IsActive(z) && z.zrwav }

  function CountIf(zs: seq<Zone>, f: Zone -> bool): nat {
    if zs == [] then 0 else (if f(zs[0]) then 1 else 0) + CountIf(zs[1..], f)
  }

  lemma {:induction false} CountUpdate(zs: seq<Zone>, f: Zone -> bool, i: nat, z: Zone)
    requires i < |zs|
    ensures CountIf(zs[i := z], f) + (if f(zs[i]) then 1 else 0) == CountIf(zs, f) + (if f(z) then 1 else 0)
  {
    if i == 0 {
      assert zs[i := z][1..] == zs[1..];
    } else {
      assert zs[i := z][1..] == zs[1..][i - 1 := z];
      CountUpdate(zs[1..], f, i - 1, z);
    }
  }

  /** A zone that satisfies `f` is counted, so its release does not underflow. */
  lemma {:induction false} Counted(zs: seq<Zone>, f: Zone -> bool, i: nat)
    requires i < |zs| && f(zs[i])
    ensures 1 <= CountIf(zs, f)
  {
    if i > 0 { Counted(zs[1..], f, i - 1); }
  }

  // ---------- the invariant ----------

  ghost predicate ZoneOk(p: Params, zid: nat, z: Zone)
    requires p.Ok()
  {
    && z.zslba == p.Start(zid) && z.zslba <= z.wp <= p.End(zid)
    && !z.state.ReadOnly? && !z.state.Offline?
    && (z.state.Empty? ==> z.wp == z.zslba && !z.zrwav)
    && (z.wp == p.End(zid) ==> z.state.Full?)
    && (z.zrwav && !z.state.Full? && p.HasZrwa() ==> (z.wp - z.zslba) % p.zrwafgLbas == 0)
  }

  /** Adjacent extents from `lo` to `hi`, without gap or overlap. */
  ghost predicate Tiles(ws: seq<Extent>, lo: nat, hi: nat) {
    if ws == [] then lo == hi else ws[0].slba == lo && 0 < ws[0].nlb && Tiles(ws[1..], lo + ws[0].nlb, hi)
  }

  ghost predicate LogOk(p: Params, zid: nat, z: Zone, g: Log)
    requires p.Ok() && p.Start(zid) <= z.wp
  {
    && (!z.zrwav ==> Tiles(g.writes, z.zslba, z.wp) && g.reserved == (z.wp - p.Start(zid)) * LBA_SIZE)
    && (!z.zrwav && p.writeUnit % PG_SIZE == 0 ==>
          && (z.wp - p.Start(zid)) % SECS_PER_PG == 0
          && g.released == ReleasedUpTo(p, (z.wp - p.Start(zid)) / SECS_PER_PG))
  }

  /** What must have been scheduled for release when the first `pgs` pages of a zone are written: every complete
      one-shot page, and the incomplete last one once the zone is written to its end. */
  function ReleasedUpTo(p: Params, pgs: nat): nat
    requires p.Ok()
  {
    if pgs == p.ZonePgs() then pgs * PG_SIZE else pgs / p.oneshot * p.oneshot * PG_SIZE
  }

  ghost predicate Counters(p: Params, s: State) {
    && s.open == CountIf(s.zones, IsOpen) <= p.maxOpen
    && s.active == CountIf(s.zones, IsActive) <= p.maxActive
    && s.zrwa == CountIf(s.zones, HoldsZrwa) + s.fills <= p.maxZrwa
  }

  ghost predicate Inv(p: Params, s: State) {
    && p.Ok() && |s.zones| == |s.zbuf| == |s.logs| == p.nrZones && |s.wb| == (if p.zoneWb > 0 then p.nrZones else 1)
    && Counters(p, s)
    && (forall i :: 0 <= i < |s.zones| ==> ZoneOk(p, i, s.zones[i]))
    && (forall i :: 0 <= i < |s.zones| ==> LogOk(p, i, s.zones[i], s.logs[i]))
  }

  /** zns_init_ftl. */
  function Initial(p: Params, zrwaBuffer: nat, writeBuffer: nat): State {
    State(seq<Zone>(p.nrZones, i requires 0 <= i => Zone(Empty, p.Start(i), p.Start(i), false)), 0, 0, 0,
          seq(if p.zoneWb > 0 then p.nrZones else 1, _ => if p.zoneWb > 0 then p.zoneWb else writeBuffer),
          seq(p.nrZones, _ => zrwaBuffer), 0, seq(p.nrZones, _ => Log([], 0, 0)))
  }

  lemma {:induction false} CountNone(zs: seq<Zone>, f: Zone -> bool)
    requires forall i :: 0 <= i < |zs| ==> !f(zs[i])
    ensures CountIf(zs, f) == 0
  {
    if zs != [] { CountNone(zs[1..], f); }
  }

  lemma InitialInv(p: Params, zrwaBuffer: nat, writeBuffer: nat)
    requires p.Ok()
    ensures Inv(p, Initial(p, zrwaBuffer, writeBuffer))
  {
    var s := Initial(p, zrwaBuffer, writeBuffer);
    CountNone(s.zones, IsOpen);
    CountNone(s.zones, IsActive);
    CountNone(s.zones, HoldsZrwa);
    DivModUnique(0, p.oneshot, 0, 0);
    forall i | 0 <= i < |s.zones| ensures ZoneOk(p, i, s.zones[i]) && LogOk(p, i, s.zones[i], s.logs[i]) {
      assert s.zones[i] == Zone(Empty, p.Start(i), p.Start(i), false) && p.Start(i) <= p.End(i);
    }
    hide ZoneOk, LogOk;
  }

  // ---------- management commands ----------

  function SetState(s: State, zid: nat, st: ZoneState): State
    requires zid < |s.zones|
  {
    s.(zones := s.zones[zid := s.zones[zid].(state := st)])
  }

  /** __zmgmt_send_close_zone. */
  function CloseZone(s: State, zid: nat): (State, Status)
    requires zid < |s.zones| && (IsOpen(s.zones[zid]) ==> s.open > 0)
  {
    match s.zones[zid].state
    case OpenedImpl | OpenedExpl => (SetState(s, zid, Closed).(open := s.open - 1), Success)
    case Closed => (s, Success)
    case _ => (s, InvalidTransition)
  }

  /** The releases that finish and reset share. */
  function ReleaseAll(s: State, z: Zone): State
    requires (IsOpen(z) ==> s.open > 0) && (IsActive(z) ==> s.active > 0) && (HoldsZrwa(z) ==> s.zrwa > 0)
  {
    s.(open := if IsOpen(z) then s.open - 1 else s.open,
       active := if IsActive(z) then s.active - 1 else s.active,
       zrwa := if HoldsZrwa(z) then s.zrwa - 1 else s.zrwa)
  }

  predicate Releasable(s: State, zid: nat)
    requires zid < |s.zones|
  {
    var z := s.zones[zid];
    (IsOpen(z) ==> s.open > 0) && (IsActive(z) ==> s.active > 0) && (HoldsZrwa(z) ==> s.zrwa > 0)
  }

  /** __zmgmt_send_finish_zone; the write pointer stays where it is. */
  function FinishZone(s: State, zid: nat): (State, Status)
    requires zid < |s.zones| && Releasable(s, zid)
  {
    match s.zones[zid].state
    case OpenedImpl | OpenedExpl | Closed => (SetState(ReleaseAll(s, s.zones[zid]), zid, Full), Success)
    case Empty => (SetState(s, zid, Full), Success)
    case Full => (s, Success)
    case _ => (s, InvalidTransition)
  }

  /** __zmgmt_send_open_zone. */
  function OpenZone(p: Params, s: State, zid: nat, zrwa: bool): (State, Status)
    requires zid < |s.zones|
  {
    match s.zones[zid].state
    case Empty =>
      if s.active == p.maxActive then (s, NoActiveZone)
      else if s.open == p.maxOpen then (s, NoOpenZone)
      else if zrwa && s.zrwa == p.maxZrwa then (s, ZrwaUnavail)
      else
        var z := s.zones[zid].(state := OpenedExpl, zrwav := zrwa || s.zones[zid].zrwav);
        (s.(zones := s.zones[zid := z], active := s.active + 1, open := s.open + 1,
            zrwa := if zrwa then s.zrwa + 1 else s.zrwa), Success)
    case Closed =>
      if s.open < p.maxOpen then (SetState(s, zid, OpenedExpl).(open := s.open + 1), Success) else (s, NoOpenZone)
    case OpenedImpl => (SetState(s, zid, OpenedExpl), Success)
    case OpenedExpl => (s, Success)
    case _ => (s, InvalidTransition)
  }

  /** __zmgmt_send_reset_zone with __reset_zone; `full` is the size of the ZRWA buffer. */
  function ResetZone(s: State, zid: nat, full: nat): (State, Status)
    requires zid < |s.zones| == |s.zbuf| == |s.logs| && Releasable(s, zid)
  {
    match s.zones[zid].state
    case ReadOnly | Offline => (s, InvalidTransition)
    case _ =>
      var z := s.zones[zid];
      (ReleaseAll(s, z).(zones := s.zones[zid := Zone(Empty, z.zslba, z.zslba, false)],
                         zbuf := if full > 0 then s.zbuf[zid := full] else s.zbuf,
                         logs := s.logs[zid := Log([], 0, 0)]), Success)
  }

  /** __zmgmt_send_offline_zone. */
  function OfflineZone(s: State, zid: nat): (State, Status)
    requires zid < |s.zones|
  {
    match s.zones[zid].state
    case ReadOnly => (SetState(s, zid, Offline), Success)
    case Offline => (s, Success)
    case _ => (s, InvalidTransition)
  }

  /** The source compares with the last block of a window, `next` - 1, in unsigned numbers: in front of block 0 that
      wraps around, and every block is inside. */
  predicate BelowWindowEnd(next: nat, lba: nat) { next == 0 || lba <= next - 1 }

  /** __zmgmt_send_flush_explicit_zrwa: move the write pointer of a ZRWA zone past `slba`. */
  function FlushZone(p: Params, s: State, slba: nat): (State, Status)
    requires p.Ok() && p.Zid(slba) < |s.zones| && Releasable(s, p.Zid(slba))
  {
    var zid := p.Zid(slba);
    var z := s.zones[zid];
    if !z.zrwav || slba < z.wp || !BelowWindowEnd(z.wp + p.zrwaLbas, slba) || slba >= p.End(zid) then
      (s, InvalidZoneOperation)
    else if !p.HasZrwa() then (s, DivideFault)
    else if (slba - z.wp + 1) % p.zrwafgLbas != 0 then (s, InvalidField)
    else if !IsActive(z) then (s, InvalidZoneOperation)
    else
      var moved := z.(wp := slba + 1);
      if slba + 1 == p.End(zid) then (ReleaseAll(s, z).(zones := s.zones[zid := moved.(state := Full)]), Success)
      else (s.(zones := s.zones[zid := moved]), Success)
  }

  // ---------- writes ----------

  /** The release loop of __zns_write over the pages a..b of a zone, in page offsets: one release for
      every one-shot page completed, and one for the incomplete last one at the end of the zone. */
  function ReleaseLoop(p: Params, a: nat, b: nat): nat
    requires p.Ok()
    decreases b - a
  {
    if a >= b then 0 else
    var off := a % p.oneshot;
    var pgs := if b - a <= p.oneshot - off then b - a else p.oneshot - off;
    var atEnd := a + pgs == p.ZonePgs();
    (if off + pgs != p.oneshot && !atEnd then 0
     else if atEnd && p.Unaligned() > 0 then p.Unaligned() else p.oneshot * PG_SIZE)
    + ReleaseLoop(p, a + pgs, b)
  }

  /** __increase_write_ptr; at the end of the zone the ZRWA resource is not given back. */
  function IncreaseWp(p: Params, s: State, zid: nat, n: nat): State
    requires zid < |s.zones| && s.open > 0 && s.active > 0
  {
    var z := s.zones[zid].(wp := s.zones[zid].wp + n);
    if z.wp == p.End(zid) then
      s.(zones := s.zones[zid := z.(state := Full)], open := s.open - 1, active := s.active - 1)
    else
      s.(zones := s.zones[zid := z])
  }

  /** An accepted write: the zone is open and counted as such in `s`. */
  function AcceptWrite(p: Params, s: State, zid: nat, slba: nat, nlb: nat): State
    requires p.Ok() && zid < |s.zones| == |s.logs| && s.open > 0 && s.active > 0 && p.Start(zid) <= slba && 0 < nlb
  {
    var g := s.logs[zid];
    var first, last := (slba - p.Start(zid)) / SECS_PER_PG, (slba + nlb - 1 - p.Start(zid)) / SECS_PER_PG;
    IncreaseWp(p, s, zid, nlb).(logs := s.logs[zid := Log(g.writes + [Extent(slba, nlb)], g.reserved + nlb * LBA_SIZE,
                                                            g.released + ReleaseLoop(p, first, last + 1))])
  }

  /** The state switch of __zns_write: open the zone if need be, or say why not.  For FULL and
      READ_ONLY zones the missing breaks of the source make the status that of OFFLINE. */
  function PlainSwitch(p: Params, s: State, zid: nat, slba: nat): (r: (State, Status))
    requires zid < |s.zones| && Releasable(s, zid)
    ensures r.1 != Success ==> r.0 == s
    ensures r.1 == Success ==>
      0 < r.0.open && 0 < r.0.active && r.0 == (if IsOpen(s.zones[zid]) then s else ImplicitOpen(s, zid))
  {
    match s.zones[zid].state
    case Empty =>
      if slba != s.zones[zid].zslba then (s, InvalidWrite)
      else if s.active == p.maxActive then (s, NoActiveZone)
      else if s.open == p.maxOpen then (s, NoOpenZone)
      else (ImplicitOpen(s, zid), Success)
    case Closed => if s.open < p.maxOpen then (ImplicitOpen(s, zid), Success) else (s, NoOpenZone)
    case OpenedImpl | OpenedExpl => (s, Success)
    case Full | ReadOnly | Offline => (s, ErrOffline)
  }

  /** The implicit open of an empty or closed zone. */
  function ImplicitOpen(s: State, zid: nat): State
    requires zid < |s.zones|
  {
    var active := if s.zones[zid].state.Empty? then s.active + 1 else s.active;
    SetState(s, zid, OpenedImpl).(open := s.open + 1, active := active)
  }

  /** __zns_write. */
  function WritePlain(p: Params, s: State, lba: nat, nlb: nat, append: bool): (State, Outcome)
    requires Inv(p, s) && p.Zid(lba) < p.nrZones && 0 < nlb
  {
    var zid := p.Zid(lba);
    var z := s.zones[zid];
    var slba := if append then z.wp else lba;
    var w := p.WbIndex(zid);
    assert ZoneOk(p, zid, z);
    if s.wb[w] < nlb * LBA_SIZE then (s, Retry) else
    var t := s.(wb := s.wb[w := s.wb[w] - nlb * LBA_SIZE]);
    if nlb * LBA_SIZE % p.writeUnit != 0 then (t, Done(InvalidWrite))
    else if p.Zid(slba) != p.Zid(slba + nlb - 1) then (t, Done(ErrBoundary))
    else if slba != z.wp then (t, Done(InvalidWrite))
    else
      AllReleasable(p, s, zid);
      var (u, status) := PlainSwitch(p, t, zid, slba);
      (if status == Success then AcceptWrite(p, u, zid, slba, nlb) else u, Done(status))
  }

  function RoundUp(n: nat, unit: nat): nat requires unit > 0 { (n + unit - 1) / unit * unit }

  /** A write past the window of the write pointer divides by the flush granularity. */
  predicate Divides(p: Params, wp: nat, elba: nat) { elba >= wp + p.zrwaLbas }

  /** How far a ZRWA write moves the write pointer. */
  function ZrwaFlush(p: Params, zid: nat, wp: nat, elba: nat): nat
    requires p.Ok() && (Divides(p, wp, elba) ==> p.HasZrwa()) && wp <= elba
  {
    if elba >= wp + p.zrwaLbas then RoundUp(elba - (wp + p.zrwaLbas) + 1, p.zrwafgLbas)
    else if elba == p.End(zid) - 1 then elba - wp + 1 else 0
  }

  /** __zns_write_zrwa behind its state switch; the zone is open. */
  function ZrwaMove(p: Params, s: State, zid: nat, elba: nat): (State, Outcome)
    requires p.Ok() && zid < |s.zones| == |s.zbuf| && s.open > 0 && s.active > 0
    requires s.zones[zid].wp <= elba
  {
    if Divides(p, s.zones[zid].wp, elba) && !p.HasZrwa() then (s, Fault) else
    var n := ZrwaFlush(p, zid, s.zones[zid].wp, elba);
    if n == 0 then (s, Done(Success))
    else if s.zbuf[zid] < n * LBA_SIZE then (s, Retry)
    else
      var t := IncreaseWp(p, s, zid, n);
      (t.(zbuf := s.zbuf[zid := s.zbuf[zid] - n * LBA_SIZE],
          fills := if t.zones[zid].state.Full? then s.fills + 1 else s.fills), Done(Success))
  }

  /** The state switch of __zns_write_zrwa; reopening a closed zone charges its buffer once more, and the source asserts
      that some space was allocated. */
  function ZrwaSwitch(p: Params, s: State, zid: nat): (r: (State, Outcome))
    requires zid < |s.zones| == |s.zbuf|
    ensures r.1 != Done(Success) ==> r.0 == s
  {
    match s.zones[zid].state
    case Closed | Empty =>
      if s.open >= p.maxOpen then (s, Done(NoOpenZone))
      else if p.zrwaLbas == 0 || s.zbuf[zid] < p.zrwaLbas * LBA_SIZE then (s, Bug)
      else (Reopened(p, s, zid), Done(Success))
    case OpenedImpl | OpenedExpl => (s, Done(Success))
    case Full => (s, Done(ErrFull))
    case ReadOnly => (s, Done(ErrReadOnly))
    case Offline => (s, Done(ErrOffline))
  }

  /** A ZRWA zone opened by a write, its buffer charged. */
  function Reopened(p: Params, s: State, zid: nat): State
    requires zid < |s.zones| == |s.zbuf| && s.zbuf[zid] >= p.zrwaLbas * LBA_SIZE
  {
    SetState(s, zid, OpenedImpl).(open := s.open + 1, zbuf := s.zbuf[zid := s.zbuf[zid] - p.zrwaLbas * LBA_SIZE])
  }

  /** __zns_write_zrwa; zns_write takes this path for zones with a random write area. */
  function WriteZrwa(p: Params, s: State, slba: nat, nlb: nat): (State, Outcome)
    requires Inv(p, s) && p.Zid(slba) < p.nrZones && 0 < nlb && s.zones[p.Zid(slba)].zrwav
  {
    var zid := p.Zid(slba);
    var z := s.zones[zid];
    assert ZoneOk(p, zid, z);
    var elba := slba + nlb - 1;
    if nlb * LBA_SIZE % p.writeUnit != 0 then (s, Done(InvalidWrite))
    else if p.Zid(slba) != p.Zid(elba) then (s, Done(ErrBoundary))
    else if slba < z.wp || !BelowWindowEnd(z.wp + 2 * p.zrwaLbas, elba) then (s, Done(InvalidWrite))
    else
      AllReleasable(p, s, zid);
      var (t, o) := ZrwaSwitch(p, s, zid);
      if o == Done(Success) then ZrwaMove(p, t, zid, elba) else (t, o)
  }

  /** zns_write: what becomes of the namespace, the outcome, and the block address that it leaves in the command, where
      the worker then puts the data. */
  datatype Effect = Effect(after: State, outcome: Outcome, addr: nat)

  function WriteCommand(p: Params, s: State, lba: nat, nlb: nat, append: bool): Effect
    requires Inv(p, s) && p.Zid(lba) < p.nrZones && 0 < nlb
  {
    var r := if s.zones[p.Zid(lba)].zrwav then WriteZrwa(p, s, lba, nlb) else WritePlain(p, s, lba, nlb, append);
    Effect(r.0, r.1, Rewritten(p, s, lba, append))
  }

  /** An append to a plain zone overwrites its address with the write pointer before it looks at the buffer. */
  function Rewritten(p: Params, s: State, lba: nat, append: bool): nat
    requires p.Ok() && p.Zid(lba) < |s.zones|
  {
    var z := s.zones[p.Zid(lba)];
    if append && !z.zrwav then z.wp else lba
  }

  // ---------- every command keeps the invariant ----------

  function B(b: bool): nat { if b then 1 else 0 }

  /** One zone and its log change; the counters follow. */
  lemma ZoneUpdate(p: Params, s: State, s': State, zid: nat)
    requires Inv(p, s) && zid < p.nrZones && |s'.zones| == |s'.logs| == p.nrZones
    requires s'.zones == s.zones[zid := s'.zones[zid]] && s'.logs == s.logs[zid := s'.logs[zid]]
    requires |s'.zbuf| == |s.zbuf| && |s'.wb| == |s.wb|
    requires ZoneOk(p, zid, s'.zones[zid]) && LogOk(p, zid, s'.zones[zid], s'.logs[zid])
    requires var z, z' := s.zones[zid], s'.zones[zid];
      && s'.open + B(IsOpen(z)) == s.open + B(IsOpen(z')) && s'.open <= p.maxOpen
      && s'.active + B(IsActive(z)) == s.active + B(IsActive(z')) && s'.active <= p.maxActive
      && s'.zrwa + B(HoldsZrwa(z)) + s.fills == s.zrwa + B(HoldsZrwa(z')) + s'.fills && s'.zrwa <= p.maxZrwa
    ensures Inv(p, s')
  {
    hide LogOk;
    CountUpdate(s.zones, IsOpen, zid, s'.zones[zid]);
    CountUpdate(s.zones, IsActive, zid, s'.zones[zid]);
    CountUpdate(s.zones, HoldsZrwa, zid, s'.zones[zid]);
    forall i | 0 <= i < p.nrZones ensures ZoneOk(p, i, s'.zones[i]) {
      if i != zid { assert s'.zones[i] == s.zones[i]; assert ZoneOk(p, i, s.zones[i]); }
    }
    forall i | 0 <= i < p.nrZones ensures p.Start(i) <= s'.zones[i].wp && LogOk(p, i, s'.zones[i], s'.logs[i]) {
      assert ZoneOk(p, i, s'.zones[i]);
      if i != zid {
        assert s'.zones[i] == s.zones[i] && s'.logs[i] == s.logs[i] && ZoneOk(p, i, s.zones[i]);
        assert LogOk(p, i, s.zones[i], s.logs[i]);
      }
    }
  }

  /** No release underflows: a zone that holds a resource is counted. */
  lemma AllReleasable(p: Params, s: State, zid: nat)
    requires Inv(p, s) && zid < p.nrZones
    ensures Releasable(s, zid)
  {
    var z := s.zones[zid];
    if IsOpen(z) { Counted(s.zones, IsOpen, zid); }
    if IsActive(z) { Counted(s.zones, IsActive, zid); }
    if HoldsZrwa(z) { Counted(s.zones, HoldsZrwa, zid); }
  }

  lemma CloseInv(p: Params, s: State, zid: nat)
    requires Inv(p, s) && zid < p.nrZones && Releasable(s, zid)
    ensures Inv(p, CloseZone(s, zid).0)
  {
    assert ZoneOk(p, zid, s.zones[zid]) && LogOk(p, zid, s.zones[zid], s.logs[zid]);
    ZoneUpdate(p, s, CloseZone(s, zid).0, zid);
  }

  lemma FinishInv(p: Params, s: State, zid: nat)
    requires Inv(p, s) && zid < p.nrZones && Releasable(s, zid)
    ensures Inv(p, FinishZone(s, zid).0)
  {
    assert ZoneOk(p, zid, s.zones[zid]) && LogOk(p, zid, s.zones[zid], s.logs[zid]);
    ZoneUpdate(p, s, FinishZone(s, zid).0, zid);
  }

  lemma OpenInv(p: Params, s: State, zid: nat, zrwa: bool)
    requires Inv(p, s) && zid < p.nrZones
    ensures Inv(p, OpenZone(p, s, zid, zrwa).0)
  {
    assert ZoneOk(p, zid, s.zones[zid]) && LogOk(p, zid, s.zones[zid], s.logs[zid]);
    if p.HasZrwa() { DivModUnique(0, p.zrwafgLbas, 0, 0); }
    ZoneUpdate(p, s, OpenZone(p, s, zid, zrwa).0, zid);
  }

  lemma ResetInv(p: Params, s: State, zid: nat, full: nat)
    requires Inv(p, s) && zid < p.nrZones && Releasable(s, zid)
    ensures Inv(p, ResetZone(s, zid, full).0)
  {
    assert ZoneOk(p, zid, s.zones[zid]) && LogOk(p, zid, s.zones[zid], s.logs[zid]);
    DivModUnique(0, p.oneshot, 0, 0);
    ZoneUpdate(p, s, ResetZone(s, zid, full).0, zid);
  }

  lemma OfflineInv(p: Params, s: State, zid: nat)
    requires Inv(p, s) && zid < p.nrZones
    ensures OfflineZone(s, zid) == (s, InvalidTransition)
  {
    assert ZoneOk(p, zid, s.zones[zid]);
  }

  lemma FlushInv(p: Params, s: State, slba: nat)
    requires Inv(p, s) && p.Zid(slba) < p.nrZones && Releasable(s, p.Zid(slba))
    ensures Inv(p, FlushZone(p, s, slba).0)
  {
    var zid := p.Zid(slba);
    assert ZoneOk(p, zid, s.zones[zid]) && LogOk(p, zid, s.zones[zid], s.logs[zid]);
    var z := s.zones[zid];
    if p.HasZrwa() && z.zrwav && !z.state.Full? && z.wp <= slba && (slba - z.wp + 1) % p.zrwafgLbas == 0 {
      ModAdd(z.wp - z.zslba, slba - z.wp + 1, p.zrwafgLbas);
    }
    ZoneUpdate(p, s, FlushZone(p, s, slba).0, zid);
  }

  lemma ModAdd(a: nat, b: nat, n: nat)
    requires 0 < n && a % n == 0 && b % n == 0
    ensures (a + b) % n == 0
  {
    assert a == n * (a / n) && b == n * (b / n);
    assert a + b == n * (a / n + b / n);
    DivModUnique(a + b, n, a / n + b / n, 0);
  }

  lemma {:induction false} TilesAppend(ws: seq<Extent>, lo: nat, hi: nat, n: nat)
    requires Tiles(ws, lo, hi) && 0 < n
    ensures Tiles(ws + [Extent(hi, n)], lo, hi + n)
    decreases |ws|
  {
    if ws != [] {
      TilesAppend(ws[1..], lo + ws[0].nlb, hi, n);
      assert (ws + [Extent(hi, n)])[1..] == ws[1..] + [Extent(hi, n)];
    } else {
      assert ([Extent(hi, n)])[1..] == [];
    }
  }

  /** Every logical block of [lo, hi) is in exactly one of the writes. */
  lemma {:induction false} TilesCoverOnce(ws: seq<Extent>, lo: nat, hi: nat, lba: nat)
    requires Tiles(ws, lo, hi)
    ensures lo <= hi
    ensures lo <= lba < hi <==> exists i :: 0 <= i < |ws| && ws[i].slba <= lba < ws[i].slba + ws[i].nlb
    ensures forall i, j :: 0 <= i < j < |ws| ==> ws[i].slba + ws[i].nlb <= ws[j].slba
    ensures forall i :: 0 <= i < |ws| ==> lo <= ws[i].slba && ws[i].slba + ws[i].nlb <= hi
    decreases |ws|
  {
    if ws != [] {
      var r := ws[1..];
      TilesCoverOnce(r, lo + ws[0].nlb, hi, lba);
      assert forall i :: 0 <= i < |r| ==> r[i] == ws[i + 1];
      assert forall i :: 1 <= i < |ws| ==> ws[i] == r[i - 1];
    }
  }

  /** The write unit is a multiple of the page size, so an accepted write is a whole number of pages. */
  lemma WholePages(unit: nat, nlb: nat)
    requires 0 < unit && unit % PG_SIZE == 0 && nlb * LBA_SIZE % unit == 0
    ensures nlb % SECS_PER_PG == 0
  {
    var k, m := nlb * LBA_SIZE / unit, unit / PG_SIZE;
    assert nlb * LBA_SIZE == k * unit && unit == m * PG_SIZE;
    assert k * unit == (k * m) * PG_SIZE;
    assert nlb == (k * m) * SECS_PER_PG;
  }

  /** The releases of consecutive writes add up: what is scheduled over the pages a..b takes the total from a to b. */
  lemma {:induction false} ReleaseTelescopes(p: Params, a: nat, b: nat)
    requires p.Ok() && a < p.ZonePgs() && a <= b <= p.ZonePgs()
    ensures ReleaseLoop(p, a, b) + ReleasedUpTo(p, a) == ReleasedUpTo(p, b)
    decreases b - a
  {
    if a < b {
      var n, os := p.ZonePgs(), p.oneshot;
      var off := a % os;
      var pgs := if b - a <= os - off then b - a else os - off;
      var c := a + pgs;
      ReleaseStep(os, a, pgs);
      UnalignedPages(p);
      if c < b {
        ReleaseTelescopes(p, c, b);
      }
    }
  }

  /** One turn of the release loop stays in one one-shot page. */
  lemma ReleaseStep(os: nat, a: nat, pgs: nat)
    requires 0 < os && 0 < pgs && a % os + pgs <= os
    ensures a % os + pgs == os ==>
      (a + pgs) / os == a / os + 1 && (a + pgs) % os == 0 && (a + pgs) / os * os == a / os * os + os == a + pgs
    ensures a % os + pgs < os ==> (a + pgs) / os == a / os && (a + pgs) % os == a % os + pgs
  {
    var q, r := a / os, a % os;
    assert a == os * q + r;
    if r + pgs == os {
      assert a + pgs == os * (q + 1);
      DivModUnique(a + pgs, os, q + 1, 0);
    } else {
      DivModUnique(a + pgs, os, q, r + pgs);
    }
  }

  /** The unaligned space of a zone, in pages. */
  lemma UnalignedPages(p: Params)
    requires p.Ok()
    ensures p.Unaligned() == p.ZonePgs() % p.oneshot * PG_SIZE
  {
    var n, os := p.ZonePgs(), p.oneshot;
    var q, r := n / os, n % os;
    assert p.zoneLbas * LBA_SIZE == n * PG_SIZE;
    assert n == os * q + r;
    assert n * PG_SIZE == (os * PG_SIZE) * q + r * PG_SIZE;
    DivModUnique(n * PG_SIZE, os * PG_SIZE, q, r * PG_SIZE);
  }

  lemma InZone(p: Params, zid: nat, lba: nat)
    requires p.Ok()
    ensures p.Start(zid) <= lba < p.End(zid) <==> p.Zid(lba) == zid
  {
    if p.Start(zid) <= lba < p.End(zid) {
      assert lba == p.zoneLbas * zid + (lba - p.Start(zid));
      DivModUnique(lba, p.zoneLbas, zid, lba - p.Start(zid));
    }
    if p.Zid(lba) == zid {
      assert lba == p.zoneLbas * (lba / p.zoneLbas) + lba % p.zoneLbas;
    }
  }

  /** A zone that takes plain writes, open, with room for the write. */
  ghost predicate Writable(p: Params, s: State, zid: nat, nlb: nat)
    requires Inv(p, s) && zid < p.nrZones
  {
    var z := s.zones[zid];
    IsOpen(z) && !z.zrwav && 0 < nlb && z.wp + nlb <= p.End(zid) && nlb * LBA_SIZE % p.writeUnit == 0
  }

  /** The pages of an accepted write and their releases. */
  lemma AcceptReleases(p: Params, o: nat, nlb: nat)
    requires p.Ok() && 0 < nlb && o + nlb <= p.zoneLbas && o % SECS_PER_PG == 0 && nlb % SECS_PER_PG == 0
    ensures (o + nlb) % SECS_PER_PG == 0
    ensures ReleasedUpTo(p, o / SECS_PER_PG) + ReleaseLoop(p, o / SECS_PER_PG, (o + nlb - 1) / SECS_PER_PG + 1)
         == ReleasedUpTo(p, (o + nlb) / SECS_PER_PG)
  {
    hide ReleaseLoop, ReleasedUpTo;
    assert (o + nlb - 1) / SECS_PER_PG + 1 == (o + nlb) / SECS_PER_PG;
    assert o / SECS_PER_PG < p.ZonePgs() && (o + nlb) / SECS_PER_PG <= p.ZonePgs();
    ReleaseTelescopes(p, o / SECS_PER_PG, (o + nlb) / SECS_PER_PG);
  }

  /** The zone and its log after an accepted write. */
  lemma AcceptLog(p: Params, s: State, zid: nat, nlb: nat)
    requires Inv(p, s) && zid < p.nrZones && Writable(p, s, zid, nlb) && s.open > 0 && s.active > 0
    requires p.Start(zid) <= s.zones[zid].wp
    ensures var s' := AcceptWrite(p, s, zid, s.zones[zid].wp, nlb);
      ZoneOk(p, zid, s'.zones[zid]) && LogOk(p, zid, s'.zones[zid], s'.logs[zid])
  {
    var z, g := s.zones[zid], s.logs[zid];
    assert ZoneOk(p, zid, z) && LogOk(p, zid, z, g);
    hide Inv, Tiles, ReleaseLoop, ReleasedUpTo;
    TilesAppend(g.writes, z.zslba, z.wp, nlb);
    if p.writeUnit % PG_SIZE == 0 {
      WholePages(p.writeUnit, nlb);
      AcceptReleases(p, z.wp - p.Start(zid), nlb);
    }
  }

  lemma AcceptInv(p: Params, s: State, zid: nat, nlb: nat)
    requires Inv(p, s) && zid < p.nrZones && Writable(p, s, zid, nlb) && s.open > 0 && s.active > 0
    requires p.Start(zid) <= s.zones[zid].wp
    ensures Inv(p, AcceptWrite(p, s, zid, s.zones[zid].wp, nlb))
  {
    AcceptLog(p, s, zid, nlb);
    hide ZoneOk, LogOk, Counters;
    var s' := AcceptWrite(p, s, zid, s.zones[zid].wp, nlb);
    CountersBound(p, s);
    ZoneUpdate(p, s, s', zid);
  }

  lemma CountersBound(p: Params, s: State)
    requires Counters(p, s)
    ensures s.open <= p.maxOpen && s.active <= p.maxActive && s.zrwa <= p.maxZrwa
  {
  }

  lemma ImplicitOpenInv(p: Params, s: State, zid: nat)
    requires Inv(p, s) && zid < p.nrZones && s.open < p.maxOpen
    requires s.zones[zid].state.Closed? || (s.zones[zid].state.Empty? && s.active < p.maxActive)
    ensures Inv(p, ImplicitOpen(s, zid))
  {
    assert ZoneOk(p, zid, s.zones[zid]) && LogOk(p, zid, s.zones[zid], s.logs[zid]);
    ZoneUpdate(p, s, ImplicitOpen(s, zid), zid);
  }

  lemma BufferInv(p: Params, s: State, wb: seq<nat>, zbuf: seq<nat>)
    requires Inv(p, s) && |wb| == |s.wb| && |zbuf| == |s.zbuf|
    ensures Inv(p, s.(wb := wb, zbuf := zbuf))
  {
    hide ZoneOk, LogOk;
  }

  /** The state in which a plain write is carried out: buffer charged, zone open. */
  function Opened(p: Params, s: State, zid: nat, nlb: nat): State
    requires zid < |s.zones| && p.WbIndex(zid) < |s.wb| && nlb * LBA_SIZE <= s.wb[p.WbIndex(zid)]
  {
    var t := s.(wb := s.wb[p.WbIndex(zid) := s.wb[p.WbIndex(zid)] - nlb * LBA_SIZE]);
    if IsOpen(s.zones[zid]) then t else ImplicitOpen(t, zid)
  }

  /** What a plain write needs besides buffer space: a multiple of the write unit, at the write pointer, inside the
      zone, which is open or can be opened. */
  predicate PlainAdmissible(p: Params, s: State, lba: nat, nlb: nat, append: bool)
    requires p.Ok() && p.Zid(lba) < |s.zones|
  {
    var zid := p.Zid(lba);
    var z := s.zones[zid];
    && nlb * LBA_SIZE % p.writeUnit == 0
    && (append || lba == z.wp) && z.wp + nlb <= p.End(zid) && !z.state.Full?
    && (IsOpen(z) || (s.open < p.maxOpen && (z.state.Closed? || s.active < p.maxActive)))
  }

  /** A plain write is accepted exactly when the buffer has room and it is admissible; the state then is
      AcceptWrite's. */
  lemma PlainAccepted(p: Params, s: State, lba: nat, nlb: nat, append: bool)
    requires Inv(p, s) && p.Zid(lba) < p.nrZones && 0 < nlb && !s.zones[p.Zid(lba)].zrwav
    ensures var zid := p.Zid(lba);
      WritePlain(p, s, lba, nlb, append).1 == Done(Success) <==>
        nlb * LBA_SIZE <= s.wb[p.WbIndex(zid)] && PlainAdmissible(p, s, lba, nlb, append)
    ensures WritePlain(p, s, lba, nlb, append).1 == Done(Success) ==>
      var zid := p.Zid(lba); var t := Opened(p, s, zid, nlb);
      Inv(p, t) && Writable(p, t, zid, nlb) && t.open > 0 && t.active > 0 && p.Start(zid) <= s.zones[zid].wp
      && WritePlain(p, s, lba, nlb, append).0 == AcceptWrite(p, t, zid, s.zones[zid].wp, nlb)
  {
    hide LogOk, AcceptWrite, ReleaseLoop;
    var zid := p.Zid(lba);
    var z := s.zones[zid];
    assert ZoneOk(p, zid, z);
    AllReleasable(p, s, zid);
    InZone(p, zid, z.wp);
    InZone(p, zid, z.wp + nlb - 1);
    CountersBound(p, s);
    if WritePlain(p, s, lba, nlb, append).1 == Done(Success) { OpenedInv(p, s, zid, nlb); }
    hide Inv, ZoneOk, AcceptWrite, Params.Start, Params.End;
  }

  lemma OpenedInv(p: Params, s: State, zid: nat, nlb: nat)
    requires Inv(p, s) && zid < p.nrZones && nlb * LBA_SIZE <= s.wb[p.WbIndex(zid)]
    requires var z := s.zones[zid];
      IsOpen(z) || (s.open < p.maxOpen && (z.state.Closed? || (z.state.Empty? && s.active < p.maxActive)))
    ensures Inv(p, Opened(p, s, zid, nlb))
  {
    var wb := s.wb[p.WbIndex(zid) := s.wb[p.WbIndex(zid)] - nlb * LBA_SIZE];
    BufferInv(p, s, wb, s.zbuf);
    assert s.(wb := wb) == s.(wb := wb, zbuf := s.zbuf);
    hide Inv;
    if !IsOpen(s.zones[zid]) { ImplicitOpenInv(p, s.(wb := wb), zid); }
  }

  lemma PlainInv(p: Params, s: State, lba: nat, nlb: nat, append: bool)
    requires Inv(p, s) && p.Zid(lba) < p.nrZones && 0 < nlb && !s.zones[p.Zid(lba)].zrwav
    ensures Inv(p, WritePlain(p, s, lba, nlb, append).0)
  {
    PlainAccepted(p, s, lba, nlb, append);
    var r := WritePlain(p, s, lba, nlb, append);
    var zid := p.Zid(lba);
    if r.1 == Done(Success) {
      AcceptInv(p, Opened(p, s, zid, nlb), zid, nlb);
    } else if s.wb[p.WbIndex(zid)] >= nlb * LBA_SIZE {
      BufferInv(p, s, s.wb[p.WbIndex(zid) := s.wb[p.WbIndex(zid)] - nlb * LBA_SIZE], s.zbuf);
    }
  }

  lemma RoundUpBounds(m: nat, unit: nat)
    requires 0 < unit
    ensures m <= RoundUp(m, unit) < m + unit && RoundUp(m, unit) % unit == 0
  {
    var x := m + unit - 1;
    assert x == unit * (x / unit) + x % unit;
    DivModUnique(x / unit * unit, unit, x / unit, 0);
  }

  /** Where a ZRWA write leaves the write pointer: in front of the last block written by less than the size of the
      random write area and a whole number of flush granules further on, none more than that takes, or at the end of
      the zone. */
  lemma ZrwaFlushLands(p: Params, zid: nat, wp: nat, elba: nat)
    requires p.Ok() && (Divides(p, wp, elba) ==> p.HasZrwa()) && wp <= elba < p.End(zid)
    ensures var n := ZrwaFlush(p, zid, wp, elba);
      || wp + n == p.End(zid) == elba + 1
      || (wp + n <= elba < wp + n + p.zrwaLbas && (p.HasZrwa() ==> n % p.zrwafgLbas == 0)
            && (0 < n ==> wp + n - p.zrwafgLbas + p.zrwaLbas <= elba))
  {
    if Divides(p, wp, elba) {
      RoundUpBounds(elba - (wp + p.zrwaLbas) + 1, p.zrwafgLbas);
    } else if p.HasZrwa() {
      DivModUnique(0, p.zrwafgLbas, 0, 0);
    }
  }

  lemma ZrwaMoveInv(p: Params, s: State, zid: nat, elba: nat)
    requires Inv(p, s) && zid < p.nrZones && IsOpen(s.zones[zid]) && s.zones[zid].zrwav
    requires s.zones[zid].wp <= elba < p.End(zid)
    requires s.open > 0 && s.active > 0
    ensures var (s', o) := ZrwaMove(p, s, zid, elba);
      && Inv(p, s')
      && (o == Done(Success) ==> s'.zones[zid].state.Full? || s'.zones[zid].wp <= elba < s'.zones[zid].wp + p.zrwaLbas)
  {
    var z := s.zones[zid];
    assert ZoneOk(p, zid, z) && LogOk(p, zid, z, s.logs[zid]);
    CountersBound(p, s);
    if Divides(p, z.wp, elba) && !p.HasZrwa() { return; }
    ZrwaFlushLands(p, zid, z.wp, elba);
    var n := ZrwaFlush(p, zid, z.wp, elba);
    if p.HasZrwa() && n % p.zrwafgLbas == 0 { ModAdd(z.wp - z.zslba, n, p.zrwafgLbas); }
    hide Counters, ZrwaFlush;
    ZoneUpdate(p, s, ZrwaMove(p, s, zid, elba).0, zid);
  }

  /** A ZRWA write keeps the invariant, and an accepted one ends inside the new window unless it filled the zone. */
  lemma ZrwaInv(p: Params, s: State, slba: nat, nlb: nat)
    requires Inv(p, s) && p.Zid(slba) < p.nrZones && 0 < nlb && s.zones[p.Zid(slba)].zrwav
    ensures var (s', o) := WriteZrwa(p, s, slba, nlb); var z' := s'.zones[p.Zid(slba)]; var elba := slba + nlb - 1;
      && Inv(p, s')
      && (o == Done(Success) ==> z'.state.Full? || z'.wp <= elba < z'.wp + p.zrwaLbas)
  {
    hide ZrwaMove, Counters, LogOk;
    var zid := p.Zid(slba);
    var z := s.zones[zid];
    assert ZoneOk(p, zid, z);
    AllReleasable(p, s, zid);
    InZone(p, zid, slba);
    InZone(p, zid, slba + nlb - 1);
    if p.Zid(slba + nlb - 1) == zid && z.wp <= slba {
      if IsOpen(z) {
        ZrwaMoveInv(p, s, zid, slba + nlb - 1);
      } else if z.state.Closed? && s.open < p.maxOpen && 0 < p.zrwaLbas && s.zbuf[zid] >= p.zrwaLbas * LBA_SIZE {
        ReopenInv(p, s, zid);
        ZrwaMoveInv(p, Reopened(p, s, zid), zid, slba + nlb - 1);
      }
    }
    hide Inv, ZoneOk;
  }

  /** A ZRWA write is accepted exactly when it is a multiple of the write unit, stays in the zone and in front of the
      end of the next window, the zone is open or can be opened, and the buffer has room for the opening and the
      implicit flush; then the write pointer moves by that flush. */
  lemma ZrwaAccepted(p: Params, s: State, slba: nat, nlb: nat)
    requires Inv(p, s) && p.Zid(slba) < p.nrZones && 0 < nlb && s.zones[p.Zid(slba)].zrwav
    ensures var zid := p.Zid(slba); var z, elba, r := s.zones[zid], slba + nlb - 1, WriteZrwa(p, s, slba, nlb);
      && (r.1 == Done(Success) <==>
            && nlb * LBA_SIZE % p.writeUnit == 0 && elba < p.End(zid) && z.wp <= slba && elba < z.wp + 2 * p.zrwaLbas
            && (IsOpen(z) || (z.state.Closed? && s.open < p.maxOpen)) && (Divides(p, z.wp, elba) ==> p.HasZrwa())
            && (if IsOpen(z) then 0 else p.zrwaLbas * LBA_SIZE)
                 + ZrwaFlush(p, zid, z.wp, elba) * LBA_SIZE <= s.zbuf[zid])
      && |r.0.zones| == |s.zones|
      && (r.1 == Done(Success) ==> z.wp <= elba && (Divides(p, z.wp, elba) ==> p.HasZrwa()))
      && (r.1 == Done(Success) ==> r.0.zones[zid].wp == z.wp + ZrwaFlush(p, zid, z.wp, elba))
      && (r.1.Done? && r.1 != Done(Success) ==> r.0 == s)
      && (forall i :: 0 <= i < p.nrZones && i != zid ==> r.0.zones[i] == s.zones[i])
  {
    hide Counters, LogOk, ZrwaFlush;
    var zid, elba := p.Zid(slba), slba + nlb - 1;
    assert ZoneOk(p, zid, s.zones[zid]);
    AllReleasable(p, s, zid);
    InZone(p, zid, slba);
    InZone(p, zid, elba);
    hide Inv, ZoneOk, ZrwaFlush, Params.Start;
  }

  lemma ReopenInv(p: Params, s: State, zid: nat)
    requires Inv(p, s) && zid < p.nrZones && s.zones[zid].state.Closed? && s.open < p.maxOpen
    requires s.zbuf[zid] >= p.zrwaLbas * LBA_SIZE
    ensures Inv(p, Reopened(p, s, zid))
  {
    ImplicitOpenInv(p, s, zid);
    var t := ImplicitOpen(s, zid);
    BufferInv(p, t, t.wb, Reopened(p, s, zid).zbuf);
  }

  // ---------- runs ----------

  datatype Action = ActClose | ActFinish | ActOpen | ActReset | ActOffline | ActFlush
  /** Refill is the worker giving bytes back to a buffer. */
  datatype Command = Write(lba: nat, nlb: nat, append: bool)
                   | Send(action: Action, lba: nat, selectAll: bool, zrwa: bool)
                   | RefillWb(w: nat, bytes: nat) | RefillZrwa(zid: nat, bytes: nat)

  /** __zmgmt_send on the zone of `lba`. */
  function SendOne(p: Params, s: State, full: nat, action: Action, lba: nat, zrwa: bool): (State, Status)
    requires Inv(p, s) && p.Zid(lba) < p.nrZones
  {
    var zid := p.Zid(lba);
    AllReleasable(p, s, zid);
    assert ZoneOk(p, zid, s.zones[zid]);
    match action
    case ActClose => CloseZone(s, zid)
    case ActFinish => FinishZone(s, zid)
    case ActOpen => OpenZone(p, s, zid, zrwa)
    case ActReset => ResetZone(s, zid, full)
    case ActOffline => OfflineZone(s, zid)
    case ActFlush => FlushZone(p, s, lba)
  }

  lemma SendOneInv(p: Params, s: State, full: nat, action: Action, lba: nat, zrwa: bool)
    requires Inv(p, s) && p.Zid(lba) < p.nrZones
    ensures Inv(p, SendOne(p, s, full, action, lba, zrwa).0)
  {
    var zid := p.Zid(lba);
    AllReleasable(p, s, zid);
    assert ZoneOk(p, zid, s.zones[zid]);
    hide Inv;
    match action
    case ActClose => CloseInv(p, s, zid);
    case ActFinish => FinishInv(p, s, zid);
    case ActOpen => OpenInv(p, s, zid, zrwa);
    case ActReset => ResetInv(p, s, zid, full);
    case ActOffline => OfflineInv(p, s, zid);
    case ActFlush => FlushInv(p, s, lba);
  }

  /** When a management action on one zone is accepted. */
  predicate Admissible(p: Params, s: State, action: Action, lba: nat, zrwa: bool)
    requires p.Ok() && p.Zid(lba) < |s.zones|
  {
    var z := s.zones[p.Zid(lba)];
    match action
    case ActClose => IsActive(z)
    case ActFinish => true
    case ActOpen =>
      && (z.state.Empty? ==> s.active < p.maxActive && s.open < p.maxOpen && (zrwa ==> s.zrwa < p.maxZrwa))
      && (z.state.Closed? ==> s.open < p.maxOpen) && !z.state.Full?
    case ActReset => true
    case ActOffline => false
    case ActFlush =>
      && z.zrwav && p.HasZrwa() && IsActive(z) && z.wp <= lba < z.wp + p.zrwaLbas && lba < p.End(p.Zid(lba))
      && (lba - z.wp + 1) % p.zrwafgLbas == 0
  }

  /** The zone that an accepted action leaves, as the zone state machine has it. */
  ghost predicate Transition(p: Params, action: Action, lba: nat, zrwa: bool, z: Zone, z': Zone)
    requires p.Ok()
  {
    match action
    case ActClose => z' == z.(state := Closed)
    case ActFinish => z' == z.(state := Full)
    case ActOpen => z' == z.(state := OpenedExpl, zrwav := z.zrwav || (z.state.Empty? && zrwa))
    case ActReset => z' == Zone(Empty, z.zslba, z.zslba, false)
    case ActOffline => false
    case ActFlush => z' == z.(wp := lba + 1, state := if lba + 1 == p.End(p.Zid(lba)) then Full else z.state)
  }

  /** In every reachable state an action succeeds exactly when it is admissible, then makes the transition of its
      zone, and otherwise changes nothing; no other zone is touched. */
  lemma SendOneOutcome(p: Params, s: State, full: nat, action: Action, lba: nat, zrwa: bool)
    requires Inv(p, s) && p.Zid(lba) < p.nrZones
    ensures var (s', status) := SendOne(p, s, full, action, lba, zrwa); var zid := p.Zid(lba);
      && |s'.zones| == |s.zones|
      && (status == Success <==> Admissible(p, s, action, lba, zrwa))
      && (status == Success ==> Transition(p, action, lba, zrwa, s.zones[zid], s'.zones[zid]))
      && (status != Success ==> s' == s)
      && (forall i :: 0 <= i < p.nrZones && i != zid ==> s'.zones[i] == s.zones[i])
      && s'.fills == s.fills && s'.wb == s.wb
  {
    var zid := p.Zid(lba);
    assert ZoneOk(p, zid, s.zones[zid]);
    AllReleasable(p, s, zid);
    CountersBound(p, s);
    InZone(p, zid, lba);
    hide Inv, ZoneOk, Params.Start;
  }

  /** Which refusal an action meets in a reachable state.  Close, open and offline refuse by the state of the zone,
      open by the resource that is used up, looked at in the order active, open, ZRWA; a flush by the zone, the
      window, the flush granule and the state of the zone. */
  lemma SendOneRefusal(p: Params, s: State, full: nat, action: Action, lba: nat, zrwa: bool)
    requires Inv(p, s) && p.Zid(lba) < p.nrZones
    ensures var z, status := s.zones[p.Zid(lba)], SendOne(p, s, full, action, lba, zrwa).1;
      var opens, flushes := action.ActOpen? && z.state.Empty?, action.ActFlush? && z.zrwav;
      var inWindow := z.wp <= lba && BelowWindowEnd(z.wp + p.zrwaLbas, lba);
      var inGranules := 0 < p.zrwafgLbas && inWindow && (lba + 1 - z.wp) % p.zrwafgLbas == 0;
      && (status == InvalidTransition <==>
            (action.ActClose? && !IsActive(z)) || (action.ActOpen? && z.state.Full?) || action.ActOffline?)
      && (status == NoActiveZone <==> opens && s.active == p.maxActive)
      && (status == NoOpenZone <==>
            s.open == p.maxOpen && ((opens && s.active < p.maxActive) || (action.ActOpen? && z.state.Closed?)))
      && (status == ZrwaUnavail <==>
            opens && zrwa && s.active < p.maxActive && s.open < p.maxOpen && s.zrwa == p.maxZrwa)
      && (status == InvalidZoneOperation <==>
            action.ActFlush? && (!z.zrwav || !inWindow || (inGranules && !IsActive(z))))
      && (status == DivideFault <==> flushes && inWindow && p.zrwafgLbas == 0)
      && (status == InvalidField <==> flushes && inWindow && 0 < p.zrwafgLbas && !inGranules)
      && (status.Success? || status.InvalidTransition? || status.NoActiveZone? || status.NoOpenZone?
          || status.ZrwaUnavail? || status.InvalidZoneOperation? || status.DivideFault? || status.InvalidField?)
  {
    hide LogOk;
    var zid := p.Zid(lba);
    assert ZoneOk(p, zid, s.zones[zid]);
    AllReleasable(p, s, zid);
    CountersBound(p, s);
    InZone(p, zid, lba);
    hide Inv, ZoneOk, Params.Start;
  }

  lemma StartInRange(p: Params, zid: nat)
    requires p.Ok() && zid < p.nrZones
    ensures p.Zid(p.Start(zid)) == zid
  {
    InZone(p, zid, p.Start(zid));
  }

  /** The select-all loop of zns_zmgmt_send, from zone `zid` on; the statuses are dropped. */
  function SendAll(p: Params, s: State, full: nat, action: Action, zrwa: bool, zid: nat): (r: State)
    requires Inv(p, s) && zid <= p.nrZones
    ensures Inv(p, r)
    decreases p.nrZones - zid
  {
    if zid == p.nrZones then s else
    StartInRange(p, zid);
    SendOneInv(p, s, full, action, p.Start(zid), zrwa);
    SendAll(p, SendOne(p, s, full, action, p.Start(zid), zrwa).0, full, action, zrwa, zid + 1)
  }

  /** `s'` is what the action on zone `zid` makes of `s`. */
  ghost predicate Sent(p: Params, s: State, full: nat, action: Action, zrwa: bool, zid: nat, s': State) {
    && Inv(p, s) && p.Ok() && zid < p.nrZones && p.Zid(p.Start(zid)) == zid
    && s' == SendOne(p, s, full, action, p.Start(zid), zrwa).0
  }

  /** Select-all sends the action to the zones one after the other, in the order of their numbers. */
  lemma {:induction false} SendAllInOrder(p: Params, s: State, full: nat, action: Action, zrwa: bool, zid: nat)
    returns (ss: seq<State>)
    requires Inv(p, s) && zid <= p.nrZones
    ensures |ss| == p.nrZones - zid + 1 && ss[0] == s && ss[p.nrZones - zid] == SendAll(p, s, full, action, zrwa, zid)
    ensures forall i :: 0 <= i < p.nrZones - zid ==> Sent(p, ss[i], full, action, zrwa, zid + i, ss[i + 1])
    decreases p.nrZones - zid
  {
    hide Inv, SendOne, Params.Start, Params.Zid;
    ss := [s];
    if zid < p.nrZones {
      InvSizes(p, s);
      StartInRange(p, zid);
      SendOneInv(p, s, full, action, p.Start(zid), zrwa);
      var next := SendOne(p, s, full, action, p.Start(zid), zrwa).0;
      var rest := SendAllInOrder(p, next, full, action, zrwa, zid + 1);
      assert Sent(p, s, full, action, zrwa, zid, next);
      hide Sent;
      ss := [s] + rest;
      forall i | 0 <= i < p.nrZones - zid ensures Sent(p, ss[i], full, action, zrwa, zid + i, ss[i + 1]) {
        if i > 0 { assert Sent(p, rest[i - 1], full, action, zrwa, zid + 1 + (i - 1), rest[i]); }
      }
    }
  }

  /** What select-all makes of each zone, for the actions that need no resource. */
  ghost predicate SentAll(action: Action, z: Zone, z': Zone) {
    match action
    case ActClose => z' == if IsActive(z) then z.(state := Closed) else z
    case ActFinish => z' == z.(state := Full)
    case ActReset => z' == Zone(Empty, z.zslba, z.zslba, false)
    case _ => false
  }

  /** Select-all closes, finishes or resets every zone, whatever the statuses on the way. */
  lemma {:induction false} SendAllReachesAll(p: Params, s: State, full: nat, action: Action, zrwa: bool, zid: nat)
    requires Inv(p, s) && zid <= p.nrZones && (action.ActClose? || action.ActFinish? || action.ActReset?)
    ensures var s' := SendAll(p, s, full, action, zrwa, zid);
      && |s'.zones| == p.nrZones && s'.fills == s.fills
      && (forall i :: 0 <= i < zid ==> s'.zones[i] == s.zones[i])
      && (forall i :: zid <= i < p.nrZones ==> SentAll(action, s.zones[i], s'.zones[i]))
    decreases p.nrZones - zid
  {
    InvSizes(p, s);
    if zid < p.nrZones {
      StartInRange(p, zid);
      SendOneInv(p, s, full, action, p.Start(zid), zrwa);
      SendOneOutcome(p, s, full, action, p.Start(zid), zrwa);
      var t := SendOne(p, s, full, action, p.Start(zid), zrwa).0;
      SendAllReachesAll(p, t, full, action, zrwa, zid + 1);
      assert SentAll(action, s.zones[zid], t.zones[zid]);
      hide Inv, SendOne, Admissible, Transition;
    }
  }

  lemma InvSizes(p: Params, s: State)
    requires Inv(p, s)
    ensures p.Ok() && |s.zones| == |s.logs| == |s.zbuf| == p.nrZones
  {
  }

  /** After finishing or resetting all zones no resource is held but those of the fills; after closing all none is
      open. */
  lemma SendAllReleases(p: Params, s: State, full: nat, action: Action, zrwa: bool)
    requires Inv(p, s) && (action.ActClose? || action.ActFinish? || action.ActReset?)
    ensures var s' := SendAll(p, s, full, action, zrwa, 0);
      s'.open == 0 && (!action.ActClose? ==> s'.active == 0 && s'.zrwa == s.fills)
  {
    var s' := SendAll(p, s, full, action, zrwa, 0);
    SendAllReachesAll(p, s, full, action, zrwa, 0);
    hide SendAll;
    CountNone(s'.zones, IsOpen);
    if !action.ActClose? {
      CountNone(s'.zones, IsActive);
      CountNone(s'.zones, HoldsZrwa);
    }
  }

  /** The host addresses blocks of the namespace only. */
  predicate InRange(p: Params, c: Command)
    requires p.Ok()
  {
    match c
    case Write(lba, nlb, append) => p.Zid(lba) < p.nrZones && 0 < nlb
    case Send(action, lba, selectAll, zrwa) => selectAll || p.Zid(lba) < p.nrZones
    case RefillWb(w, bytes) => w < (if p.zoneWb > 0 then p.nrZones else 1)
    case RefillZrwa(zid, bytes) => zid < p.nrZones
  }

  function Exec(p: Params, s: State, full: nat, c: Command): State
    requires Inv(p, s) && InRange(p, c)
  {
    match c
    case Write(lba, nlb, append) => WriteCommand(p, s, lba, nlb, append).after
    case Send(action, lba, selectAll, zrwa) =>
      if selectAll then SendAll(p, s, full, action, zrwa, 0) else SendOne(p, s, full, action, lba, zrwa).0
    case RefillWb(w, bytes) => s.(wb := s.wb[w := s.wb[w] + bytes])
    case RefillZrwa(zid, bytes) => s.(zbuf := s.zbuf[zid := s.zbuf[zid] + bytes])
  }

  lemma ExecInv(p: Params, s: State, full: nat, c: Command)
    requires Inv(p, s) && InRange(p, c)
    ensures Inv(p, Exec(p, s, full, c))
  {
    match c
    case Write(lba, nlb, append) =>
      if s.zones[p.Zid(lba)].zrwav { ZrwaInv(p, s, lba, nlb); } else { PlainInv(p, s, lba, nlb, append); }
    case Send(action, lba, selectAll, zrwa) =>
      if !selectAll { SendOneInv(p, s, full, action, lba, zrwa); }
    case RefillWb(w, bytes) => BufferInv(p, s, s.wb[w := s.wb[w] + bytes], s.zbuf);
    case RefillZrwa(zid, bytes) => BufferInv(p, s, s.wb, s.zbuf[zid := s.zbuf[zid] + bytes]);
  }

  ghost function Run(p: Params, s: State, full: nat, cs: seq<Command>): (r: State)
    requires Inv(p, s) && forall i :: 0 <= i < |cs| ==> InRange(p, cs[i])
    ensures Inv(p, r)
    decreases |cs|
  {
    if cs == [] then s else
    ExecInv(p, s, full, cs[0]);
    Run(p, Exec(p, s, full, cs[0]), full, cs[1..])
  }

  // ---------- the status of a write to a full zone ----------

  /** A plain write never reports FULL or READ_ONLY.  Exactly a write that passes all other checks of a full zone
      reports OFFLINE. */
  lemma PlainStatus(p: Params, s: State, lba: nat, nlb: nat, append: bool)
    requires Inv(p, s) && p.Zid(lba) < p.nrZones && 0 < nlb
    ensures var zid := p.Zid(lba); var z, o := s.zones[zid], WritePlain(p, s, lba, nlb, append).1;
      var slba := if append then z.wp else lba;
      && o != Done(ErrFull) && o != Done(ErrReadOnly)
      && (o == Done(ErrOffline) <==>
            && z.state.Full? && nlb * LBA_SIZE <= s.wb[p.WbIndex(zid)] && nlb * LBA_SIZE % p.writeUnit == 0
            && slba == z.wp && p.Zid(slba) == p.Zid(slba + nlb - 1))
  {
    assert ZoneOk(p, p.Zid(lba), s.zones[p.Zid(lba)]);
    AllReleasable(p, s, p.Zid(lba));
    hide Inv, ZoneOk;
  }

  /** And every other answer: without buffer space the write is offered again; the checks come in the order write unit,
      zone boundary, write pointer, state of the zone, resources. */
  lemma PlainRefusal(p: Params, s: State, lba: nat, nlb: nat, append: bool)
    requires Inv(p, s) && p.Zid(lba) < p.nrZones && 0 < nlb
    ensures var zid := p.Zid(lba); var z, o := s.zones[zid], WritePlain(p, s, lba, nlb, append).1;
      var slba := if append then z.wp else lba;
      var room, units := nlb * LBA_SIZE <= s.wb[p.WbIndex(zid)], nlb * LBA_SIZE % p.writeUnit == 0;
      var inside, atWp := p.Zid(slba) == p.Zid(slba + nlb - 1), slba == z.wp;
      var checked := room && units && inside && atWp;
      && (o == Retry <==> !room)
      && (o == Done(ErrBoundary) <==> room && units && !inside)
      && (o == Done(InvalidWrite) <==> room && (!units || (inside && !atWp)))
      && (o == Done(NoActiveZone) <==> checked && z.state.Empty? && s.active == p.maxActive)
      && (o == Done(NoOpenZone) <==>
            checked && s.open == p.maxOpen && (z.state.Closed? || (z.state.Empty? && s.active < p.maxActive)))
      && (o == Retry || (o.Done? && (o.status.Success? || o.status.ErrBoundary? || o.status.InvalidWrite?
                                     || o.status.NoActiveZone? || o.status.NoOpenZone? || o.status.ErrOffline?)))
  {
    hide LogOk;
    var zid := p.Zid(lba);
    assert ZoneOk(p, zid, s.zones[zid]);
    AllReleasable(p, s, zid);
    CountersBound(p, s);
    hide Inv, ZoneOk;
  }

  /** What an accepted plain write does: the data go to the write pointer, which moves behind them; the zone is FULL
      exactly when it is written to its end, and otherwise open as it was, or implicitly; no other zone changes. */
  lemma PlainEffect(p: Params, s: State, lba: nat, nlb: nat, append: bool)
    requires Inv(p, s) && p.Zid(lba) < p.nrZones && 0 < nlb && !s.zones[p.Zid(lba)].zrwav
    requires WritePlain(p, s, lba, nlb, append).1 == Done(Success)
    ensures var zid, e := p.Zid(lba), WriteCommand(p, s, lba, nlb, append); var z, s' := s.zones[zid], e.after;
      && e.outcome == Done(Success) && e.addr == z.wp && |s'.zones| == |s.zones| == |s'.logs| == |s.logs|
      && s'.zones[zid].wp == z.wp + nlb <= p.End(zid)
      && s'.zones[zid] == z.(wp := z.wp + nlb, state := s'.zones[zid].state)
      && s'.zones[zid].state == (if z.wp + nlb == p.End(zid) then Full else if IsOpen(z) then z.state else OpenedImpl)
      && s'.logs[zid].writes == s.logs[zid].writes + [Extent(e.addr, nlb)]
      && (forall i :: 0 <= i < p.nrZones && i != zid ==> s'.zones[i] == s.zones[i] && s'.logs[i] == s.logs[i])
      && s'.zbuf == s.zbuf && s'.fills == s.fills
  {
    hide LogOk, Counters, ReleaseLoop;
    PlainAccepted(p, s, lba, nlb, append);
    assert ZoneOk(p, p.Zid(lba), s.zones[p.Zid(lba)]);
    hide Inv, WritePlain, PlainAdmissible, ZoneOk;
  }

  /** What the reopening of a closed zone takes from its ZRWA buffer. */
  function ReopenCost(p: Params, z: Zone): nat { if z.state.Closed? then p.zrwaLbas * LBA_SIZE else 0 }

  /** The answers of a ZRWA write that is not accepted, beside the failing assertion and the division by zero: the
      checks come in the order write unit, zone boundary, window, state of the zone, room for the flush. */
  lemma ZrwaRefusal(p: Params, s: State, slba: nat, nlb: nat)
    requires Inv(p, s) && p.Zid(slba) < p.nrZones && 0 < nlb && s.zones[p.Zid(slba)].zrwav
    ensures var zid, elba := p.Zid(slba), slba + nlb - 1; var z, o := s.zones[zid], WriteZrwa(p, s, slba, nlb).1;
      var units, inside := nlb * LBA_SIZE % p.writeUnit == 0, p.Zid(elba) == zid;
      var ranged := z.wp <= slba && BelowWindowEnd(z.wp + 2 * p.zrwaLbas, elba);
      var checked := units && inside && ranged;
      && (o == Done(ErrBoundary) <==> units && !inside)
      && (o == Done(InvalidWrite) <==> !units || (inside && !ranged))
      && (o == Done(NoOpenZone) <==> checked && z.state.Closed? && s.open == p.maxOpen)
      && (o == Done(ErrFull) <==> checked && z.state.Full?)
      && (o == Retry <==>
            && checked && (IsOpen(z) || (z.state.Closed? && s.open < p.maxOpen && 0 < p.zrwaLbas))
            && (Divides(p, z.wp, elba) ==> p.HasZrwa()) && ReopenCost(p, z) <= s.zbuf[zid]
            && s.zbuf[zid] < ReopenCost(p, z) + ZrwaFlush(p, zid, z.wp, elba) * LBA_SIZE)
      && (o.Done? ==> o.status.Success? || o.status.ErrBoundary? || o.status.InvalidWrite? || o.status.NoOpenZone?
                      || o.status.ErrFull?)
  {
    hide LogOk, ZrwaFlush;
    var zid := p.Zid(slba);
    assert ZoneOk(p, zid, s.zones[zid]);
    AllReleasable(p, s, zid);
    CountersBound(p, s);
    hide Inv, ZoneOk, Counters;
  }

  /** What a ZRWA write leaves: the reopening and the implicit flush are paid from the zone's own buffer, the write
      pointer moves by the flush; a write that finds no room for its flush has still reopened the zone.  The data go to
      the address that was given, also those of an append. */
  lemma ZrwaEffect(p: Params, s: State, slba: nat, nlb: nat)
    requires Inv(p, s) && p.Zid(slba) < p.nrZones && 0 < nlb && s.zones[p.Zid(slba)].zrwav
    ensures var zid, elba, r := p.Zid(slba), slba + nlb - 1, WriteZrwa(p, s, slba, nlb); var z, s' := s.zones[zid], r.0;
      var cost, live := ReopenCost(p, z), if IsOpen(z) then z.state else OpenedImpl;
      && (r.1 == Done(Success) ==>
            && z.wp <= elba && (Divides(p, z.wp, elba) ==> p.HasZrwa())
            && var n := ZrwaFlush(p, zid, z.wp, elba);
               && cost + n * LBA_SIZE <= s.zbuf[zid] && s'.zbuf == s.zbuf[zid := s.zbuf[zid] - cost - n * LBA_SIZE]
               && s'.zones
                  == s.zones[zid := z.(wp := z.wp + n, state := if z.wp + n == p.End(zid) then Full else live)])
      && (r.1.Retry? || r.1.Fault? ==>
            && cost <= s.zbuf[zid] && s'.zbuf == s.zbuf[zid := s.zbuf[zid] - cost]
            && s'.zones == s.zones[zid := z.(state := live)])
      && (r.1.Bug? || (r.1.Done? && !r.1.status.Success?) ==> s' == s)
      && s'.wb == s.wb && s'.logs == s.logs && s'.zrwa == s.zrwa
    ensures forall append: bool ::
      WriteCommand(p, s, slba, nlb, append) == Effect(WriteZrwa(p, s, slba, nlb).0, WriteZrwa(p, s, slba, nlb).1, slba)
  {
    hide LogOk, ZrwaFlush, ZrwaMove, Counters, ZoneOk;
    var zid, elba := p.Zid(slba), slba + nlb - 1;
    ZoneFacts(p, s, zid);
    hide Inv, Params.Start, Params.End;
    var z := s.zones[zid];
    if z.wp <= elba {
      if IsOpen(z) { MoveEffect(p, s, zid, elba); }
      if z.state.Closed? && s.zbuf[zid] >= p.zrwaLbas * LBA_SIZE { MoveEffect(p, Reopened(p, s, zid), zid, elba); }
    }
  }

  lemma MoveEffect(p: Params, s: State, zid: nat, elba: nat)
    requires p.Ok() && zid < |s.zones| == |s.zbuf| && s.open > 0 && s.active > 0 && s.zones[zid].wp <= elba
    requires IsOpen(s.zones[zid]) && s.zones[zid].wp < p.End(zid)
    ensures var z, r := s.zones[zid], ZrwaMove(p, s, zid, elba); var s' := r.0;
      && (r.1 == Done(Success) ==>
            && (Divides(p, z.wp, elba) ==> p.HasZrwa())
            && var n := ZrwaFlush(p, zid, z.wp, elba);
               && n * LBA_SIZE <= s.zbuf[zid] && s'.zbuf == s.zbuf[zid := s.zbuf[zid] - n * LBA_SIZE]
               && s'.zones
                  == s.zones[zid := z.(wp := z.wp + n, state := if z.wp + n == p.End(zid) then Full else z.state)])
      && (r.1 != Done(Success) ==> s' == s)
      && !r.1.Bug? && (r.1.Done? ==> r.1.status.Success?)
      && s'.wb == s.wb && s'.logs == s.logs && s'.zrwa == s.zrwa
  {
    hide ZrwaFlush;
  }

  /** The release loop of __zns_write_zrwa over `n` pages of a zone from page `a` on: one release for every one-shot
      page completed, none for an incomplete last one. */
  function ZrwaReleases(p: Params, a: nat, n: nat): nat
    requires p.Ok()
    decreases n
  {
    if n == 0 then 0 else
    var off := a % p.oneshot;
    var pgs := if n <= p.oneshot - off then n else p.oneshot - off;
    (if off + pgs == p.oneshot then p.oneshot * PG_SIZE else 0) + ZrwaReleases(p, a + pgs, n - pgs)
  }

  /** The loop schedules the one-shot pages that end among the `n` pages. */
  lemma {:induction false} ReleasesOneshots(p: Params, a: nat, n: nat)
    requires p.Ok()
    ensures ZrwaReleases(p, a, n) + a / p.oneshot * p.oneshot * PG_SIZE == (a + n) / p.oneshot * p.oneshot * PG_SIZE
    decreases n
  {
    if n > 0 {
      var off := a % p.oneshot;
      var pgs := if n <= p.oneshot - off then n else p.oneshot - off;
      ReleaseStep(p.oneshot, a, pgs);
      ReleasesOneshots(p, a + pgs, n - pgs);
      assert a + pgs + (n - pgs) == a + n;
    }
  }

  /** The bytes that a ZRWA write schedules for release. */
  function ZrwaScheduled(p: Params, s: State, slba: nat, nlb: nat): nat
    requires Inv(p, s) && p.Zid(slba) < p.nrZones && 0 < nlb && s.zones[p.Zid(slba)].zrwav
  {
    var zid := p.Zid(slba);
    var z := s.zones[zid];
    if WriteZrwa(p, s, slba, nlb).1 == Done(Success) then
      ZrwaEffect(p, s, slba, nlb);
      ZoneFacts(p, s, zid);
      ZrwaReleases(p, (z.wp - z.zslba) / SECS_PER_PG, ZrwaFlush(p, zid, z.wp, slba + nlb - 1) / SECS_PER_PG)
    else 0
  }

  // ---------- an append that is offered again ----------

  /** A refused append and its second offer, when the namespace has come to `t`: the two are the same, with the data
      in the same place, if the first zone was not written to its end and is not a random write area by now, unless
      the address never changed.  If either would be accepted this is exact.  From the end of its zone the second
      offer goes to the next zone, which for the last zone does not exist. */
  lemma RetriedAppend(p: Params, s: State, lba: nat, nlb: nat, t: State)
    requires Inv(p, s) && p.Zid(lba) < p.nrZones && 0 < nlb && !s.zones[p.Zid(lba)].zrwav && Inv(p, t)
    ensures var zid, again := p.Zid(lba), Rewritten(p, s, lba, true); var z := s.zones[zid];
      && (p.Zid(again) == if z.wp < p.End(zid) then zid else zid + 1)
      && (p.Zid(again) < p.nrZones ==>
            var first, second := WriteCommand(p, t, lba, nlb, true), WriteCommand(p, t, again, nlb, true);
            var same := z.wp < p.End(zid) && (again == lba || !t.zones[zid].zrwav);
            && (same ==> first == second)
            && (first.outcome == Done(Success) || second.outcome == Done(Success) ==> (first == second <==> same)))
  {
    var zid := p.Zid(lba);
    assert ZoneOk(p, zid, s.zones[zid]);
    InZone(p, zid, s.zones[zid].wp);
    InZone(p, zid + 1, s.zones[zid].wp);
    NextZone(p, zid);
    hide Inv, ZoneOk, WriteCommand, Params.Start, Params.End, Params.Zid;
    if s.zones[zid].wp < p.End(zid) {
      SameZone(p, t, lba, Rewritten(p, s, lba, true), nlb);
    } else if zid + 1 < p.nrZones {
      OtherZone(p, t, lba, Rewritten(p, s, lba, true), nlb);
    }
  }

  /** Two appends to one zone differ only if it is a random write area zone, in where the data go. */
  lemma SameZone(p: Params, t: State, lba: nat, again: nat, nlb: nat)
    requires Inv(p, t) && p.Zid(lba) < p.nrZones && p.Zid(again) == p.Zid(lba) && 0 < nlb
    ensures WriteCommand(p, t, lba, nlb, true) == WriteCommand(p, t, again, nlb, true)
       <==> again == lba || !t.zones[p.Zid(lba)].zrwav
  {
    hide Inv, WriteZrwa, AcceptWrite, PlainSwitch;
  }

  /** Two appends to neighbouring zones of which one is accepted put the data in different places or differ in
      outcome. */
  lemma OtherZone(p: Params, t: State, lba: nat, again: nat, nlb: nat)
    requires Inv(p, t) && p.Zid(lba) + 1 == p.Zid(again) < p.nrZones && 0 < nlb
    ensures var first, second := WriteCommand(p, t, lba, nlb, true), WriteCommand(p, t, again, nlb, true);
      first.outcome == Done(Success) || second.outcome == Done(Success) ==> first != second
  {
    hide LogOk, Counters, WritePlain, WriteZrwa;
    var zid := p.Zid(lba);
    assert ZoneOk(p, zid, t.zones[zid]) && ZoneOk(p, zid + 1, t.zones[zid + 1]);
    InZone(p, zid, lba);
    InZone(p, zid + 1, again);
    NextZone(p, zid);
    if !t.zones[zid].zrwav { PlainAccepted(p, t, lba, nlb, true); }
    hide Inv, ZoneOk, WritePlain, WriteZrwa, Params.Start, Params.End, Params.Zid;
  }

  lemma NextZone(p: Params, zid: nat)
    ensures p.Start(zid + 1) == p.End(zid) && (0 < p.zoneLbas ==> p.End(zid) < p.End(zid + 1))
  {
  }

  // ---------- ZRWA resources lost ----------

  /** Exactly a write that ends at the end of the zone and inside the window of its write pointer fills the zone; the
      ZRWA resource of the zone stays acquired. */
  lemma ZrwaFill(p: Params, s: State, slba: nat, nlb: nat)
    requires Inv(p, s) && p.Zid(slba) < p.nrZones && 0 < nlb && s.zones[p.Zid(slba)].zrwav
    ensures var zid, elba, r := p.Zid(slba), slba + nlb - 1, WriteZrwa(p, s, slba, nlb); var z := s.zones[zid];
      && |r.0.zones| == |s.zones| && r.0.zrwa == s.zrwa && s.fills <= r.0.fills <= s.fills + 1
      && (r.1 != Done(Success) ==> r.0.fills == s.fills)
      && (r.1 == Done(Success) ==>
            && (r.0.fills == s.fills + 1 <==> elba + 1 == p.End(zid) <= z.wp + p.zrwaLbas)
            && (r.0.fills == s.fills + 1 <==> r.0.zones[zid].state.Full?))
  {
    hide ZrwaMove, Counters, LogOk;
    ZoneFacts(p, s, p.Zid(slba));
    hide Inv, ZoneOk, Params.Start, Params.End;
    var zid, elba := p.Zid(slba), slba + nlb - 1;
    var z := s.zones[zid];
    InZone(p, zid, slba);
    InZone(p, zid, elba);
    if z.wp <= elba < p.End(zid) {
      if IsOpen(z) { MoveFill(p, s, zid, elba); }
      if z.state.Closed? && p.zrwaLbas * LBA_SIZE <= s.zbuf[zid] { MoveFill(p, Reopened(p, s, zid), zid, elba); }
    }
  }

  lemma MoveFill(p: Params, s: State, zid: nat, elba: nat)
    requires p.Ok() && zid < |s.zones| == |s.zbuf| && s.open > 0 && s.active > 0
    requires IsOpen(s.zones[zid]) && s.zones[zid].wp <= elba < p.End(zid)
    ensures var r, filled := ZrwaMove(p, s, zid, elba), elba + 1 == p.End(zid) <= s.zones[zid].wp + p.zrwaLbas;
      && |r.0.zones| == |s.zones| && r.0.zrwa == s.zrwa
      && (r.1 != Done(Success) ==> r.0.fills == s.fills)
      && (r.1 == Done(Success) ==> r.0.fills == s.fills + B(filled) && (r.0.zones[zid].state.Full? <==> filled))
  {
    hide ZrwaFlush, Params.End;
    if Divides(p, s.zones[zid].wp, elba) ==> p.HasZrwa() { ZrwaFlushEnd(p, zid, s.zones[zid].wp, elba); }
  }

  lemma ZoneFacts(p: Params, s: State, zid: nat)
    requires Inv(p, s) && zid < p.nrZones
    ensures p.Ok() && |s.zones| == |s.logs| == |s.zbuf| == p.nrZones && Releasable(s, zid)
    ensures ZoneOk(p, zid, s.zones[zid]) && s.zones[zid].zslba == p.Start(zid) <= s.zones[zid].wp <= p.End(zid)
    ensures !s.zones[zid].state.Full? ==> s.zones[zid].wp < p.End(zid)
  {
    assert ZoneOk(p, zid, s.zones[zid]);
    AllReleasable(p, s, zid);
  }

  lemma ZrwaFlushEnd(p: Params, zid: nat, wp: nat, elba: nat)
    requires p.Ok() && (Divides(p, wp, elba) ==> p.HasZrwa()) && wp <= elba < p.End(zid)
    ensures var n := ZrwaFlush(p, zid, wp, elba);
      wp + n == p.End(zid) <==> elba + 1 == p.End(zid) <= wp + p.zrwaLbas
  {
    ZrwaFlushLands(p, zid, wp, elba);
    if Divides(p, wp, elba) { RoundUpBounds(elba - (wp + p.zrwaLbas) + 1, p.zrwafgLbas); }
  }

  /** Fills are for ever. */
  lemma ExecKeepsFills(p: Params, s: State, full: nat, c: Command)
    requires Inv(p, s) && InRange(p, c)
    ensures s.fills <= Exec(p, s, full, c).fills
  {
    match c
    case Write(lba, nlb, append) =>
      AllReleasable(p, s, p.Zid(lba));
      if s.zones[p.Zid(lba)].zrwav { ZrwaFill(p, s, lba, nlb); }
      hide Inv, WriteZrwa;
    case Send(action, lba, selectAll, zrwa) =>
      if selectAll {
        SendAllKeepsFills(p, s, full, action, zrwa, 0);
      } else {
        SendOneOutcome(p, s, full, action, lba, zrwa);
      }
      hide Inv, SendAll, SendOne, Admissible, Transition;
    case RefillWb(w, bytes) =>
    case RefillZrwa(zid, bytes) =>
  }

  lemma {:induction false} SendAllKeepsFills(p: Params, s: State, full: nat, action: Action, zrwa: bool, zid: nat)
    requires Inv(p, s) && zid <= p.nrZones
    ensures SendAll(p, s, full, action, zrwa, zid).fills == s.fills
    decreases p.nrZones - zid
  {
    if zid < p.nrZones {
      StartInRange(p, zid);
      SendOneInv(p, s, full, action, p.Start(zid), zrwa);
      SendOneOutcome(p, s, full, action, p.Start(zid), zrwa);
      hide Inv, SendOne, Admissible, Transition;
      SendAllKeepsFills(p, SendOne(p, s, full, action, p.Start(zid), zrwa).0, full, action, zrwa, zid + 1);
    }
  }

  lemma {:induction false} RunKeepsFills(p: Params, s: State, full: nat, cs: seq<Command>)
    requires Inv(p, s) && forall i :: 0 <= i < |cs| ==> InRange(p, cs[i])
    ensures s.fills <= Run(p, s, full, cs).fills
    decreases |cs|
  {
    hide Inv, Exec, InRange;
    if cs != [] {
      ExecInv(p, s, full, cs[0]);
      ExecKeepsFills(p, s, full, cs[0]);
      RunKeepsFills(p, Exec(p, s, full, cs[0]), full, cs[1..]);
    }
  }

  /** Once fills have used up the ZRWA resources, whatever commands follow, no zone holds one and none can be opened
      with a random write area again. */
  lemma FillsExhaustZrwa(p: Params, s: State, full: nat, cs: seq<Command>, zid: nat)
    requires Inv(p, s) && (forall i :: 0 <= i < |cs| ==> InRange(p, cs[i])) && s.fills == p.maxZrwa && zid < p.nrZones
    ensures var s' := Run(p, s, full, cs);
      && CountIf(s'.zones, HoldsZrwa) == 0 && s'.fills == s'.zrwa == p.maxZrwa
      && (s'.zones[zid].state.Empty? ==> OpenZone(p, s', zid, true).0 == s' && OpenZone(p, s', zid, true).1 != Success)
  {
    RunKeepsFills(p, s, full, cs);
    hide Run, ZoneOk, LogOk;
  }

  // ---------- what holds after every command sequence ----------

  /** Resources, states and write pointers after any run. */
  lemma EveryRunKeepsZones(p: Params, zrwaBuffer: nat, writeBuffer: nat, cs: seq<Command>, zid: nat)
    requires p.Ok() && zid < p.nrZones && forall i :: 0 <= i < |cs| ==> InRange(p, cs[i])
    ensures Inv(p, Initial(p, zrwaBuffer, writeBuffer))
    ensures var s := Run(p, Initial(p, zrwaBuffer, writeBuffer), zrwaBuffer, cs); var z := s.zones[zid];
      && s.open == CountIf(s.zones, IsOpen) <= p.maxOpen
      && s.active == CountIf(s.zones, IsActive) <= p.maxActive
      && s.zrwa == CountIf(s.zones, HoldsZrwa) + s.fills <= p.maxZrwa
      && !z.state.ReadOnly? && !z.state.Offline? && (z.state.Empty? ==> !z.zrwav && z.wp == p.Start(zid))
      && p.Start(zid) <= z.wp <= p.End(zid) && (z.wp == p.End(zid) ==> z.state.Full?)
      && (z.zrwav && !z.state.Full? && p.HasZrwa() ==> (z.wp - p.Start(zid)) % p.zrwafgLbas == 0)
  {
    InitialInv(p, zrwaBuffer, writeBuffer);
    var s := Run(p, Initial(p, zrwaBuffer, writeBuffer), zrwaBuffer, cs);
    hide Run;
    assert ZoneOk(p, zid, s.zones[zid]);
  }

  /** After any run, the writes that a zone without random write area accepted since its last reset put every block
      below the write pointer in exactly one of them, in order. */
  lemma EveryRunTilesZones(p: Params, zrwaBuffer: nat, writeBuffer: nat, cs: seq<Command>, zid: nat, lba: nat)
    requires p.Ok() && zid < p.nrZones && forall i :: 0 <= i < |cs| ==> InRange(p, cs[i])
    ensures Inv(p, Initial(p, zrwaBuffer, writeBuffer))
    ensures var s := Run(p, Initial(p, zrwaBuffer, writeBuffer), zrwaBuffer, cs);
      var z, ws := s.zones[zid], s.logs[zid].writes;
      !z.zrwav ==>
        && (p.Start(zid) <= lba < z.wp <==> exists i :: 0 <= i < |ws| && ws[i].slba <= lba < ws[i].slba + ws[i].nlb)
        && (forall i, j :: 0 <= i < j < |ws| ==> ws[i].slba + ws[i].nlb <= ws[j].slba)
  {
    InitialInv(p, zrwaBuffer, writeBuffer);
    var s := Run(p, Initial(p, zrwaBuffer, writeBuffer), zrwaBuffer, cs);
    hide Run;
    assert ZoneOk(p, zid, s.zones[zid]) && LogOk(p, zid, s.zones[zid], s.logs[zid]);
    if !s.zones[zid].zrwav { TilesCoverOnce(s.logs[zid].writes, p.Start(zid), s.zones[zid].wp, lba); }
  }

  /** Write-buffer conservation: what accepted writes took and is not yet scheduled for release is the partly filled
      one-shot page, and nothing when the zone is written to its end. */
  lemma BufferBalance(p: Params, s: State, zid: nat)
    requires Inv(p, s) && zid < p.nrZones && !s.zones[zid].zrwav && p.writeUnit % PG_SIZE == 0
    ensures var z, g := s.zones[zid], s.logs[zid];
      var partial := if z.wp == p.End(zid) then 0 else (z.wp - p.Start(zid)) / SECS_PER_PG % p.oneshot;
      g.released + partial * PG_SIZE == g.reserved
  {
    var z, g := s.zones[zid], s.logs[zid];
    assert ZoneOk(p, zid, z) && LogOk(p, zid, z, g);
    var n := (z.wp - p.Start(zid)) / SECS_PER_PG;
    assert g.reserved == n * PG_SIZE;
    hide Inv, ZoneOk, LogOk, Tiles;
    DivMod(n, p.oneshot);
  }

  /** Bytes are taken and lost exactly when the buffer has room for a write that is not admissible: it is rejected and
      changes nothing else.  Without room nothing changes at all. */
  lemma RejectedWriteKeepsBytes(p: Params, s: State, lba: nat, nlb: nat, append: bool)
    requires Inv(p, s) && p.Zid(lba) < p.nrZones && 0 < nlb && !s.zones[p.Zid(lba)].zrwav
    ensures var r, w := WritePlain(p, s, lba, nlb, append), p.WbIndex(p.Zid(lba));
      var room := nlb * LBA_SIZE <= s.wb[w];
      && (!room <==> r == (s, Retry))
      && (room && !PlainAdmissible(p, s, lba, nlb, append) <==> r.1.Done? && r.1.status != Success)
      && (room ==> (!PlainAdmissible(p, s, lba, nlb, append) <==> r.0 == Charged(s, w, nlb * LBA_SIZE)))
  {
    PlainAccepted(p, s, lba, nlb, append);
    hide Inv, PlainAdmissible, Params.End;
  }

  /** `s` with bytes taken from a write buffer and nothing else done. */
  function Charged(s: State, w: nat, bytes: nat): State
    requires w < |s.wb| && bytes <= s.wb[w]
  {
    s.(wb := s.wb[w := s.wb[w] - bytes])
  }

  /** The assertion in the reopening of a closed ZRWA zone holds exactly while the zone's buffer still has room for a
      whole random write area. */
  lemma ReopenAssertion(p: Params, s: State, slba: nat, nlb: nat)
    requires Inv(p, s) && p.Zid(slba) < p.nrZones && 0 < nlb && s.zones[p.Zid(slba)].zrwav
    ensures var zid := p.Zid(slba); var z, elba := s.zones[zid], slba + nlb - 1;
      WriteZrwa(p, s, slba, nlb).1 == Bug <==>
        && z.state.Closed? && s.open < p.maxOpen && nlb * LBA_SIZE % p.writeUnit == 0 && p.Zid(elba) == zid
        && z.wp <= slba && BelowWindowEnd(z.wp + 2 * p.zrwaLbas, elba)
        && (p.zrwaLbas == 0 || s.zbuf[zid] < p.zrwaLbas * LBA_SIZE)
  {
    assert ZoneOk(p, p.Zid(slba), s.zones[p.Zid(slba)]);
  }

  /** A ZRWA write divides by zero exactly if it is otherwise admissible, the namespace has no flush granularity, and
      it ends past the window of the write pointer. */
  lemma WriteDivides(p: Params, s: State, slba: nat, nlb: nat)
    requires Inv(p, s) && p.Zid(slba) < p.nrZones && 0 < nlb && s.zones[p.Zid(slba)].zrwav
    ensures var zid := p.Zid(slba); var z, elba := s.zones[zid], slba + nlb - 1;
      WriteZrwa(p, s, slba, nlb).1 == Fault <==>
        && !p.HasZrwa() && nlb * LBA_SIZE % p.writeUnit == 0 && p.Zid(elba) == zid
        && z.wp <= slba && BelowWindowEnd(z.wp + 2 * p.zrwaLbas, elba) && Divides(p, z.wp, elba)
        && (IsOpen(z) || (z.state.Closed? && s.open < p.maxOpen && 0 < p.zrwaLbas * LBA_SIZE <= s.zbuf[zid]))
  {
    assert ZoneOk(p, p.Zid(slba), s.zones[p.Zid(slba)]);
    AllReleasable(p, s, p.Zid(slba));
    hide Inv;
  }

  /** So does an explicit flush, exactly if the namespace has no flush granularity and the block is in the window. */
  lemma FlushDivides(p: Params, s: State, slba: nat)
    requires Inv(p, s) && p.Zid(slba) < p.nrZones && Releasable(s, p.Zid(slba))
    ensures var z := s.zones[p.Zid(slba)];
      FlushZone(p, s, slba).1 == DivideFault <==>
        !p.HasZrwa() && z.zrwav && z.wp <= slba && BelowWindowEnd(z.wp + p.zrwaLbas, slba)
  {
    InZone(p, p.Zid(slba), slba);
    hide Inv, Params.Start;
  }

  /** On a namespace whose ZRWA sizes are zero no ZRWA write is ever accepted.  Those to block 0 on, with the write
      pointer there, divide by zero or meet the failing assertion; to any other zone they are refused. */
  lemma NoZrwaSizes(p: Params, s: State, slba: nat, nlb: nat)
    requires Inv(p, s) && p.Zid(slba) < p.nrZones && 0 < nlb && s.zones[p.Zid(slba)].zrwav && p.zrwaLbas == 0
    ensures var zid, o := p.Zid(slba), WriteZrwa(p, s, slba, nlb).1; var z := s.zones[zid];
      var checked := nlb * LBA_SIZE % p.writeUnit == 0 && p.Zid(slba + nlb - 1) == zid && z.wp == 0;
      && o != Done(Success)
      && (o == Fault <==> checked && IsOpen(z))
      && (o == Bug <==> checked && z.state.Closed? && s.open < p.maxOpen)
      && (0 < zid ==> o == Done(InvalidWrite) || o == Done(ErrBoundary))
  {
    var zid := p.Zid(slba);
    assert ZoneOk(p, zid, s.zones[zid]);
    AllReleasable(p, s, zid);
    InZone(p, zid, slba);
    if 0 < zid { MulMono(1, zid, p.zoneLbas); }
    hide Inv;
  }
}
