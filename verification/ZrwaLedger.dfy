/** Where the bytes of the buffer of a random write area go over a whole run of commands: what its zone holds without a
    release scheduled, what is scheduled and not yet given back, and what a reset adds to a buffer that it refills while
    releases are still on their way. */
module ZrwaLedger {
  import opened Arith
  import opened Zns

  /** The account of one buffer: bytes taken and not scheduled for release since the last refill, bytes scheduled and
      not given back, and what was pending when the buffer was last refilled.  An explicit flush moves the write
      pointer without taking anything, so that more may be scheduled than was taken. */
  datatype Account = Account(held: int, pending: int, surplus: int)

  /** What a ZRWA write takes from the buffer of its zone: the price of reopening also when the flush finds no room. */
  function Taken(p: Params, s: State, slba: nat, nlb: nat): nat
    requires Inv(p, s) && p.Zid(slba) < p.nrZones && 0 < nlb && s.zones[p.Zid(slba)].zrwav
  {
    var zid := p.Zid(slba);
    var z, o := s.zones[zid], WriteZrwa(p, s, slba, nlb).1;
    ZrwaEffect(p, s, slba, nlb);
    if o == Done(Success) then ReopenCost(p, z) + ZrwaFlush(p, zid, z.wp, slba + nlb - 1) * LBA_SIZE
    else if o.Retry? || o.Fault? then ReopenCost(p, z)
    else 0
  }

  /** What a command does to the account of the buffer of zone `zid`. */
  function Booked(p: Params, s: State, full: nat, c: Command, zid: nat, a: Account): Account
    requires Inv(p, s) && InRange(p, c) && zid < p.nrZones
  {
    match c
    case Write(lba, nlb, append) =>
      if p.Zid(lba) != zid || !s.zones[zid].zrwav then a else
      var k := ZrwaScheduled(p, s, lba, nlb);
      a.(held := a.held + Taken(p, s, lba, nlb) - k, pending := a.pending + k)
    case Send(action, lba, selectAll, zrwa) =>
      if action.ActReset? && 0 < full && (selectAll || p.Zid(lba) == zid) then Account(0, a.pending, a.pending) else a
    case RefillWb(w, bytes) => a
    case RefillZrwa(i, bytes) => if i == zid then a.(pending := a.pending - bytes) else a
  }

  ghost predicate Square(s: State, full: nat, zid: nat, a: Account)
    requires zid < |s.zbuf|
  {
    s.zbuf[zid] + a.held + a.pending == full + a.surplus
  }

  // ---------- every command keeps the account square ----------

  lemma WriteBuffers(p: Params, s: State, lba: nat, nlb: nat, append: bool, zid: nat)
    requires Inv(p, s) && p.Zid(lba) < p.nrZones && 0 < nlb && zid < p.nrZones
    requires Inv(p, WriteCommand(p, s, lba, nlb, append).after)
    ensures WriteCommand(p, s, lba, nlb, append).after.zbuf[zid]
         == s.zbuf[zid] - if p.Zid(lba) == zid && s.zones[zid].zrwav then Taken(p, s, lba, nlb) else 0
  {
    if s.zones[p.Zid(lba)].zrwav {
      ZrwaEffect(p, s, lba, nlb);
    } else {
      PlainBuffers(p, s, lba, nlb, append);
    }
    InvSizes(p, s);
    hide Inv, WriteZrwa, WritePlain, ZrwaFlush;
  }

  /** A plain write, accepted or not, leaves the buffers of the random write areas alone. */
  lemma PlainBuffers(p: Params, s: State, lba: nat, nlb: nat, append: bool)
    requires Inv(p, s) && p.Zid(lba) < p.nrZones && 0 < nlb && !s.zones[p.Zid(lba)].zrwav
    ensures WritePlain(p, s, lba, nlb, append).0.zbuf == s.zbuf
  {
    hide ReleaseLoop, LogOk;
    ZoneFacts(p, s, p.Zid(lba));
    hide Inv, ZoneOk;
  }

  /** A management command on one zone refills its buffer exactly if it is a reset and there is one. */
  lemma SendOneBuffers(p: Params, s: State, full: nat, action: Action, lba: nat, zrwa: bool)
    requires Inv(p, s) && p.Zid(lba) < p.nrZones
    ensures SendOne(p, s, full, action, lba, zrwa).0.zbuf
         == if action.ActReset? && 0 < full then s.zbuf[p.Zid(lba) := full] else s.zbuf
  {
    hide LogOk;
    ZoneFacts(p, s, p.Zid(lba));
    hide Inv, ZoneOk;
  }

  lemma {:induction false} SendAllBuffers(p: Params, s: State, full: nat, action: Action, zrwa: bool, zid: nat, i: nat)
    requires Inv(p, s) && zid <= p.nrZones && i < p.nrZones
    ensures var s' := SendAll(p, s, full, action, zrwa, zid);
      |s'.zbuf| == |s.zbuf| == p.nrZones
      && s'.zbuf[i] == if zid <= i && action.ActReset? && 0 < full then full else s.zbuf[i]
    decreases p.nrZones - zid
  {
    InvSizes(p, s);
    if zid < p.nrZones {
      StartInRange(p, zid);
      SendOneInv(p, s, full, action, p.Start(zid), zrwa);
      SendOneBuffers(p, s, full, action, p.Start(zid), zrwa);
      SendAllBuffers(p, SendOne(p, s, full, action, p.Start(zid), zrwa).0, full, action, zrwa, zid + 1, i);
      hide Inv, SendOne;
    }
  }

  /** Every command keeps the account of every buffer square. */
  lemma ExecSquare(p: Params, s: State, full: nat, c: Command, zid: nat, a: Account)
    requires Inv(p, s) && InRange(p, c) && zid < p.nrZones && zid < |s.zbuf| && Square(s, full, zid, a)
    ensures Inv(p, Exec(p, s, full, c)) && zid < |Exec(p, s, full, c).zbuf|
    ensures Square(Exec(p, s, full, c), full, zid, Booked(p, s, full, c, zid, a))
  {
    ExecInv(p, s, full, c);
    InvSizes(p, s);
    InvSizes(p, Exec(p, s, full, c));
    hide Inv, ZrwaScheduled, Taken, WriteCommand, SendOne, SendAll;
    match c
    case Write(lba, nlb, append) => WriteBuffers(p, s, lba, nlb, append, zid);
    case Send(action, lba, selectAll, zrwa) =>
      if selectAll {
        SendAllBuffers(p, s, full, action, zrwa, 0, zid);
      } else {
        SendOneBuffers(p, s, full, action, lba, zrwa);
      }
    case RefillWb(w, bytes) =>
    case RefillZrwa(i, bytes) =>
  }

  // ---------- whole runs ----------

  ghost function RunBooked(p: Params, s: State, full: nat, cs: seq<Command>, zid: nat, a: Account): Account
    requires Inv(p, s) && (forall i :: 0 <= i < |cs| ==> InRange(p, cs[i])) && zid < p.nrZones
    decreases |cs|
  {
    if cs == [] then a else
    ExecInv(p, s, full, cs[0]);
    RunBooked(p, Exec(p, s, full, cs[0]), full, cs[1..], zid, Booked(p, s, full, cs[0], zid, a))
  }

  lemma {:induction false} RunSquare(p: Params, s: State, full: nat, cs: seq<Command>, zid: nat, a: Account)
    requires Inv(p, s) && (forall i :: 0 <= i < |cs| ==> InRange(p, cs[i])) && zid < p.nrZones
    requires zid < |s.zbuf| && Square(s, full, zid, a)
    ensures zid < |Run(p, s, full, cs).zbuf|
    ensures Square(Run(p, s, full, cs), full, zid, RunBooked(p, s, full, cs, zid, a))
    decreases |cs|
  {
    hide Inv, Exec, InRange, Booked, Square;
    if cs != [] {
      ExecSquare(p, s, full, cs[0], zid, a);
      RunSquare(p, Exec(p, s, full, cs[0]), full, cs[1..], zid, Booked(p, s, full, cs[0], zid, a));
    }
  }

  /** From the start on, once the worker has given back all that was scheduled: the buffer is as large as it was,
      less what its zone still holds, plus what was pending when the zone was last reset.  So it comes out larger
      than it ever was exactly if more was pending at the last reset than is held now. */
  lemma SurplusOfResets(p: Params, full: nat, writeBuffer: nat, cs: seq<Command>, zid: nat)
    requires p.Ok() && (forall i :: 0 <= i < |cs| ==> InRange(p, cs[i])) && zid < p.nrZones
    ensures Inv(p, Initial(p, full, writeBuffer))
    ensures var s0 := Initial(p, full, writeBuffer);
      var s, a := Run(p, s0, full, cs), RunBooked(p, s0, full, cs, zid, Account(0, 0, 0));
      && zid < |s.zbuf|
      && (a.pending == 0 ==> s.zbuf[zid] == full - a.held + a.surplus && (s.zbuf[zid] > full <==> a.surplus > a.held))
  {
    InitialInv(p, full, writeBuffer);
    var s0 := Initial(p, full, writeBuffer);
    RunSquare(p, s0, full, cs, zid, Account(0, 0, 0));
    hide Inv, Run, RunBooked;
  }

  // ---------- what a zone holds ----------

  /** Bytes of the one-shot page that the write pointer is in, up to the write pointer. */
  function InOneshot(p: Params, z: Zone): nat
    requires p.Ok() && z.zslba <= z.wp
  {
    (z.wp - z.zslba) / SECS_PER_PG % p.oneshot * PG_SIZE
  }

  /** If flushes are whole pages, an accepted ZRWA write takes what it schedules, the price of reopening, and what the
      partly filled one-shot page at the write pointer has grown by. */
  lemma WriteHolds(p: Params, s: State, slba: nat, nlb: nat)
    requires Inv(p, s) && p.Zid(slba) < p.nrZones && 0 < nlb && s.zones[p.Zid(slba)].zrwav
    requires p.HasZrwa() && p.zrwafgLbas % SECS_PER_PG == 0 && WriteZrwa(p, s, slba, nlb).1 == Done(Success)
    ensures var zid := p.Zid(slba); var z, s' := s.zones[zid], WriteZrwa(p, s, slba, nlb).0;
      && zid < |s'.zones| && z.zslba <= z.wp && s'.zones[zid].zslba <= s'.zones[zid].wp
      && Taken(p, s, slba, nlb) + InOneshot(p, z)
         == ZrwaScheduled(p, s, slba, nlb) + ReopenCost(p, z) + InOneshot(p, s'.zones[zid])
  {
    var zid, elba := p.Zid(slba), slba + nlb - 1;
    var z := s.zones[zid];
    ZoneFacts(p, s, zid);
    ZrwaEffect(p, s, slba, nlb);
    ZrwaAccepted(p, s, slba, nlb);
    var n := ZrwaFlush(p, zid, z.wp, elba);
    WholeFlush(p, s, slba, nlb);
    hide Inv, WriteZrwa, ZrwaFlush, ZrwaReleases;
    OneshotGrowth(p, (z.wp - z.zslba) / SECS_PER_PG, n / SECS_PER_PG);
  }

  /** Write pointer and flush of an accepted write are whole pages. */
  lemma WholeFlush(p: Params, s: State, slba: nat, nlb: nat)
    requires Inv(p, s) && p.Zid(slba) < p.nrZones && 0 < nlb && s.zones[p.Zid(slba)].zrwav
    requires p.HasZrwa() && p.zrwafgLbas % SECS_PER_PG == 0 && WriteZrwa(p, s, slba, nlb).1 == Done(Success)
    ensures var z := s.zones[p.Zid(slba)];
      && z.zslba <= z.wp <= slba + nlb - 1
      && (z.wp - z.zslba) % SECS_PER_PG == 0 && ZrwaFlush(p, p.Zid(slba), z.wp, slba + nlb - 1) % SECS_PER_PG == 0
  {
    hide WriteZrwa, ZrwaFlush, LogOk, Params.End, Params.Start;
    var zid, elba := p.Zid(slba), slba + nlb - 1;
    var z := s.zones[zid];
    ZoneFacts(p, s, zid);
    ZrwaAccepted(p, s, slba, nlb);
    ZrwaFlushLands(p, zid, z.wp, elba);
    hide Inv;
    Multiple(z.wp - z.zslba, p.zrwafgLbas);
    var n := ZrwaFlush(p, zid, z.wp, elba);
    if n % p.zrwafgLbas == 0 {
      Multiple(n, p.zrwafgLbas);
    } else {
      assert z.wp + n == p.End(zid);
      EndIsWhole(p, zid, z.wp);
    }
  }

  lemma EndIsWhole(p: Params, zid: nat, wp: nat)
    requires p.Ok() && p.Start(zid) <= wp <= p.End(zid) && (wp - p.Start(zid)) % SECS_PER_PG == 0
    ensures (p.End(zid) - wp) % SECS_PER_PG == 0
  {
  }

  lemma Multiple(a: nat, g: nat)
    requires 0 < g && a % g == 0 && g % SECS_PER_PG == 0
    ensures a % SECS_PER_PG == 0
  {
    var q, m := a / g, g / SECS_PER_PG;
    assert a == g * q && g == SECS_PER_PG * m;
    assert a == SECS_PER_PG * (m * q);
    DivModUnique(a, SECS_PER_PG, m * q, 0);
  }

  /** `n` pages from page `a` on: those of the one-shot pages that they complete, and the growth of the last one. */
  lemma OneshotGrowth(p: Params, a: nat, n: nat)
    requires p.Ok()
    ensures n * PG_SIZE + a % p.oneshot * PG_SIZE == ZrwaReleases(p, a, n) + (a + n) % p.oneshot * PG_SIZE
  {
    hide ZrwaReleases;
    var os := p.oneshot;
    ReleasesOneshots(p, a, n);
    DivMod(a, os);
    DivMod(a + n, os);
    Scaled(n, a / os * os, a % os, (a + n) / os * os, (a + n) % os, ZrwaReleases(p, a, n));
  }

  lemma Scaled(n: int, whole: int, rest: int, whole': int, rest': int, released: int)
    requires whole + rest + n == whole' + rest' && released + whole * PG_SIZE == whole' * PG_SIZE
    ensures n * PG_SIZE + rest * PG_SIZE == released + rest' * PG_SIZE
  {
  }
}
