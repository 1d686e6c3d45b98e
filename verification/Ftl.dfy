/** The state of the page-mapped FTL of conv_ftl.c and the consistency that garbage collection
    relies on, on values.  Lines are named by their ids; the victim queue appears here as the set
    of its lines (`ConvFtl` runs the real heap). */
module Ftl {
  import opened Arith
  import opened Geometry

  datatype PgStatus = PgFree | PgInvalid | PgValid
  datatype Mapping = Unmapped | At(ppa: Ppa)
  datatype Counts = Counts(vpc: nat, ipc: nat)
  datatype IoType = UserIo | GcIo

  function OtherIo(io: IoType): IoType { if io.UserIo? then GcIo else UserIo }

  /** `blks` is keyed by the first page of the block; `vpc` and `ipc` are those of the lines. */
  datatype State = State(maptbl: seq<Mapping>, rmap: seq<nat>, status: map<Ppa, PgStatus>, blks: map<Ppa, Counts>,
                         vpc: seq<nat>, ipc: seq<nat>, free: seq<nat>, full: set<nat>, victims: set<nat>,
                         wp: Wp, gcWp: Wp)
  {
    function WpOf(io: IoType): Wp { if io.UserIo? then wp else gcWp }
    function WithWp(io: IoType, w: Wp): State { if io.UserIo? then this.(wp := w) else this.(gcWp := w) }
  }

  function BlockOf(p: Ppa): Ppa { p.(pg := 0) }

  ghost function BlockPages(g: Geo, b: Ppa): set<Ppa> {
    set pg | 0 <= pg < g.PgsPerBlk() :: b.(pg := pg)
  }

  // ---------- consistency ----------

  ghost predicate Shape(g: Geo, f: State) {
    && g.Ok() && |f.maptbl| == |f.rmap| == g.TtPgs() && |f.vpc| == |f.ipc| == g.lines
    && (forall p :: p in f.status <==> ValidPpa(g, p))
    && (forall b :: b in f.blks <==> ValidPpa(g, b) && b.pg == 0)
    && ValidWp(g, f.wp) && ValidWp(g, f.gcWp)
  }

  ghost function With(status: map<Ppa, PgStatus>, s: set<Ppa>, st: PgStatus): set<Ppa> {
    set p | p in s && p in status && status[p] == st
  }

  /** The counters of every line outside `busy` and of every block are the true page counts. */
  ghost predicate LineCounts(g: Geo, f: State, busy: set<nat>)
    requires Shape(g, f)
  {
    forall l :: 0 <= l < g.lines && l !in busy ==> LineCounted(g, f, l)
  }

  ghost predicate LineCounted(g: Geo, f: State, l: nat)
    requires Shape(g, f) && l < g.lines
  {
    && f.vpc[l] == |With(f.status, LinePages(g, l), PgValid)|
    && f.ipc[l] == |With(f.status, LinePages(g, l), PgInvalid)|
  }

  ghost predicate BlkCounts(g: Geo, f: State)
    requires Shape(g, f)
  {
    forall b :: b in f.blks ==> BlkCounted(g, f, b)
  }

  ghost predicate BlkCounted(g: Geo, f: State, b: Ppa)
    requires b in f.blks
  {
    && f.blks[b].vpc == |With(f.status, BlockPages(g, b), PgValid)|
    && f.blks[b].ipc == |With(f.status, BlockPages(g, b), PgInvalid)|
  }

  /** Free list, full list, victim queue, the two current lines and the lines in `busy` share out
      all lines; a full line has no invalid page, a victim has one. */
  ghost predicate Roles(g: Geo, f: State, busy: set<nat>)
    requires Shape(g, f)
  {
    && Distinct(f.free)
    && (forall i :: 0 <= i < |f.free| ==>
          && f.free[i] < g.lines && f.free[i] !in f.full + f.victims + busy
          && f.free[i] != f.wp.line && f.free[i] != f.gcWp.line)
    && (forall l :: l in f.full ==> l < g.lines && l !in f.victims && l !in busy && f.ipc[l] == 0)
    && (forall l :: l in f.victims ==> l < g.lines && l !in busy && f.ipc[l] > 0)
    && f.wp.line != f.gcWp.line
    && f.wp.line !in f.full + f.victims + busy && f.gcWp.line !in f.full + f.victims + busy
    && (forall l :: 0 <= l < g.lines ==>
         l in f.free || l in f.full + f.victims + busy || l == f.wp.line || l == f.gcWp.line)
  }

  /** How many pages of a line are written. */
  ghost function Frontier(g: Geo, f: State, l: nat): nat
    requires Shape(g, f)
  {
    if l == f.wp.line then WriteIndex(g, NewPage(f.wp))
    else if l == f.gcWp.line then WriteIndex(g, NewPage(f.gcWp))
    else if l in f.free then 0 else g.PgsPerLine()
  }

  /** A page is FREE exactly when the write order of its line has not reached it. */
  ghost predicate Filled(g: Geo, f: State, busy: set<nat>)
    requires Shape(g, f)
  {
    forall p :: ValidPpa(g, p) && p.blk !in busy ==>
      (f.status[p].PgFree? <==> Frontier(g, f, p.blk) <= WriteIndex(g, p))
  }

  ghost predicate MapsTo(g: Geo, f: State, lpn: nat, p: Ppa)
    requires Shape(g, f)
  {
    lpn < g.TtPgs() && ValidPpa(g, p) && f.maptbl[lpn] == At(p) && f.status[p].PgValid? && RmapIs(g, f, p, lpn)
  }

  ghost predicate RmapIs(g: Geo, f: State, p: Ppa, lpn: nat)
    requires Shape(g, f)
  {
    PgIdx(g, p) < g.TtPgs() && f.rmap[PgIdx(g, p)] == lpn
  }

  /** maptbl leads to VALID pages outside `stale` that rmap leads back from. */
  ghost predicate Forward(g: Geo, f: State, stale: set<Ppa>)
    requires Shape(g, f)
  {
    forall lpn :: 0 <= lpn < g.TtPgs() && f.maptbl[lpn].At? ==>
      MapsTo(g, f, lpn, f.maptbl[lpn].ppa) && f.maptbl[lpn].ppa !in stale
  }

  /** Every VALID page outside `stale` is the page of the logical page that rmap names. */
  ghost predicate Backward(g: Geo, f: State, stale: set<Ppa>)
    requires Shape(g, f)
  {
    forall p :: ValidPpa(g, p) && f.status[p].PgValid? && p !in stale ==> Mapped(g, f, p)
  }

  ghost predicate Mapped(g: Geo, f: State, p: Ppa)
    requires Shape(g, f)
  {
    PgIdx(g, p) < g.TtPgs() && f.rmap[PgIdx(g, p)] < g.TtPgs() && f.maptbl[f.rmap[PgIdx(g, p)]] == At(p)
  }

  /** Consistency while the lines in `busy` are being collected and the pages in `stale` are VALID copies already
      moved. */
  ghost predicate Consistent(g: Geo, f: State, busy: set<nat>, stale: set<Ppa>) {
    && Shape(g, f) && LineCounts(g, f, busy) && BlkCounts(g, f) && Roles(g, f, busy) && Filled(g, f, busy)
    && Forward(g, f, stale) && Backward(g, f, stale)
  }

  ghost predicate Inv(g: Geo, f: State) { Consistent(g, f, {}, {}) }

  // ---------- the steps ----------

  /** mark_page_valid. */
  function MarkValid(f: State, p: Ppa): State
    requires BlockOf(p) in f.blks && p.blk < |f.vpc|
  {
    var b := f.blks[BlockOf(p)];
    f.(status := f.status[p := PgValid], blks := f.blks[BlockOf(p) := b.(vpc := b.vpc + 1)],
       vpc := f.vpc[p.blk := f.vpc[p.blk] + 1])
  }

  /** The end of a line in advance_write_pointer: to the full list or the victim queue, and on to the next free line. */
  function NextLine(g: Geo, f: State, io: IoType): State
    requires f.free != [] && f.WpOf(io).line < |f.vpc|
  {
    var l := f.WpOf(io).line;
    var r := if f.vpc[l] == g.PgsPerLine() then f.(full := f.full + {l}) else f.(victims := f.victims + {l});
    r.(free := f.free[1..]).WithWp(io, Wp(f.free[0], 0, 0, 0))
  }

  /** The pointer is on the last page of its line. */
  predicate AtLastPage(g: Geo, f: State, io: IoType)
    requires g.oneshot > 0
  {
    StepWp(g, f.WpOf(io)).1
  }

  /** advance_write_pointer. */
  function Advance(g: Geo, f: State, io: IoType): State
    requires g.oneshot > 0 && f.WpOf(io).line < |f.vpc| && (AtLastPage(g, f, io) ==> f.free != [])
  {
    if AtLastPage(g, f, io) then NextLine(g, f, io) else f.WithWp(io, StepWp(g, f.WpOf(io)).0)
  }

  /** Write logical page `lpn` to the next page of a write pointer: maptbl, rmap, page status, write pointer. */
  function Program(g: Geo, f: State, lpn: nat, io: IoType): State
    requires Shape(g, f) && lpn < g.TtPgs() && PgIdx(g, NewPage(f.WpOf(io))) < g.TtPgs()
    requires AtLastPage(g, f, io) ==> f.free != []
  {
    var q := NewPage(f.WpOf(io));
    var m := f.(maptbl := f.maptbl[lpn := At(q)], rmap := f.rmap[PgIdx(g, q) := lpn]);
    Advance(g, MarkValid(m, q), io)
  }

  // ---------- counting ----------

  lemma WithUpdate(status: map<Ppa, PgStatus>, s: set<Ppa>, p: Ppa, st: PgStatus)
    requires p in status && status[p] != st
    ensures p in s ==> |With(status[p := st], s, st)| == |With(status, s, st)| + 1
    ensures p in s ==> |With(status[p := st], s, status[p])| == |With(status, s, status[p])| - 1
    ensures forall o :: o != st && (o != status[p] || p !in s) ==> With(status[p := st], s, o) == With(status, s, o)
    ensures p !in s ==> With(status[p := st], s, st) == With(status, s, st)
  {
    if p in s {
      assert With(status[p := st], s, st) == With(status, s, st) + {p};
      assert With(status, s, status[p]) == With(status[p := st], s, status[p]) + {p};
    }
  }

  lemma InBlockPages(g: Geo, b: Ppa, p: Ppa)
    requires b.pg == 0
    ensures p in BlockPages(g, b) <==> BlockOf(p) == b && p.pg < g.PgsPerBlk()
  {
  }

  lemma NoFreePage(g: Geo, f: State, l: nat)
    requires Shape(g, f) && l < g.lines && LineCounted(g, f, l)
    requires forall p :: ValidPpa(g, p) && p.blk == l ==> !f.status[p].PgFree?
    ensures f.vpc[l] + f.ipc[l] == g.PgsPerLine()
  {
    var s := LinePages(g, l);
    FirstPagesCount(g, l, g.PgsPerLine());
    var v, i := With(f.status, s, PgValid), With(f.status, s, PgInvalid);
    forall p ensures p in s <==> p in v + i { InLinePages(g, l, p); }
    assert s == v + i && v !! i;
  }

  // ---------- programming a page keeps consistency ----------

  /** The next page of a write pointer is a FREE page of a line that is not busy. */
  lemma NextPageIsFree(g: Geo, f: State, busy: set<nat>, io: IoType)
    requires Shape(g, f) && Roles(g, f, busy) && Filled(g, f, busy)
    ensures var q := NewPage(f.WpOf(io));
      ValidPpa(g, q) && q.blk !in busy && f.status[q].PgFree? && PgIdx(g, q) < g.TtPgs() && BlockOf(q) in f.blks
  {
    PgIdxRoundTrip(g, NewPage(f.WpOf(io)));
  }

  ghost predicate CanProgram(g: Geo, f: State, lpn: nat, io: IoType)
  {
    && Shape(g, f) && lpn < g.TtPgs() && PgIdx(g, NewPage(f.WpOf(io))) < g.TtPgs()
    && (AtLastPage(g, f, io) ==> f.free != [])
  }

  lemma ProgramFields(g: Geo, f: State, lpn: nat, io: IoType)
    requires CanProgram(g, f, lpn, io)
    ensures var q, f' := NewPage(f.WpOf(io)), Program(g, f, lpn, io);
      && f'.maptbl == f.maptbl[lpn := At(q)] && f'.rmap == f.rmap[PgIdx(g, q) := lpn]
      && f'.status == f.status[q := PgValid] && f'.ipc == f.ipc && f'.vpc == f.vpc[q.blk := f.vpc[q.blk] + 1]
      && f'.blks == f.blks[BlockOf(q) := f.blks[BlockOf(q)].(vpc := f.blks[BlockOf(q)].vpc + 1)]
  {
    hide StepWp, PgIdx, Geo.TtPgs;
  }

  lemma ProgramShape(g: Geo, f: State, lpn: nat, io: IoType, busy: set<nat>)
    requires CanProgram(g, f, lpn, io) && Roles(g, f, busy)
    ensures Shape(g, Program(g, f, lpn, io))
  {
    StepWpIsSuccessor(g, f.WpOf(io));
    Positive(g);
    hide StepWp, PgIdx, Geo.TtPgs, WriteIndex;
  }

  lemma ProgramCounts(g: Geo, f: State, lpn: nat, io: IoType, busy: set<nat>)
    requires CanProgram(g, f, lpn, io) && Shape(g, Program(g, f, lpn, io)) && f.status[NewPage(f.WpOf(io))].PgFree?
    requires LineCounts(g, f, busy) && BlkCounts(g, f)
    ensures LineCounts(g, Program(g, f, lpn, io), busy) && BlkCounts(g, Program(g, f, lpn, io))
  {
    var q, f' := NewPage(f.WpOf(io)), Program(g, f, lpn, io);
    ProgramFields(g, f, lpn, io);
    hide Program, StepWp, PgIdx, Geo.TtPgs, Geo.PgsPerLine, Geo.PgsPerBlk;
    forall l | 0 <= l < g.lines && l !in busy ensures LineCounted(g, f', l) {
      assert LineCounted(g, f, l);
      WithUpdate(f.status, LinePages(g, l), q, PgValid);
      InLinePages(g, l, q);
    }
    forall b | b in f'.blks ensures BlkCounted(g, f', b) {
      assert BlkCounted(g, f, b);
      WithUpdate(f.status, BlockPages(g, b), q, PgValid);
      InBlockPages(g, b, q);
    }
  }

  lemma ProgramFilled(g: Geo, f: State, lpn: nat, io: IoType, busy: set<nat>)
    requires CanProgram(g, f, lpn, io) && Shape(g, Program(g, f, lpn, io)) && Roles(g, f, busy) && Filled(g, f, busy)
    ensures Filled(g, Program(g, f, lpn, io), busy)
  {
    var q, f' := NewPage(f.WpOf(io)), Program(g, f, lpn, io);
    StepWpIsSuccessor(g, f.WpOf(io));
    ProgramFields(g, f, lpn, io);
    hide Program, StepWp, PgIdx, Geo.TtPgs, Geo.PgsPerLine, Digits;
    forall p | ValidPpa(g, p) && p.blk !in busy
      ensures f'.status[p].PgFree? <==> Frontier(g, f', p.blk) <= WriteIndex(g, p)
    {
      WriteIndexRoundTrip(g, p);
      WriteIndexRoundTrip(g, q);
      ProgramFrontier(g, f, lpn, io, busy, p.blk);
    }
  }

  /** Where Program leaves the lists and the two pointers. */
  lemma ProgramPointers(g: Geo, f: State, lpn: nat, io: IoType)
    requires CanProgram(g, f, lpn, io)
    ensures var f', l := Program(g, f, lpn, io), f.WpOf(io).line;
      && f'.WpOf(OtherIo(io)) == f.WpOf(OtherIo(io))
      && (!AtLastPage(g, f, io) ==>
            f'.WpOf(io) == StepWp(g, f.WpOf(io)).0 && f'.free == f.free && f'.full == f.full && f'.victims == f.victims)
      && (AtLastPage(g, f, io) ==>
            && f'.WpOf(io) == Wp(f.free[0], 0, 0, 0) && f'.free == f.free[1..]
            && f'.full == (if f'.vpc[l] == g.PgsPerLine() then f.full + {l} else f.full)
            && f'.victims == if f'.vpc[l] == g.PgsPerLine() then f.victims else f.victims + {l})
  {
    hide StepWp, PgIdx, Geo.TtPgs, Geo.PgsPerLine;
  }

  /** The frontier of the written line moves by one page, every other stays. */
  lemma ProgramFrontier(g: Geo, f: State, lpn: nat, io: IoType, busy: set<nat>, l: nat)
    requires CanProgram(g, f, lpn, io) && Shape(g, Program(g, f, lpn, io)) && Roles(g, f, busy)
    ensures Frontier(g, Program(g, f, lpn, io), l) == Frontier(g, f, l) + if l == f.WpOf(io).line then 1 else 0
  {
    StepWpIsSuccessor(g, f.WpOf(io));
    ProgramPointers(g, f, lpn, io);
    hide Program, StepWp, Digits, WriteIndex, Geo.TtPgs, Geo.PgsPerLine, Geo.PgsPerBlk;
    if AtLastPage(g, f, io) {
      NewLineFrontier(g, f, Program(g, f, lpn, io), io, busy, l);
    } else {
      assert f.WpOf(io).line != f.WpOf(OtherIo(io)).line;
    }
  }

  lemma NewLineFrontier(g: Geo, f: State, f': State, io: IoType, busy: set<nat>, l: nat)
    requires Shape(g, f) && Shape(g, f') && Roles(g, f, busy) && f.free != []
    requires f'.WpOf(OtherIo(io)) == f.WpOf(OtherIo(io)) && f'.WpOf(io) == Wp(f.free[0], 0, 0, 0)
    requires f'.free == f.free[1..]
    requires WriteIndex(g, NewPage(f.WpOf(io))) == g.PgsPerLine() - 1
    ensures Frontier(g, f', l) == Frontier(g, f, l) + if l == f.WpOf(io).line then 1 else 0
  {
    hide Geo.TtPgs, Geo.PgsPerLine, Geo.PgsPerBlk;
    Digit(0, 0, g.oneshot);
    assert WriteIndex(g, NewPage(f'.WpOf(io))) == 0;
    hide WriteIndex, Digits;
    assert f.free == [f.free[0]] + f.free[1..];
    assert f.free[0] !in f.free[1..];
  }

  /** `f'` is `f` with the line of a pointer retired and the first free line in its place. */
  lemma NewLineRoles(g: Geo, f: State, f': State, io: IoType, busy: set<nat>)
    requires Shape(g, f) && Shape(g, f') && Roles(g, f, busy) && f.free != [] && f'.ipc == f.ipc
    requires f'.WpOf(OtherIo(io)) == f.WpOf(OtherIo(io)) && f'.WpOf(io).line == f.free[0] && f'.free == f.free[1..]
    requires var l := f.WpOf(io).line;
      && f'.full == (if f.ipc[l] == 0 then f.full + {l} else f.full)
      && f'.victims == if f.ipc[l] == 0 then f.victims else f.victims + {l}
    ensures Roles(g, f', busy)
  {
    hide Geo.PgsPerLine, Geo.TtPgs, Geo.PgsPerBlk;
    var l, next, r := f.WpOf(io).line, f.free[0], f.free[1..];
    assert f.free == [next] + r;
    assert forall i :: 0 <= i < |r| ==> r[i] == f.free[i + 1];
    assert f'.free == r && f'.full + f'.victims == f.full + f.victims + {l};
    assert next !in f.full + f.victims + busy && next != f.wp.line && next != f.gcWp.line && next !in r;
    forall x | 0 <= x < g.lines
      ensures x in f'.free || x in f'.full + f'.victims + busy || x == f'.wp.line || x == f'.gcWp.line
    {
      assert x in f.free <==> x == next || x in r;
    }
  }

  /** Roles look only at the lists, the lines of the pointers and the invalid counts. */
  lemma SameRoles(g: Geo, f: State, f': State, busy: set<nat>)
    requires Shape(g, f) && Shape(g, f') && Roles(g, f, busy)
    requires f'.free == f.free && f'.full == f.full && f'.victims == f.victims && f'.ipc == f.ipc
    requires f'.wp.line == f.wp.line && f'.gcWp.line == f.gcWp.line
    ensures Roles(g, f', busy)
  {
  }

  /** The line of a pointer on its last page is used up by programming that page. */
  lemma ProgramLastPage(g: Geo, f: State, lpn: nat, io: IoType, busy: set<nat>)
    requires CanProgram(g, f, lpn, io) && Shape(g, Program(g, f, lpn, io)) && Roles(g, f, busy) && AtLastPage(g, f, io)
    requires LineCounts(g, Program(g, f, lpn, io), busy) && Filled(g, Program(g, f, lpn, io), busy)
    ensures var f', l := Program(g, f, lpn, io), f.WpOf(io).line; f'.vpc[l] + f'.ipc[l] == g.PgsPerLine()
  {
    var f', l := Program(g, f, lpn, io), f.WpOf(io).line;
    StepWpIsSuccessor(g, f.WpOf(io));
    ProgramFrontier(g, f, lpn, io, busy, l);
    hide Program, StepWp, Digits, Geo.PgsPerLine, Geo.TtPgs, PgIdx;
    assert LineCounted(g, f', l);
    forall p | ValidPpa(g, p) && p.blk == l ensures !f'.status[p].PgFree? {
      WriteIndexRoundTrip(g, p);
    }
    NoFreePage(g, f', l);
  }

  lemma ProgramRoles(g: Geo, f: State, lpn: nat, io: IoType, busy: set<nat>)
    requires CanProgram(g, f, lpn, io) && Shape(g, Program(g, f, lpn, io)) && Roles(g, f, busy)
    requires LineCounts(g, Program(g, f, lpn, io), busy) && Filled(g, Program(g, f, lpn, io), busy)
    ensures Roles(g, Program(g, f, lpn, io), busy)
  {
    StepWpIsSuccessor(g, f.WpOf(io));
    ProgramPointers(g, f, lpn, io);
    ProgramFields(g, f, lpn, io);
    hide Program, StepWp, LineCounts, Filled, Roles, WriteIndex, Geo.PgsPerLine, Geo.TtPgs, PgIdx;
    if AtLastPage(g, f, io) {
      ProgramLastPage(g, f, lpn, io, busy);
      NewLineRoles(g, f, Program(g, f, lpn, io), io, busy);
    } else {
      SameRoles(g, f, Program(g, f, lpn, io), busy);
    }
  }

  /** The logical page that was on page `m`, if any, leaves a stale copy there. */
  function Gone(m: Mapping): set<Ppa> { if m.At? then {m.ppa} else {} }

  lemma ProgramForward(g: Geo, f: State, lpn: nat, io: IoType, stale: set<Ppa>)
    requires CanProgram(g, f, lpn, io) && Shape(g, Program(g, f, lpn, io)) && f.status[NewPage(f.WpOf(io))].PgFree?
    requires Forward(g, f, stale) && Backward(g, f, stale) && NewPage(f.WpOf(io)) !in stale
    ensures Forward(g, Program(g, f, lpn, io), stale + Gone(f.maptbl[lpn]))
    ensures Backward(g, Program(g, f, lpn, io), stale + Gone(f.maptbl[lpn]))
  {
    var q, f' := NewPage(f.WpOf(io)), Program(g, f, lpn, io);
    var stale' := stale + Gone(f.maptbl[lpn]);
    ProgramFields(g, f, lpn, io);
    hide Program, StepWp, PgIdx, Geo.TtPgs, Geo.PgsPerLine, Geo.PgsPerBlk;
    forall n | 0 <= n < g.TtPgs() && f'.maptbl[n].At?
      ensures MapsTo(g, f', n, f'.maptbl[n].ppa) && f'.maptbl[n].ppa !in stale'
    {
      ProgramMapsTo(g, f, f', lpn, q, stale, n);
    }
    forall p | ValidPpa(g, p) && f'.status[p].PgValid? && p !in stale' ensures Mapped(g, f', p) {
      if p != q {
        assert Mapped(g, f, p);
        if PgIdx(g, p) == PgIdx(g, q) { PgIdxInjective(g, p, q); }
      }
    }
  }

  /** The mapping of any logical page after logical page `lpn` was written to the FREE page `q`. */
  lemma ProgramMapsTo(g: Geo, f: State, f': State, lpn: nat, q: Ppa, stale: set<Ppa>, n: nat)
    requires Shape(g, f) && Shape(g, f') && Forward(g, f, stale) && lpn < g.TtPgs() && n < g.TtPgs()
    requires ValidPpa(g, q) && f.status[q].PgFree? && q !in stale && PgIdx(g, q) < g.TtPgs()
    requires f'.maptbl == f.maptbl[lpn := At(q)] && f'.rmap == f.rmap[PgIdx(g, q) := lpn]
    requires f'.status == f.status[q := PgValid] && f'.maptbl[n].At?
    ensures MapsTo(g, f', n, f'.maptbl[n].ppa) && f'.maptbl[n].ppa !in stale + Gone(f.maptbl[lpn])
  {
    hide PgIdx, Geo.TtPgs, Geo.PgsPerLine, Geo.PgsPerBlk;
    if f.maptbl[lpn].At? { assert MapsTo(g, f, lpn, f.maptbl[lpn].ppa); }
    if n != lpn {
      var p := f.maptbl[n].ppa;
      assert MapsTo(g, f, n, p);
      if PgIdx(g, p) == PgIdx(g, q) { PgIdxInjective(g, p, q); }
    }
  }
}
