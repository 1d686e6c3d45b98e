/** Garbage collection of one victim line, on values: what every step of the scan keeps, and what
    the whole collection amounts to. */
module Gc {
  import opened Arith
  import opened Geometry
  import opened Ftl

  // ---------- the steps of a collection ----------

  /** Taking the victim out of the queue. */
  function TakeVictim(f: State, v: nat): State { f.(victims := f.victims - {v}) }

  /** mark_block_free. */
  ghost function Erase(g: Geo, f: State, b: Ppa): State {
    f.(status := map p | p in f.status :: if p in BlockPages(g, b) then PgFree else f.status[p],
       blks := f.blks[b := Counts(0, 0)])
  }

  /** mark_line_free. */
  function FreeLine(f: State, v: nat): State
    requires v < |f.vpc| == |f.ipc|
  {
    f.(vpc := f.vpc[v := 0], ipc := f.ipc[v := 0], free := f.free + [v])
  }

  /** The pages scanned so far lie in the victim, and the pages not scanned yet are written. */
  ghost predicate Scanning(g: Geo, f: State, v: nat, done: set<Ppa>)
    requires Shape(g, f)
  {
    && v < g.lines
    && (forall p :: p in done ==> ValidPpa(g, p) && p.blk == v)
    && (forall p :: ValidPpa(g, p) && p.blk == v && p !in done ==> !f.status[p].PgFree?)
  }

  // Congruences: each part of the consistency looks at a few fields only.

  lemma SameBlkCounts(g: Geo, f: State, f': State)
    requires Shape(g, f) && Shape(g, f') && BlkCounts(g, f) && f'.status == f.status && f'.blks == f.blks
    ensures BlkCounts(g, f')
  {
  }

  lemma SameLineCounts(g: Geo, f: State, f': State, busy: set<nat>, busy': set<nat>)
    requires Shape(g, f) && Shape(g, f') && LineCounts(g, f, busy) && f'.status == f.status && busy <= busy'
    requires forall l :: 0 <= l < g.lines && l !in busy' ==> f'.vpc[l] == f.vpc[l] && f'.ipc[l] == f.ipc[l]
    ensures LineCounts(g, f', busy')
  {
  }

  /** The maps survive any change of status inside `stale`, and stale pages may be forgotten once none of them is
      VALID. */
  lemma SameMaps(g: Geo, f: State, f': State, stale: set<Ppa>, stale': set<Ppa>)
    requires Shape(g, f) && Shape(g, f') && Forward(g, f, stale) && Backward(g, f, stale)
    requires f'.maptbl == f.maptbl && f'.rmap == f.rmap && stale' <= stale
    requires forall p :: ValidPpa(g, p) && p !in stale ==> f'.status[p] == f.status[p]
    requires forall p :: ValidPpa(g, p) && p in stale && p !in stale' ==> !f'.status[p].PgValid?
    ensures Forward(g, f', stale') && Backward(g, f', stale')
  {
    hide PgIdx, Geo.TtPgs, Geo.PgsPerBlk;
    forall n | 0 <= n < g.TtPgs() && f'.maptbl[n].At?
      ensures MapsTo(g, f', n, f'.maptbl[n].ppa) && f'.maptbl[n].ppa !in stale'
    {
      assert MapsTo(g, f, n, f.maptbl[n].ppa);
    }
    forall p | ValidPpa(g, p) && f'.status[p].PgValid? && p !in stale'
      ensures Mapped(g, f', p)
    {
      assert Mapped(g, f, p);
    }
  }

  lemma TakeVictimRoles(g: Geo, f: State, v: nat)
    requires Shape(g, f) && Roles(g, f, {}) && v in f.victims
    ensures Roles(g, TakeVictim(f, v), {v})
  {
    hide ValidPpa, Geo.TtPgs;
  }

  lemma TakeVictimFilled(g: Geo, f: State, v: nat)
    requires Shape(g, f) && Roles(g, f, {}) && Filled(g, f, {}) && v in f.victims
    ensures Filled(g, TakeVictim(f, v), {v})
    ensures forall p :: ValidPpa(g, p) && p.blk == v ==> !f.status[p].PgFree?
  {
    var f' := TakeVictim(f, v);
    hide Digits, Geo.PgsPerLine, Geo.TtPgs, Geo.PgsPerBlk;
    forall p | ValidPpa(g, p)
      ensures Frontier(g, f', p.blk) == Frontier(g, f, p.blk) && (p.blk == v ==> !f.status[p].PgFree?)
    {
      WriteIndexRoundTrip(g, p);
    }
  }

  /** A victim has no FREE page and fewer VALID pages than a line has pages. */
  lemma VictimCounts(g: Geo, f: State, v: nat)
    requires Shape(g, f) && LineCounts(g, f, {}) && Roles(g, f, {}) && Filled(g, f, {}) && v in f.victims
    ensures v < g.lines && f.vpc[v] + f.ipc[v] == g.PgsPerLine() && f.vpc[v] < g.PgsPerLine()
    ensures f.vpc[v] == |With(f.status, LinePages(g, v), PgValid)|
  {
    hide Geo.PgsPerLine, Geo.TtPgs, Geo.PgsPerBlk, Filled, LinePages;
    assert LineCounted(g, f, v);
    TakeVictimFilled(g, f, v);
    NoFreePage(g, f, v);
  }

  lemma TakeVictimConsistent(g: Geo, f: State, v: nat)
    requires Inv(g, f) && v in f.victims
    ensures Consistent(g, TakeVictim(f, v), {v}, {}) && Scanning(g, TakeVictim(f, v), v, {})
  {
    hide Geo.PgsPerLine, Geo.TtPgs, Geo.PgsPerBlk, Forward, Backward, LineCounts, BlkCounts, Filled;
    var f' := TakeVictim(f, v);
    assert v < g.lines;
    hide Roles;
    TakeVictimRoles(g, f, v);
    TakeVictimFilled(g, f, v);
    SameLineCounts(g, f, f', {}, {v});
    SameBlkCounts(g, f, f');
    SameMaps(g, f, f', {}, {});
  }

  /** A page of the victim that is not VALID needs no copy. */
  lemma SkipPage(g: Geo, f: State, v: nat, done: set<Ppa>, p: Ppa)
    requires Consistent(g, f, {v}, done) && Scanning(g, f, v, done) && ValidPpa(g, p) && p.blk == v
    requires !f.status[p].PgValid?
    ensures Consistent(g, f, {v}, done + {p}) && Scanning(g, f, v, done + {p})
  {
    hide LineCounts, BlkCounts, Roles, Filled, Geo.TtPgs, Geo.PgsPerBlk;
  }

  /** gc_write_page on a VALID page of the victim: the logical page moves, the old page becomes stale. */
  lemma MovePage(g: Geo, f: State, v: nat, done: set<Ppa>, p: Ppa)
    requires Consistent(g, f, {v}, done) && Scanning(g, f, v, done)
    requires ValidPpa(g, p) && p.blk == v && p !in done && f.status[p].PgValid?
    requires AtLastPage(g, f, GcIo) ==> f.free != []
    ensures Mapped(g, f, p) && CanProgram(g, f, f.rmap[PgIdx(g, p)], GcIo)
    ensures var f' := Program(g, f, f.rmap[PgIdx(g, p)], GcIo);
      Consistent(g, f', {v}, done + {p}) && Scanning(g, f', v, done + {p})
  {
    hide LineCounts, BlkCounts, Roles, Filled, Forward, Geo.TtPgs, Geo.PgsPerBlk, StepWp, PgIdx;
    assert Mapped(g, f, p);
    var lpn := f.rmap[PgIdx(g, p)];
    NextPageIsFree(g, f, {v}, GcIo);
    assert f.maptbl[lpn] == At(p);
    ProgramShape(g, f, lpn, GcIo, {v});
    ProgramCounts(g, f, lpn, GcIo, {v});
    ProgramFilled(g, f, lpn, GcIo, {v});
    ProgramRoles(g, f, lpn, GcIo, {v});
    ProgramForward(g, f, lpn, GcIo, done);
    ProgramFields(g, f, lpn, GcIo);
  }

  /** Erasing a block whose pages are all scanned. */
  lemma EraseConsistent(g: Geo, f: State, v: nat, done: set<Ppa>, b: Ppa)
    requires Consistent(g, f, {v}, done) && Scanning(g, f, v, done)
    requires b in f.blks && b.blk == v && BlockPages(g, b) <= done
    ensures Consistent(g, Erase(g, f, b), {v}, done) && Scanning(g, Erase(g, f, b), v, done)
  {
    var f' := Erase(g, f, b);
    hide Digits, Geo.PgsPerLine, Geo.TtPgs, Geo.PgsPerBlk, PgIdx, LineCounts, BlkCounts, Roles, Forward, Backward;
    assert Shape(g, f');
    assert forall p :: ValidPpa(g, p) && p !in done ==> f'.status[p] == f.status[p];
    EraseCounts(g, f, v, done, b);
    assert f'.maptbl == f.maptbl && f'.rmap == f.rmap && f'.ipc == f.ipc && f'.wp == f.wp && f'.gcWp == f.gcWp;
    assert f'.free == f.free && f'.full == f.full && f'.victims == f.victims;
    hide Erase, BlockPages;
    SameRoles(g, f, f', {v});
    SameMaps(g, f, f', done, done);
    SameFilled(g, f, f', {v});
  }

  /** FREE pages look only at the status outside the busy lines, the free list and the pointers. */
  lemma SameFilled(g: Geo, f: State, f': State, busy: set<nat>)
    requires Shape(g, f) && Shape(g, f') && Filled(g, f, busy)
    requires f'.free == f.free && f'.wp == f.wp && f'.gcWp == f.gcWp
    requires forall p :: ValidPpa(g, p) && p.blk !in busy ==> f'.status[p] == f.status[p]
    ensures Filled(g, f', busy)
  {
    hide Digits, WriteIndex, Geo.PgsPerLine, Geo.TtPgs, Geo.PgsPerBlk;
  }

  lemma EraseCounts(g: Geo, f: State, v: nat, done: set<Ppa>, b: Ppa)
    requires Shape(g, f) && LineCounts(g, f, {v}) && BlkCounts(g, f) && b in f.blks && b.blk == v
    requires Shape(g, Erase(g, f, b))
    ensures LineCounts(g, Erase(g, f, b), {v}) && BlkCounts(g, Erase(g, f, b))
  {
    var f' := Erase(g, f, b);
    hide Geo.PgsPerLine, Geo.TtPgs, Geo.PgsPerBlk, PgIdx;
    forall l | 0 <= l < g.lines && l !in {v} ensures LineCounted(g, f', l) {
      assert LineCounted(g, f, l);
      forall st ensures With(f'.status, LinePages(g, l), st) == With(f.status, LinePages(g, l), st) {
        forall p | p in LinePages(g, l) ensures p !in BlockPages(g, b) { InLinePages(g, l, p); InBlockPages(g, b, p); }
      }
    }
    forall c | c in f'.blks ensures BlkCounted(g, f', c) {
      assert BlkCounted(g, f, c);
      if c == b {
        assert With(f'.status, BlockPages(g, b), PgValid) == {} == With(f'.status, BlockPages(g, b), PgInvalid);
      } else {
        forall p | p in BlockPages(g, c)
          ensures p !in BlockPages(g, b)
        {
          InBlockPages(g, c, p);
          InBlockPages(g, b, p);
        }
        forall st ensures With(f'.status, BlockPages(g, c), st) == With(f.status, BlockPages(g, c), st) {}
      }
    }
  }

  /** When every page of the victim is scanned and FREE, the line goes back to the free list and nothing is busy or
      stale. */
  lemma FreeLineConsistent(g: Geo, f: State, v: nat, done: set<Ppa>)
    requires Consistent(g, f, {v}, done) && Scanning(g, f, v, done)
    requires forall p :: ValidPpa(g, p) && p.blk == v ==> f.status[p].PgFree?
    ensures Inv(g, FreeLine(f, v))
  {
    var f' := FreeLine(f, v);
    hide Geo.PgsPerLine, Geo.TtPgs, PgIdx, LineCounts, Filled, Roles;
    assert Shape(g, f');
    FreeLineCounts(g, f, v);
    FreeLineFilled(g, f, v);
    FreeLineRoles(g, f, v);
    SameBlkCounts(g, f, f');
    hide BlkCounts;
    SameMaps(g, f, f', done, {});
  }

  lemma FreeLineRoles(g: Geo, f: State, v: nat)
    requires Shape(g, f) && Roles(g, f, {v}) && v < g.lines
    ensures Roles(g, FreeLine(f, v), {})
  {
  }

  lemma FreeLineFilled(g: Geo, f: State, v: nat)
    requires Shape(g, f) && Roles(g, f, {v}) && v < g.lines && Filled(g, f, {v})
    requires forall p :: ValidPpa(g, p) && p.blk == v ==> f.status[p].PgFree?
    ensures Filled(g, FreeLine(f, v), {})
  {
    var f' := FreeLine(f, v);
    hide Digits, Geo.PgsPerLine, Geo.TtPgs, Geo.PgsPerBlk;
    assert v !in f.free && f.wp.line != v && f.gcWp.line != v;
    hide Roles;
    assert f'.free[|f.free|] == v;
    forall l ensures l in f'.free <==> l in f.free || l == v {
      if l in f.free { var i :| 0 <= i < |f.free| && f.free[i] == l; assert f'.free[i] == l; }
    }
  }

  lemma FreeLineCounts(g: Geo, f: State, v: nat)
    requires Shape(g, f) && LineCounts(g, f, {v}) && v < g.lines && Shape(g, FreeLine(f, v))
    requires forall p :: ValidPpa(g, p) && p.blk == v ==> f.status[p].PgFree?
    ensures LineCounts(g, FreeLine(f, v), {})
  {
    var f' := FreeLine(f, v);
    hide Geo.PgsPerLine, Geo.TtPgs, Geo.PgsPerBlk;
    SameLineCounts(g, f, f', {v}, {v});
    hide LineCounted;
    AllFreeCounted(g, f', v);
    forall l | 0 <= l < g.lines ensures LineCounted(g, f', l) {
      assert l != v ==> l !in {v};
    }
  }

  lemma AllFreeCounted(g: Geo, f: State, v: nat)
    requires Shape(g, f) && v < g.lines && f.vpc[v] == 0 && f.ipc[v] == 0
    requires forall p :: ValidPpa(g, p) && p.blk == v ==> f.status[p].PgFree?
    ensures LineCounted(g, f, v)
  {
  }

  // ---------- progress of a collection ----------

  /** Exactly the logical pages that were on scanned pages have moved, to pages of `w`. */
  ghost predicate Relocated(f0: State, f: State, done: set<Ppa>, w: set<Ppa>) {
    |f.maptbl| == |f0.maptbl| && forall n :: 0 <= n < |f0.maptbl| ==> Moved(f0.maptbl[n], f.maptbl[n], done, w)
  }

  ghost predicate Moved(m0: Mapping, m: Mapping, done: set<Ppa>, w: set<Ppa>) {
    if m0.At? && m0.ppa in done then m.At? && m.ppa in w else m == m0
  }

  /** Outside the victim exactly the pages of `w` changed, from FREE to VALID. */
  ghost predicate Written(g: Geo, f0: State, f: State, v: nat, w: set<Ppa>)
    requires Shape(g, f0) && Shape(g, f)
  {
    && (forall p :: p in w ==> ValidPpa(g, p) && p.blk != v && f0.status[p].PgFree? && f.status[p].PgValid?)
    && (forall p :: ValidPpa(g, p) && p.blk != v && p !in w ==> f.status[p] == f0.status[p])
  }

  /** Inside the victim only erased blocks changed. */
  ghost predicate VictimStatus(g: Geo, f0: State, f: State, v: nat, erased: set<Ppa>)
    requires Shape(g, f0) && Shape(g, f)
  {
    forall p :: ValidPpa(g, p) && p.blk == v ==> f.status[p] == if BlockOf(p) in erased then PgFree else f0.status[p]
  }

  function GcIndex(g: Geo, f: State): nat
    requires g.oneshot > 0
  {
    WriteIndex(g, NewPage(f.gcWp))
  }

  /** After `n` writes the GC pointer is `n` pages further on, in its line or in the first free line. */
  ghost predicate GcPos(g: Geo, f0: State, f: State, n: nat)
    requires g.oneshot > 0
  {
    || (GcIndex(g, f0) + n == GcIndex(g, f) && f.gcWp.line == f0.gcWp.line && f.free == f0.free)
    || (GcIndex(g, f0) + n == g.PgsPerLine() + GcIndex(g, f) && f0.free != []
        && f.gcWp.line == f0.free[0] && f.free == f0.free[1..])
  }

  ghost predicate Progress(g: Geo, f0: State, f: State, v: nat, done: set<Ppa>, erased: set<Ppa>, w: set<Ppa>) {
    && Consistent(g, f0, {v}, {}) && Consistent(g, f, {v}, done) && Scanning(g, f, v, done)
    && Relocated(f0, f, done, w) && Written(g, f0, f, v, w) && VictimStatus(g, f0, f, v, erased)
    && |w| == |With(f0.status, done, PgValid)| && GcPos(g, f0, f, |w|) && f.wp == f0.wp
  }

  lemma ProgressStart(g: Geo, f: State, v: nat)
    requires Consistent(g, f, {v}, {}) && Scanning(g, f, v, {})
    ensures Progress(g, f, f, v, {}, {}, {})
  {
    hide LineCounts, BlkCounts, Roles, Filled, Forward, Backward;
    assert With(f.status, {}, PgValid) == {};
  }

  /** A page not scanned yet still has the status it had at the start. */
  lemma UnscannedStatus(g: Geo, f0: State, f: State, v: nat, done: set<Ppa>, erased: set<Ppa>, p: Ppa)
    requires Shape(g, f0) && Shape(g, f) && Scanning(g, f, v, done) && VictimStatus(g, f0, f, v, erased)
    requires ValidPpa(g, p) && p.blk == v && p !in done
    ensures f.status[p] == f0.status[p]
  {
  }

  lemma WithAdd(status: map<Ppa, PgStatus>, s: set<Ppa>, p: Ppa, st: PgStatus)
    requires p in status
    ensures With(status, s + {p}, st) == With(status, s, st) + if status[p] == st then {p} else {}
  {
  }

  lemma SkipRelocated(g: Geo, f0: State, f: State, done: set<Ppa>, w: set<Ppa>, p: Ppa)
    requires Shape(g, f0) && Forward(g, f0, {}) && Relocated(f0, f, done, w) && p in f0.status && !f0.status[p].PgValid?
    ensures Relocated(f0, f, done + {p}, w)
  {
  }

  lemma SkipProgress(g: Geo, f0: State, f: State, v: nat, done: set<Ppa>, erased: set<Ppa>, w: set<Ppa>, p: Ppa)
    requires Progress(g, f0, f, v, done, erased, w) && ValidPpa(g, p) && p.blk == v && p !in done
    requires !f.status[p].PgValid?
    ensures Progress(g, f0, f, v, done + {p}, erased, w)
  {
    hide LineCounts, BlkCounts, Roles, Filled, Forward, Backward, Relocated, Written, VictimStatus, With, GcPos,
         Scanning, Geo.TtPgs, Geo.PgsPerBlk;
    SkipPage(g, f, v, done, p);
    UnscannedStatus(g, f0, f, v, done, erased, p);
    WithAdd(f0.status, done, p, PgValid);
    assert With(f0.status, done, PgValid) + {} == With(f0.status, done, PgValid);
    SkipRelocated(g, f0, f, done, w, p);
  }

  /** Fewer writes than a line has pages cross a line boundary at most once, so the one free line is enough. */
  lemma RoomForMove(g: Geo, f0: State, f: State, n: nat)
    requires Shape(g, f0) && Shape(g, f) && GcPos(g, f0, f, n) && n + 1 < g.PgsPerLine() && f0.free != []
    ensures AtLastPage(g, f, GcIo) ==> f.free != []
  {
    StepWpIsSuccessor(g, f.gcWp);
    WriteIndexRoundTrip(g, NewPage(f0.gcWp));
    hide StepWp, Digits, Geo.PgsPerLine;
  }

  lemma MoveGcPos(g: Geo, f0: State, f: State, n: nat, lpn: nat)
    requires Shape(g, f0) && CanProgram(g, f, lpn, GcIo) && GcPos(g, f0, f, n) && n + 1 < g.PgsPerLine()
    requires f0.free != []
    ensures GcPos(g, f0, Program(g, f, lpn, GcIo), n + 1)
  {
    StepWpIsSuccessor(g, f.gcWp);
    WriteIndexRoundTrip(g, NewPage(f0.gcWp));
    Digit(0, 0, g.oneshot);
    assert Digits(g, 0, 0, 0, 0) == 0;
    hide StepWp, Digits, Geo.PgsPerLine, Geo.TtPgs, PgIdx;
  }

  /** The victim still has an unmoved VALID page: the writes so far and one more are fewer than a line. */
  lemma FewWrites(g: Geo, status: map<Ppa, PgStatus>, v: nat, done: set<Ppa>, p: Ppa)
    requires g.Ok() && v < g.lines && forall x :: x in done + {p} ==> ValidPpa(g, x) && x.blk == v
    requires p !in done && p in status && status[p].PgValid?
    requires |With(status, LinePages(g, v), PgValid)| < g.PgsPerLine()
    ensures |With(status, done + {p}, PgValid)| == |With(status, done, PgValid)| + 1 < g.PgsPerLine()
  {
    hide Geo.PgsPerBlk, Geo.PgsPerLine, LinePages;
    WithAdd(status, done, p, PgValid);
    var a, b := With(status, done + {p}, PgValid), With(status, LinePages(g, v), PgValid);
    forall x | x in a ensures x in b { InLinePages(g, v, x); }
    SubsetCard(a, b);
  }

  lemma SubsetCard(a: set<Ppa>, b: set<Ppa>)
    requires a <= b
    ensures |a| <= |b|
  {
    assert b == a + (b - a);
  }

  lemma MoveRelocated(g: Geo, f0: State, f: State, v: nat, done: set<Ppa>, w: set<Ppa>, p: Ppa)
    requires Shape(g, f0) && Forward(g, f0, {}) && Relocated(f0, f, done, w) && Shape(g, f) && Written(g, f0, f, v, w)
    requires ValidPpa(g, p) && p.blk == v && p !in done && Mapped(g, f, p)
    requires CanProgram(g, f, f.rmap[PgIdx(g, p)], GcIo)
    ensures Relocated(f0, Program(g, f, f.rmap[PgIdx(g, p)], GcIo), done + {p}, w + {NewPage(f.gcWp)})
  {
    hide Geo.TtPgs, Geo.PgsPerBlk, Geo.PgsPerLine, PgIdx, StepWp;
    var lpn, q := f.rmap[PgIdx(g, p)], NewPage(f.gcWp);
    var f' := Program(g, f, lpn, GcIo);
    ProgramFields(g, f, lpn, GcIo);
    hide Program;
    assert Moved(f0.maptbl[lpn], f.maptbl[lpn], done, w);
    assert f0.maptbl[lpn] == At(p);
    assert MapsTo(g, f0, lpn, p);
    forall n | 0 <= n < |f0.maptbl| ensures Moved(f0.maptbl[n], f'.maptbl[n], done + {p}, w + {q}) {
      assert Moved(f0.maptbl[n], f.maptbl[n], done, w);
      assert f0.maptbl[n].At? ==> MapsTo(g, f0, n, f0.maptbl[n].ppa);
    }
  }

  lemma MoveWritten(g: Geo, f0: State, f: State, f': State, v: nat, w: set<Ppa>, erased: set<Ppa>, q: Ppa)
    requires Shape(g, f0) && Shape(g, f) && Shape(g, f') && Written(g, f0, f, v, w) && VictimStatus(g, f0, f, v, erased)
    requires ValidPpa(g, q) && q.blk != v && f.status[q].PgFree? && f'.status == f.status[q := PgValid]
    ensures q !in w && Written(g, f0, f', v, w + {q}) && VictimStatus(g, f0, f', v, erased)
  {
  }

  lemma MoveProgress(g: Geo, f0: State, f: State, v: nat, done: set<Ppa>, erased: set<Ppa>, w: set<Ppa>, p: Ppa)
    requires Progress(g, f0, f, v, done, erased, w) && f0.free != []
    requires ValidPpa(g, p) && p.blk == v && p !in done && f.status[p].PgValid?
    requires |With(f0.status, LinePages(g, v), PgValid)| < g.PgsPerLine()
    ensures Mapped(g, f, p) && CanProgram(g, f, f.rmap[PgIdx(g, p)], GcIo)
    ensures Progress(g, f0, Program(g, f, f.rmap[PgIdx(g, p)], GcIo), v, done + {p}, erased, w + {NewPage(f.gcWp)})
  {
    hide LineCounts, BlkCounts, Roles, Filled, Forward, Backward, Relocated, Written, VictimStatus, With, GcPos,
         Geo.TtPgs, Geo.PgsPerBlk, Geo.PgsPerLine, PgIdx, LinePages, StepWp, Program;
    UnscannedStatus(g, f0, f, v, done, erased, p);
    FewWrites(g, f0.status, v, done, p);
    RoomForMove(g, f0, f, |w|);
    MovePage(g, f, v, done, p);
    hide Scanning;
    NextPageIsFree(g, f, {v}, GcIo);
    var lpn, q := f.rmap[PgIdx(g, p)], NewPage(f.gcWp);
    MoveRelocated(g, f0, f, v, done, w, p);
    MoveGcPos(g, f0, f, |w|, lpn);
    ProgramFields(g, f, lpn, GcIo);
    ProgramKeepsUserWp(g, f, lpn);
    MoveWritten(g, f0, f, Program(g, f, lpn, GcIo), v, w, erased, q);
  }

  lemma ProgramKeepsUserWp(g: Geo, f: State, lpn: nat)
    requires CanProgram(g, f, lpn, GcIo)
    ensures Program(g, f, lpn, GcIo).wp == f.wp
  {
    hide StepWp, PgIdx, Geo.TtPgs;
  }

  lemma EraseStatus(g: Geo, f0: State, f: State, v: nat, w: set<Ppa>, erased: set<Ppa>, b: Ppa)
    requires Shape(g, f0) && Shape(g, f) && Shape(g, Erase(g, f, b)) && b.blk == v && b.pg == 0
    requires Written(g, f0, f, v, w) && VictimStatus(g, f0, f, v, erased)
    ensures Written(g, f0, Erase(g, f, b), v, w) && VictimStatus(g, f0, Erase(g, f, b), v, erased + {b})
  {
    var f' := Erase(g, f, b);
    forall p | ValidPpa(g, p)
      ensures f'.status[p] == if BlockOf(p) == b then PgFree else f.status[p]
    {
      InBlockPages(g, b, p);
    }
  }

  lemma EraseProgress(g: Geo, f0: State, f: State, v: nat, done: set<Ppa>, erased: set<Ppa>, w: set<Ppa>, b: Ppa)
    requires Progress(g, f0, f, v, done, erased, w) && b in f.blks && b.blk == v && BlockPages(g, b) <= done
    ensures Progress(g, f0, Erase(g, f, b), v, done, erased + {b}, w)
  {
    hide LineCounts, BlkCounts, Roles, Filled, Forward, Backward, Relocated, Written, VictimStatus, With, GcPos,
         Scanning, Geo.TtPgs, Geo.PgsPerLine, BlockPages;
    assert b.pg == 0;
    EraseConsistent(g, f, v, done, b);
    EraseStatus(g, f0, f, v, w, erased, b);
    assert Relocated(f0, Erase(g, f, b), done, w) && GcPos(g, f0, Erase(g, f, b), |w|) by {
      EraseKeepsMaps(g, f0, f, done, w, b);
    }
  }

  lemma EraseKeepsMaps(g: Geo, f0: State, f: State, done: set<Ppa>, w: set<Ppa>, b: Ppa)
    requires Relocated(f0, f, done, w) && g.oneshot > 0 && GcPos(g, f0, f, |w|)
    ensures Relocated(f0, Erase(g, f, b), done, w) && GcPos(g, f0, Erase(g, f, b), |w|)
  {
  }

  // ---------- the scan order ----------

  /** The pages of line `v` that the nested loops have passed at flash page `row`, channel `ch`, LUN `lun`, page `i`
      of the flash page. */
  ghost function ScanSet(g: Geo, v: nat, row: nat, ch: nat, lun: nat, i: nat): set<Ppa>
    requires g.Ok()
  {
    set p | p in LinePages(g, v) && Passed(g, p, row, ch, lun, i)
  }

  predicate Passed(g: Geo, p: Ppa, row: nat, ch: nat, lun: nat, i: nat)
    requires g.flashpg > 0
  {
    var r := p.pg / g.flashpg;
    r < row || (r == row && (p.ch < ch || (p.ch == ch && (p.lun < lun || (p.lun == lun && p.pg % g.flashpg < i)))))
  }

  function ScanPage(g: Geo, v: nat, row: nat, ch: nat, lun: nat, i: nat): Ppa {
    Ppa(ch, lun, v, row * g.flashpg + i)
  }

  lemma ScanPageValid(g: Geo, v: nat, row: nat, ch: nat, lun: nat, i: nat)
    requires g.Ok() && v < g.lines && row < g.flashpgs && ch < g.nchs && lun < g.luns && i < g.flashpg
    ensures var p := ScanPage(g, v, row, ch, lun, i);
      ValidPpa(g, p) && p.pg / g.flashpg == row && p.pg % g.flashpg == i && p !in ScanSet(g, v, row, ch, lun, i)
  {
    Digit(row, i, g.flashpg);
    DigitBound(row, g.flashpgs, i, g.flashpg);
  }

  lemma ScanNext(g: Geo, v: nat, row: nat, ch: nat, lun: nat, i: nat)
    requires g.Ok() && v < g.lines && row < g.flashpgs && ch < g.nchs && lun < g.luns && i < g.flashpg
    ensures ScanSet(g, v, row, ch, lun, i + 1) == ScanSet(g, v, row, ch, lun, i) + {ScanPage(g, v, row, ch, lun, i)}
  {
    ScanPageValid(g, v, row, ch, lun, i);
    var q := ScanPage(g, v, row, ch, lun, i);
    InLinePages(g, v, q);
    forall p | p in LinePages(g, v) && Passed(g, p, row, ch, lun, i + 1) && !Passed(g, p, row, ch, lun, i)
      ensures p == q
    {
      InLinePages(g, v, p);
      assert p.pg == p.pg / g.flashpg * g.flashpg + p.pg % g.flashpg;
    }
    hide LinePages;
  }

  /** A digit of the scan that has run through is one step of the next one. */
  lemma ScanCarry(g: Geo, v: nat, row: nat, ch: nat, lun: nat)
    requires g.Ok() && v < g.lines
    ensures ScanSet(g, v, row, ch, lun, g.flashpg) == ScanSet(g, v, row, ch, lun + 1, 0)
    ensures ScanSet(g, v, row, ch, g.luns, 0) == ScanSet(g, v, row, ch + 1, 0, 0)
    ensures ScanSet(g, v, row, g.nchs, 0, 0) == ScanSet(g, v, row + 1, 0, 0, 0)
    ensures ScanSet(g, v, 0, 0, 0, 0) == {}
    ensures ScanSet(g, v, g.flashpgs, 0, 0, 0) == LinePages(g, v)
  {
    forall p | p in LinePages(g, v)
      ensures p.lun < g.luns && p.ch < g.nchs && p.pg / g.flashpg < g.flashpgs && p.pg % g.flashpg < g.flashpg
    {
      InLinePages(g, v, p);
      DivBound(p.pg, g.flashpgs, g.flashpg);
    }
    hide LinePages;
  }

  /** On the last flash page, cleaning a LUN completes its block. */
  lemma BlockScanned(g: Geo, v: nat, ch: nat, lun: nat)
    requires g.Ok() && v < g.lines && ch < g.nchs && lun < g.luns
    ensures BlockPages(g, Ppa(ch, lun, v, 0)) <= ScanSet(g, v, g.flashpgs - 1, ch, lun + 1, 0)
  {
    forall p | p in BlockPages(g, Ppa(ch, lun, v, 0)) ensures p in ScanSet(g, v, g.flashpgs - 1, ch, lun + 1, 0) {
      InBlockPages(g, Ppa(ch, lun, v, 0), p);
      InLinePages(g, v, p);
      DivBound(p.pg, g.flashpgs, g.flashpg);
    }
  }

  // ---------- the whole collection ----------

  ghost function FreePages(f: State): set<Ppa> {
    set p | p in f.status && f.status[p].PgFree?
  }

  /** What a collection of line `v` is for. */
  ghost predicate Collected(g: Geo, f0: State, f: State, v: nat)
    requires Shape(g, f0) && v < g.lines
  {
    && Inv(g, f)
    && (forall p :: ValidPpa(g, p) && p.blk == v ==> f.status[p].PgFree?)
    && (forall n :: 0 <= n < g.TtPgs() ==> Kept(g, f0, f, v, n))
    && (forall p :: ValidPpa(g, p) && p.blk != v ==>
         f.status[p] == f0.status[p] || (f0.status[p].PgFree? && f.status[p].PgValid?))
    && |FreePages(f)| == |FreePages(f0)| + f0.ipc[v]
    && f0.free != [] && (f.free == f0.free + [v] || f.free == f0.free[1..] + [v])
    && f.wp == f0.wp
  }

  /** No logical page is lost or moved needlessly: off the victim it stays, on the victim it moves to a page that was
      FREE. */
  ghost predicate Kept(g: Geo, f0: State, f: State, v: nat, n: nat)
    requires Shape(g, f0) && Shape(g, f) && n < g.TtPgs()
  {
    if f0.maptbl[n].At? && f0.maptbl[n].ppa.blk == v then
      f.maptbl[n].At? && f.maptbl[n].ppa.blk != v && f.maptbl[n].ppa in FreePages(f0)
    else f.maptbl[n] == f0.maptbl[n]
  }

  ghost predicate AllErased(g: Geo, v: nat, erased: set<Ppa>) {
    forall ch, lun :: 0 <= ch < g.nchs && 0 <= lun < g.luns ==> Ppa(ch, lun, v, 0) in erased
  }

  lemma FreePageCount(g: Geo, f0: State, f1: State, f: State, v: nat, w: set<Ppa>)
    requires Shape(g, f0) && Shape(g, f1) && Shape(g, f) && v < g.lines && f1.status == f0.status
    requires forall p :: ValidPpa(g, p) && p.blk == v ==> !f0.status[p].PgFree?
    requires forall p :: ValidPpa(g, p) && p.blk == v ==> f.status[p].PgFree?
    requires Written(g, f1, f, v, w)
    ensures |FreePages(f)| == |FreePages(f0)| - |w| + g.PgsPerLine()
  {
    hide Geo.PgsPerLine, Geo.TtPgs, Geo.PgsPerBlk, LinePages;
    var s := LinePages(g, v);
    forall p ensures p in s <==> ValidPpa(g, p) && p.blk == v { InLinePages(g, v, p); }
    CountAsLine(g, v);
    FreePagesSplit(g, f0, f1, f, v, w, s);
    var rest := FreePages(f0) - w;
    hide *;
    assert |FreePages(f0)| == |rest| + |w| && |FreePages(f)| == |rest| + |s|;
  }

  lemma FreePagesSplit(g: Geo, f0: State, f1: State, f: State, v: nat, w: set<Ppa>, s: set<Ppa>)
    requires Shape(g, f0) && Shape(g, f1) && Shape(g, f) && f1.status == f0.status && Written(g, f1, f, v, w)
    requires forall p :: p in s <==> ValidPpa(g, p) && p.blk == v
    requires forall p :: p in s ==> !f0.status[p].PgFree? && f.status[p].PgFree?
    ensures var rest := FreePages(f0) - w;
      FreePages(f0) == rest + w && rest !! w && FreePages(f) == rest + s && rest !! s
  {
    hide ValidPpa, ValidWp, Geo.PgsPerLine, Geo.TtPgs, Geo.PgsPerBlk;
  }

  lemma CountAsLine(g: Geo, v: nat)
    requires g.Ok() && v < g.lines
    ensures |LinePages(g, v)| == g.PgsPerLine()
  {
    FirstPagesCount(g, v, g.PgsPerLine());
  }

  lemma CollectedMaps(g: Geo, f0: State, f1: State, f: State, f': State, v: nat, w: set<Ppa>)
    requires Shape(g, f0) && Shape(g, f1) && Shape(g, f) && Shape(g, f') && v < g.lines && Forward(g, f0, {})
    requires f1.maptbl == f0.maptbl && f1.status == f0.status && f'.maptbl == f.maptbl && f'.status == f.status
    requires Relocated(f1, f, LinePages(g, v), w) && Written(g, f1, f, v, w)
    ensures forall n :: 0 <= n < g.TtPgs() ==> Kept(g, f0, f', v, n)
    ensures forall p :: ValidPpa(g, p) && p.blk != v ==>
      f'.status[p] == f0.status[p] || (f0.status[p].PgFree? && f'.status[p].PgValid?)
  {
    hide Geo.PgsPerLine, Geo.TtPgs, Geo.PgsPerBlk, LinePages, PgIdx;
    forall n | 0 <= n < g.TtPgs() ensures Kept(g, f0, f', v, n) {
      assert Moved(f1.maptbl[n], f.maptbl[n], LinePages(g, v), w);
      if f0.maptbl[n].At? {
        assert MapsTo(g, f0, n, f0.maptbl[n].ppa);
        InLinePages(g, v, f0.maptbl[n].ppa);
      }
    }
  }

  lemma AllErasedFree(g: Geo, f0: State, f: State, v: nat, erased: set<Ppa>)
    requires Shape(g, f0) && Shape(g, f) && VictimStatus(g, f0, f, v, erased) && AllErased(g, v, erased)
    ensures forall p :: ValidPpa(g, p) && p.blk == v ==> f.status[p].PgFree?
  {
    forall p | ValidPpa(g, p) && p.blk == v ensures f.status[p].PgFree? { assert Ppa(p.ch, p.lun, v, 0) == BlockOf(p); }
  }

  lemma GcPosFree(g: Geo, f0: State, f: State, n: nat)
    requires g.oneshot > 0 && GcPos(g, f0, f, n)
    ensures f.free == f0.free || (f0.free != [] && f.free == f0.free[1..])
  {
  }

  /** The moved pages take `w`, the victim gives back all its pages: the gain is its invalid count. */
  lemma CollectedCount(g: Geo, f0: State, f1: State, f: State, v: nat, w: set<Ppa>)
    requires Shape(g, f0) && Shape(g, f1) && Shape(g, f) && v < g.lines && f1 == TakeVictim(f0, v)
    requires forall p :: ValidPpa(g, p) && p.blk == v ==> !f0.status[p].PgFree? && f.status[p].PgFree?
    requires Written(g, f1, f, v, w) && |w| == f0.vpc[v] && f0.vpc[v] + f0.ipc[v] == g.PgsPerLine()
    ensures |FreePages(f)| == |FreePages(f0)| + f0.ipc[v]
  {
    hide Written, Geo.TtPgs, Geo.PgsPerLine, Geo.PgsPerBlk, FreePages;
    FreePageCount(g, f0, f1, f, v, w);
  }

  /** GC loses nothing: a scan of all pages and the erasure of all blocks, followed by mark_line_free, is a
      collection. */
  lemma ScanIsCollection(g: Geo, f0: State, f: State, v: nat, erased: set<Ppa>, w: set<Ppa>)
    requires Inv(g, f0) && v in f0.victims && f0.free != []
    requires Progress(g, TakeVictim(f0, v), f, v, LinePages(g, v), erased, w) && AllErased(g, v, erased)
    ensures v < g.lines && Collected(g, f0, FreeLine(f, v), v)
  {
    var f1 := TakeVictim(f0, v);
    hide LineCounts, BlkCounts, Roles, Filled, Forward, Backward, Relocated, Written, With, Geo.TtPgs, Geo.PgsPerLine,
         Geo.PgsPerBlk, LinePages, VictimStatus, AllErased, GcPos, Kept, FreePages, Scanning;
    VictimCounts(g, f0, v);
    AllErasedFree(g, f1, f, v, erased);
    FreeLineConsistent(g, f, v, LinePages(g, v));
    hide Consistent;
    CollectedMaps(g, f0, f1, f, FreeLine(f, v), v, w);
    TakeVictimFilled(g, f0, v);
    SameWritten(g, f1, f, FreeLine(f, v), v, w);
    CollectedCount(g, f0, f1, FreeLine(f, v), v, w);
    GcPosFree(g, f1, f, |w|);
  }

  lemma SameWritten(g: Geo, f0: State, f: State, f': State, v: nat, w: set<Ppa>)
    requires Shape(g, f0) && Shape(g, f) && Shape(g, f') && Written(g, f0, f, v, w) && f'.status == f.status
    ensures Written(g, f0, f', v, w)
  {
  }

  /** Successive collections, each of some victim of its state. */
  ghost predicate IsGcRun(g: Geo, fs: seq<State>, vs: seq<nat>) {
    && |fs| == |vs| + 1 && Inv(g, fs[0]) && fs[0].free != []
    && forall i :: 0 <= i < |vs| ==> GcStep(g, fs[i], fs[i + 1], vs[i])
  }

  ghost predicate GcStep(g: Geo, f: State, f': State, v: nat) {
    Inv(g, f) && v < g.lines && v in f.victims && Collected(g, f, f', v)
  }

  /** However often the collector runs, exactly the same logical pages stay mapped, the user's write pointer stays,
      there is a free line for the next run, and every run has gained at least one FREE page. */
  lemma {:induction false} GcRunKeepsData(g: Geo, fs: seq<State>, vs: seq<nat>, n: nat, lpn: nat)
    requires IsGcRun(g, fs, vs) && n < |fs| && lpn < g.TtPgs()
    ensures Inv(g, fs[n]) && fs[n].free != [] && fs[n].wp == fs[0].wp && |fs[n].maptbl| == |fs[0].maptbl| == g.TtPgs()
    ensures fs[n].maptbl[lpn].At? <==> fs[0].maptbl[lpn].At?
    ensures |FreePages(fs[0])| + n <= |FreePages(fs[n])|
  {
    hide LineCounts, BlkCounts, Roles, Filled, Forward, Backward, Geo.TtPgs, Geo.PgsPerBlk, FreePages, ValidPpa;
    if n > 0 {
      GcRunKeepsData(g, fs, vs, n - 1, lpn);
      assert GcStep(g, fs[n - 1], fs[n], vs[n - 1]);
      assert Kept(g, fs[n - 1], fs[n], vs[n - 1], lpn);
      VictimHasInvalid(g, fs[n - 1], vs[n - 1]);
    }
  }

  lemma VictimHasInvalid(g: Geo, f: State, v: nat)
    requires Shape(g, f) && Roles(g, f, {}) && v in f.victims
    ensures v < g.lines && f.ipc[v] > 0
  {
  }

  /** In a consistent state different logical pages live on different pages. */
  lemma HomesDistinct(g: Geo, f: State, m: nat, n: nat)
    requires Inv(g, f) && m < n < g.TtPgs() && f.maptbl[m].At? && f.maptbl[n].At?
    ensures f.maptbl[m].ppa != f.maptbl[n].ppa
  {
    hide LineCounts, BlkCounts, Roles, Filled, Backward, Geo.TtPgs;
    assert MapsTo(g, f, m, f.maptbl[m].ppa) && MapsTo(g, f, n, f.maptbl[n].ppa);
  }

  // ---------- invalidating a page ----------

  /** mark_page_invalid: a line that was full becomes a victim. */
  function MarkInvalid(g: Geo, f: State, p: Ppa): State
    requires BlockOf(p) in f.blks && f.blks[BlockOf(p)].vpc > 0 && p.blk < |f.vpc| == |f.ipc| && f.vpc[p.blk] > 0
  {
    var b, l := f.blks[BlockOf(p)], p.blk;
    var r := f.(status := f.status[p := PgInvalid], blks := f.blks[BlockOf(p) := Counts(b.vpc - 1, b.ipc + 1)],
                vpc := f.vpc[l := f.vpc[l] - 1], ipc := f.ipc[l := f.ipc[l] + 1]);
    if f.vpc[l] == g.PgsPerLine() then r.(full := f.full - {l}, victims := f.victims + {l}) else r
  }

  lemma ClosedLineFilled(g: Geo, f: State, l: nat)
    requires Shape(g, f) && Roles(g, f, {}) && Filled(g, f, {}) && l in f.full + f.victims
    ensures l < g.lines && forall p :: ValidPpa(g, p) && p.blk == l ==> !f.status[p].PgFree?
  {
    hide Geo.PgsPerLine, Geo.TtPgs, Geo.PgsPerBlk, Digits;
    assert l !in f.free && l != f.wp.line && l != f.gcWp.line;
    hide Roles;
    forall p | ValidPpa(g, p) && p.blk == l ensures !f.status[p].PgFree? { WriteIndexRoundTrip(g, p); }
  }

  /** A full line or victim has no FREE page. */
  lemma ClosedLineCounts(g: Geo, f: State, l: nat)
    requires Shape(g, f) && LineCounts(g, f, {}) && Roles(g, f, {}) && Filled(g, f, {}) && l in f.full + f.victims
    ensures l < g.lines && f.vpc[l] + f.ipc[l] == g.PgsPerLine()
  {
    hide Geo.PgsPerLine, Geo.TtPgs, Geo.PgsPerBlk, Roles, Filled, LineCounted;
    ClosedLineFilled(g, f, l);
    assert LineCounted(g, f, l);
    NoFreePage(g, f, l);
  }

  /** A current line has a FREE page: the one its pointer is on. */
  lemma OpenLineCounts(g: Geo, f: State, io: IoType)
    requires Shape(g, f) && LineCounts(g, f, {}) && Roles(g, f, {}) && Filled(g, f, {})
    ensures var l := f.WpOf(io).line; f.vpc[l] + f.ipc[l] < g.PgsPerLine()
  {
    hide Geo.PgsPerLine, Geo.TtPgs, Geo.PgsPerBlk, LinePages, Digits;
    var l, q := f.WpOf(io).line, NewPage(f.WpOf(io));
    NextPageIsFree(g, f, {}, io);
    hide Filled, Roles;
    assert LineCounted(g, f, l);
    CountAsLine(g, l);
    InLinePages(g, l, q);
    var s := LinePages(g, l);
    var v, i := With(f.status, s, PgValid), With(f.status, s, PgInvalid);
    assert v !! i && v + i <= s - {q} && |s - {q}| == |s| - 1;
    SubsetCard(v + i, s - {q});
  }

  lemma ValidPageCounted(g: Geo, f: State, busy: set<nat>, p: Ppa)
    requires Shape(g, f) && LineCounts(g, f, busy) && BlkCounts(g, f) && ValidPpa(g, p) && f.status[p].PgValid?
    requires p.blk !in busy
    ensures BlockOf(p) in f.blks && 0 < f.blks[BlockOf(p)].vpc && 0 < f.vpc[p.blk]
  {
    hide Geo.PgsPerLine, Geo.TtPgs, Geo.PgsPerBlk, LinePages;
    assert LineCounted(g, f, p.blk) && BlkCounted(g, f, BlockOf(p));
    InLinePages(g, p.blk, p);
    InBlockPages(g, BlockOf(p), p);
    assert p in With(f.status, LinePages(g, p.blk), PgValid) && p in With(f.status, BlockPages(g, BlockOf(p)), PgValid);
  }

  lemma {:induction false} BlockPagesCount(g: Geo, b: Ppa, n: nat)
    ensures |set pg | 0 <= pg < n :: b.(pg := pg)| == n
  {
    var s := set pg | 0 <= pg < n :: b.(pg := pg);
    if n == 0 {
      assert s == {};
    } else {
      BlockPagesCount(g, b, n - 1);
      assert s == (set pg | 0 <= pg < n - 1 :: b.(pg := pg)) + {b.(pg := n - 1)};
    }
  }

  /** A VALID page leaves room in the invalid counts of its block and line, and no count exceeds its total. */
  lemma ValidPageBounds(g: Geo, f: State, p: Ppa)
    requires Shape(g, f) && LineCounts(g, f, {}) && BlkCounts(g, f) && ValidPpa(g, p) && f.status[p].PgValid?
    ensures BlockOf(p) in f.blks
    ensures f.blks[BlockOf(p)].ipc < g.PgsPerBlk() && f.blks[BlockOf(p)].vpc <= g.PgsPerBlk()
    ensures f.ipc[p.blk] < g.PgsPerLine() && f.vpc[p.blk] <= g.PgsPerLine()
  {
    hide Geo.PgsPerLine, Geo.TtPgs, Geo.PgsPerBlk, LinePages;
    var b, l := BlockOf(p), p.blk;
    assert LineCounted(g, f, l) && BlkCounted(g, f, b);
    InLinePages(g, l, p);
    InBlockPages(g, b, p);
    CountAsLine(g, l);
    BlockPagesCount(g, b, g.PgsPerBlk());
    SubsetCard(With(f.status, LinePages(g, l), PgInvalid), LinePages(g, l) - {p});
    SubsetCard(With(f.status, LinePages(g, l), PgValid), LinePages(g, l));
    SubsetCard(With(f.status, BlockPages(g, b), PgInvalid), BlockPages(g, b) - {p});
    SubsetCard(With(f.status, BlockPages(g, b), PgValid), BlockPages(g, b));
  }

  /** The assertions of mark_page_invalid hold, and a line is full exactly when all its pages are VALID. */
  lemma InvalidateReady(g: Geo, f: State, stale: set<Ppa>, p: Ppa)
    requires Consistent(g, f, {}, stale) && ValidPpa(g, p) && f.status[p].PgValid?
    ensures BlockOf(p) in f.blks && 0 < f.blks[BlockOf(p)].vpc && 0 < f.vpc[p.blk]
    ensures f.blks[BlockOf(p)].ipc < g.PgsPerBlk() && f.blks[BlockOf(p)].vpc <= g.PgsPerBlk()
    ensures f.ipc[p.blk] < g.PgsPerLine() && f.vpc[p.blk] <= g.PgsPerLine()
    ensures f.vpc[p.blk] == g.PgsPerLine() ==> f.ipc[p.blk] == 0
    ensures f.vpc[p.blk] == g.PgsPerLine() <==> p.blk in f.full
    ensures p.blk !in f.free
  {
    hide Forward, Backward, Geo.TtPgs, Geo.PgsPerLine, Geo.PgsPerBlk, LineCounts, BlkCounts, Digits;
    var l := p.blk;
    WriteIndexRoundTrip(g, p);
    assert l !in f.free;
    ValidPageCounted(g, f, {}, p);
    ValidPageBounds(g, f, p);
    if l in f.full + f.victims {
      ClosedLineCounts(g, f, l);
    } else {
      OpenLineCounts(g, f, if l == f.wp.line then UserIo else GcIo);
    }
  }

  lemma InvalidateCounts(g: Geo, f: State, p: Ppa)
    requires Shape(g, f) && LineCounts(g, f, {}) && BlkCounts(g, f) && ValidPpa(g, p) && f.status[p].PgValid?
    requires 0 < f.blks[BlockOf(p)].vpc && 0 < f.vpc[p.blk]
    ensures Shape(g, MarkInvalid(g, f, p)) && LineCounts(g, MarkInvalid(g, f, p), {})
    ensures BlkCounts(g, MarkInvalid(g, f, p))
  {
    hide Geo.PgsPerLine, Geo.TtPgs, Geo.PgsPerBlk, LinePages, With, BlockPages;
    var f' := MarkInvalid(g, f, p);
    assert Shape(g, f');
    forall l | 0 <= l < g.lines ensures LineCounted(g, f', l) {
      assert LineCounted(g, f, l);
      WithUpdate(f.status, LinePages(g, l), p, PgInvalid);
      InLinePages(g, l, p);
    }
    forall b | b in f'.blks ensures BlkCounted(g, f', b) {
      assert BlkCounted(g, f, b);
      WithUpdate(f.status, BlockPages(g, b), p, PgInvalid);
      InBlockPages(g, b, p);
    }
  }

  lemma InvalidateRoles(g: Geo, f: State, p: Ppa)
    requires Shape(g, f) && Roles(g, f, {}) && BlockOf(p) in f.blks && 0 < f.blks[BlockOf(p)].vpc && ValidPpa(g, p)
    requires 0 < f.vpc[p.blk]
    requires (f.vpc[p.blk] == g.PgsPerLine() <==> p.blk in f.full) && p.blk !in f.free && Shape(g, MarkInvalid(g, f, p))
    ensures Roles(g, MarkInvalid(g, f, p), {})
  {
    hide Geo.PgsPerLine, Geo.TtPgs, Geo.PgsPerBlk;
  }

  /** Invalidating a stale page. */
  lemma InvalidateConsistent(g: Geo, f: State, stale: set<Ppa>, p: Ppa)
    requires Consistent(g, f, {}, stale) && ValidPpa(g, p) && f.status[p].PgValid? && p in stale
    ensures BlockOf(p) in f.blks && 0 < f.blks[BlockOf(p)].vpc && 0 < f.vpc[p.blk]
    ensures Consistent(g, MarkInvalid(g, f, p), {}, stale - {p})
  {
    hide LineCounts, BlkCounts, Roles, Filled, Forward, Backward, Geo.PgsPerLine, Geo.TtPgs, Geo.PgsPerBlk;
    InvalidateReady(g, f, stale, p);
    InvalidateCounts(g, f, p);
    InvalidateRoles(g, f, p);
    InvalidateFilled(g, f, p);
    SameMaps(g, f, MarkInvalid(g, f, p), stale, stale - {p});
  }

  lemma InvalidateFilled(g: Geo, f: State, p: Ppa)
    requires Shape(g, f) && Filled(g, f, {}) && BlockOf(p) in f.blks && 0 < f.blks[BlockOf(p)].vpc && ValidPpa(g, p)
    requires 0 < f.vpc[p.blk]
    requires f.status[p].PgValid? && Shape(g, MarkInvalid(g, f, p))
    ensures Filled(g, MarkInvalid(g, f, p), {})
  {
    hide Geo.PgsPerLine, Geo.TtPgs, Geo.PgsPerBlk, Digits;
  }

  /** Writing a logical page anew: program it on the next page, then invalidate the page it was on. */
  function Overwrite(g: Geo, f: State, lpn: nat, io: IoType): State
    requires CanProgram(g, f, lpn, io)
    requires f.maptbl[lpn].At? ==>
      var m, p := Program(g, f, lpn, io), f.maptbl[lpn].ppa;
      BlockOf(p) in m.blks && m.blks[BlockOf(p)].vpc > 0 && p.blk < |m.vpc| == |m.ipc| && m.vpc[p.blk] > 0
  {
    var m := Program(g, f, lpn, io);
    if f.maptbl[lpn].At? then MarkInvalid(g, m, f.maptbl[lpn].ppa) else m
  }

  lemma ProgramConsistent(g: Geo, f: State, lpn: nat, io: IoType)
    requires Inv(g, f) && lpn < g.TtPgs() && (AtLastPage(g, f, io) ==> f.free != [])
    ensures CanProgram(g, f, lpn, io)
    ensures Consistent(g, Program(g, f, lpn, io), {}, Gone(f.maptbl[lpn]))
  {
    hide LineCounts, BlkCounts, Roles, Filled, Forward, Backward, Geo.TtPgs, Geo.PgsPerBlk, StepWp, PgIdx;
    NextPageIsFree(g, f, {}, io);
    ProgramShape(g, f, lpn, io, {});
    ProgramCounts(g, f, lpn, io, {});
    ProgramFilled(g, f, lpn, io, {});
    ProgramRoles(g, f, lpn, io, {});
    ProgramForward(g, f, lpn, io, {});
    assert {} + Gone(f.maptbl[lpn]) == Gone(f.maptbl[lpn]);
  }

  lemma OverwriteInv(g: Geo, f: State, lpn: nat, io: IoType)
    requires Inv(g, f) && lpn < g.TtPgs() && (AtLastPage(g, f, io) ==> f.free != [])
    requires CanProgram(g, f, lpn, io)
    ensures f.maptbl[lpn].At? ==>
      var m, p := Program(g, f, lpn, io), f.maptbl[lpn].ppa;
      BlockOf(p) in m.blks && m.blks[BlockOf(p)].vpc > 0 && p.blk < |m.vpc| == |m.ipc| && m.vpc[p.blk] > 0
    ensures Inv(g, Overwrite(g, f, lpn, io))
  {
    hide LineCounts, BlkCounts, Roles, Filled, Backward, Geo.TtPgs, Geo.PgsPerBlk, StepWp, PgIdx, Program;
    ProgramConsistent(g, f, lpn, io);
    NextPageIsFree(g, f, {}, io);
    ProgramFields(g, f, lpn, io);
    if f.maptbl[lpn].At? {
      var p := f.maptbl[lpn].ppa;
      assert MapsTo(g, f, lpn, p);
      hide Forward;
      InvalidateConsistent(g, Program(g, f, lpn, io), {p}, p);
      assert {p} - {p} == {};
    }
  }

  // ---------- the state after initialisation ----------

  /** conv_init_ftl: all pages FREE and unmapped, the first two lines taken by the write pointers. */
  ghost function Initial(g: Geo): State
    requires g.Ok() && 2 <= g.lines
  {
    State(seq(g.TtPgs(), _ => Unmapped), seq(g.TtPgs(), _ => g.TtPgs()),
          map p | p in AllPages(g) :: PgFree, map p | p in AllPages(g) && p.pg == 0 :: Counts(0, 0),
          seq(g.lines, _ => 0), seq(g.lines, _ => 0), seq<nat>(g.lines - 2, i requires 0 <= i => i + 2), {}, {},
          Wp(0, 0, 0, 0), Wp(1, 0, 0, 0))
  }

  function AllPages(g: Geo): set<Ppa> {
    set ch, lun, blk, pg | 0 <= ch < g.nchs && 0 <= lun < g.luns && 0 <= blk < g.lines && 0 <= pg < g.PgsPerBlk() ::
      Ppa(ch, lun, blk, pg)
  }

  lemma InitialShape(g: Geo)
    requires g.Ok() && 2 <= g.lines
    ensures Shape(g, Initial(g))
  {
  }

  lemma InitialCounts(g: Geo)
    requires g.Ok() && 2 <= g.lines && Shape(g, Initial(g))
    ensures LineCounts(g, Initial(g), {}) && BlkCounts(g, Initial(g))
  {
    var f := Initial(g);
    hide Geo.PgsPerLine, Geo.TtPgs, Geo.PgsPerBlk, LinePages, BlockPages;
    forall l | 0 <= l < g.lines ensures LineCounted(g, f, l) { AllFreeCounted(g, f, l); }
    forall b | b in f.blks ensures BlkCounted(g, f, b) {
      assert With(f.status, BlockPages(g, b), PgValid) == {};
      assert With(f.status, BlockPages(g, b), PgInvalid) == {};
    }
  }

  lemma InitialRoles(g: Geo)
    requires g.Ok() && 2 <= g.lines && Shape(g, Initial(g))
    ensures Roles(g, Initial(g), {}) && Filled(g, Initial(g), {})
  {
    var f := Initial(g);
    hide Geo.PgsPerLine, Geo.TtPgs, Geo.PgsPerBlk, Shape;
    forall l | 2 <= l < g.lines ensures l in f.free { assert f.free[l - 2] == l; }
    Digit(0, 0, g.oneshot);
    assert Digits(g, 0, 0, 0, 0) == 0;
    hide Digits;
    assert forall l :: 0 <= l < g.lines ==> Frontier(g, f, l) == 0;
  }

  lemma InitialInv(g: Geo)
    requires g.Ok() && 2 <= g.lines
    ensures Inv(g, Initial(g))
  {
    hide LineCounts, BlkCounts, Roles, Filled, Geo.PgsPerLine, Geo.TtPgs, Geo.PgsPerBlk;
    InitialShape(g);
    InitialCounts(g);
    InitialRoles(g);
  }
}
