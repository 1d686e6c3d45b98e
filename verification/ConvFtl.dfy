/** The FTL object of conv_ftl.c: the tables, the line manager with its free and full lists and
    the real victim heap, the two write pointers, and garbage collection.  Each method is proved
    to do the step of `Ftl` or `Gc` that it implements. */
module ConvFtl {
  import opened Geometry
  import opened Ftl
  import opened Gc
  import PQueue

  /** `pos` is nonzero exactly for the lines in the heap. */
  ghost predicate PosRule(h: seq<nat>, pos: seq<nat>) {
    forall l :: 0 <= l < |pos| ==> (pos[l] != 0 <==> l in PQueue.ElementSet(h))
  }

  lemma {:induction false} ElementCount(h: seq<nat>, pos: seq<nat>)
    requires 1 <= |h| && PQueue.Placed(h, pos)
    ensures |PQueue.ElementSet(h)| == |h| - 1
  {
    if |h| == 1 {
      assert PQueue.ElementSet(h) == {};
    } else {
      var r, e := h[..|h| - 1], h[|h| - 1];
      ElementCount(r, pos);
      assert forall i :: 1 <= i < |r| ==> r[i] == h[i];
      assert PQueue.ElementSet(h) == PQueue.ElementSet(r) + {e} by {
        forall x | x in PQueue.ElementSet(r) ensures x in PQueue.ElementSet(h) {
          var i :| 1 <= i < |r| && r[i] == x;
          assert h[i] == x;
        }
        assert h[|h| - 1] == e;
      }
      assert e !in PQueue.ElementSet(r);
    }
  }

  lemma {:induction false} BelowCard(s: set<nat>, n: nat)
    requires forall x :: x in s ==> x < n
    ensures |s| <= n
  {
    if n > 0 {
      BelowCard(s - {n - 1}, n - 1);
    } else {
      assert s == {};
    }
  }

  /** A line outside the heap finds room in it. */
  lemma HeapHasRoom(h: seq<nat>, pri: seq<nat>, pos: seq<nat>, l: nat)
    requires PQueue.Wf(h, pri) && PQueue.Placed(h, pos) && l < |pri| && l !in PQueue.ElementSet(h)
    ensures |h| <= |pri|
  {
    ElementCount(h, pos);
    var s := PQueue.ElementSet(h) + {l};
    assert |s| == |h|;
    BelowCard(s, |pri|);
  }

  /** Only members of the heap moved, and the members are now `e` more. */
  lemma InsertPosRule(h: seq<nat>, h': seq<nat>, e: nat, pos: seq<nat>, pos': seq<nat>)
    requires PosRule(h, pos) && PQueue.OnlyMembersMoved(h + [e], pos, pos') && PQueue.Placed(h', pos')
    requires PQueue.ElementSet(h') == PQueue.ElementSet(h) + {e}
    ensures PosRule(h', pos')
  {
  }

  /** Only members moved, and `e` left the heap and got position 0. */
  lemma RemovePosRule(h: seq<nat>, h': seq<nat>, e: nat, pos: seq<nat>, pos': seq<nat>)
    requires PosRule(h, pos) && PQueue.OnlyMembersMoved(h, pos, pos') && PQueue.Placed(h', pos') && e < |pos'|
    requires PQueue.ElementSet(h') == PQueue.ElementSet(h) - {e}
    ensures PosRule(h', pos'[e := 0]) && PQueue.Placed(h', pos'[e := 0])
  {
  }

  /** The assertions of mark_page_valid: a FREE page leaves room in the counts of its block and line. */
  lemma FreePageRoom(g: Geo, f: State, busy: set<nat>, p: Ppa)
    requires Shape(g, f) && LineCounts(g, f, busy) && BlkCounts(g, f) && ValidPpa(g, p) && f.status[p].PgFree?
    requires p.blk !in busy
    ensures BlockOf(p) in f.blks && f.blks[BlockOf(p)].vpc < g.PgsPerBlk() && f.vpc[p.blk] < g.PgsPerLine()
  {
    hide Geo.PgsPerLine, Geo.TtPgs, Geo.PgsPerBlk, LinePages;
    var b, l := BlockOf(p), p.blk;
    assert LineCounted(g, f, l) && BlkCounted(g, f, b);
    InLinePages(g, l, p);
    InBlockPages(g, b, p);
    CountAsLine(g, l);
    BlockPagesCount(g, b, g.PgsPerBlk());
    SubsetCard(With(f.status, LinePages(g, l), PgValid), LinePages(g, l) - {p});
    SubsetCard(With(f.status, BlockPages(g, b), PgValid), BlockPages(g, b) - {p});
  }

  /** Everything that the body of gc_write_page asserts or indexes. */
  lemma GcWriteReady(g: Geo, f: State, v: nat, done: set<Ppa>, p: Ppa)
    requires Consistent(g, f, {v}, done) && Scanning(g, f, v, done)
    requires ValidPpa(g, p) && p.blk == v && p !in done && f.status[p].PgValid?
    requires AtLastPage(g, f, GcIo) ==> f.free != []
    ensures |f.maptbl| == |f.rmap| == g.TtPgs() && PgIdx(g, NewPage(f.gcWp)) < g.TtPgs() && g.oneshot > 0
    ensures var q := NewPage(f.gcWp);
      && PgIdx(g, p) < |f.rmap| && f.rmap[PgIdx(g, p)] < g.TtPgs() && CanProgram(g, f, f.rmap[PgIdx(g, p)], GcIo)
      && q in f.status && f.status[q].PgFree? && BlockOf(q) in f.blks && q.blk < g.lines == |f.ipc|
      && q.blk !in f.victims + f.full
      && f.blks[BlockOf(q)].vpc < g.PgsPerBlk() && f.vpc[q.blk] < g.PgsPerLine()
      && (AtLastPage(g, f, GcIo) ==> f.vpc[q.blk] + 1 + f.ipc[q.blk] == g.PgsPerLine())
  {
    hide StepWp, Geo.PgsPerLine, Geo.TtPgs, Geo.PgsPerBlk, PgIdx, LineCounts, BlkCounts, Filled, Forward, Backward,
         Scanning, Program;
    MovePage(g, f, v, done, p);
    NextPageIsFree(g, f, {v}, GcIo);
    FreePageRoom(g, f, {v}, NewPage(f.gcWp));
    var lpn := f.rmap[PgIdx(g, p)];
    ProgramFields(g, f, lpn, GcIo);
    if AtLastPage(g, f, GcIo) { ProgramLastPage(g, f, lpn, GcIo, {v}); }
  }

  /** Passing a flash page without VALID pages. */
  lemma {:induction false} SkipFlashPg(g: Geo, f0: State, f: State, v: nat, row: nat, ch: nat, lun: nat, i: nat,
                                       erased: set<Ppa>, w: set<Ppa>)
    requires g.Ok() && v < g.lines && row < g.flashpgs && ch < g.nchs && lun < g.luns && i <= g.flashpg
    requires Progress(g, f0, f, v, ScanSet(g, v, row, ch, lun, 0), erased, w)
    requires forall k :: 0 <= k < i ==>
      ScanPage(g, v, row, ch, lun, k) in f.status && !f.status[ScanPage(g, v, row, ch, lun, k)].PgValid?
    ensures Progress(g, f0, f, v, ScanSet(g, v, row, ch, lun, i), erased, w)
  {
    hide Progress, ScanSet, ScanPage;
    if i > 0 {
      SkipFlashPg(g, f0, f, v, row, ch, lun, i - 1, erased, w);
      ScanPageValid(g, v, row, ch, lun, i - 1);
      ScanPageBlk(g, v, row, ch, lun, i - 1);
      ScanNext(g, v, row, ch, lun, i - 1);
      SkipProgress(g, f0, f, v, ScanSet(g, v, row, ch, lun, i - 1), erased, w, ScanPage(g, v, row, ch, lun, i - 1));
    }
  }

  lemma ScanPageBlk(g: Geo, v: nat, row: nat, ch: nat, lun: nat, i: nat)
    ensures ScanPage(g, v, row, ch, lun, i).blk == v
  {
  }

  /** There shouldn't be any free page in victim blocks. */
  lemma UnscannedPages(g: Geo, f0: State, f: State, v: nat, row: nat, ch: nat, lun: nat, erased: set<Ppa>, w: set<Ppa>)
    requires g.Ok() && v < g.lines && row < g.flashpgs && ch < g.nchs && lun < g.luns
    requires Progress(g, f0, f, v, ScanSet(g, v, row, ch, lun, 0), erased, w)
    ensures forall k :: 0 <= k < g.flashpg ==>
      ScanPage(g, v, row, ch, lun, k) in f.status && !f.status[ScanPage(g, v, row, ch, lun, k)].PgFree?
  {
    hide Consistent, Relocated, Written, VictimStatus, LinePages, Geo.PgsPerBlk;
    assert Shape(g, f) by { ProgressShape(g, f0, f, v, ScanSet(g, v, row, ch, lun, 0), erased, w); }
    forall k | 0 <= k < g.flashpg
      ensures ScanPage(g, v, row, ch, lun, k) in f.status && !f.status[ScanPage(g, v, row, ch, lun, k)].PgFree?
    {
      ScanPageValid(g, v, row, ch, lun, k);
    }
  }

  lemma ProgressShape(g: Geo, f0: State, f: State, v: nat, done: set<Ppa>, erased: set<Ppa>, w: set<Ppa>)
    requires Progress(g, f0, f, v, done, erased, w)
    ensures Shape(g, f0) && Shape(g, f)
  {
  }

  /** What the copy of a VALID page needs and yields. */
  lemma MoveReady(g: Geo, f0: State, f: State, v: nat, done: set<Ppa>, erased: set<Ppa>, w: set<Ppa>, p: Ppa)
    requires Progress(g, f0, f, v, done, erased, w) && f0.free != []
    requires ValidPpa(g, p) && p.blk == v && p !in done && f.status[p].PgValid?
    requires |With(f0.status, LinePages(g, v), PgValid)| < g.PgsPerLine()
    ensures Consistent(g, f, {v}, done) && Scanning(g, f, v, done) && (AtLastPage(g, f, GcIo) ==> f.free != [])
    ensures PgIdx(g, p) < |f.rmap| && CanProgram(g, f, f.rmap[PgIdx(g, p)], GcIo)
    ensures Progress(g, f0, Program(g, f, f.rmap[PgIdx(g, p)], GcIo), v, done + {p}, erased, w + {NewPage(f.gcWp)})
  {
    hide Relocated, Written, VictimStatus, With, GcPos, LinePages, LineCounts, BlkCounts, Roles, Filled, Forward,
         Backward, Geo.TtPgs, Geo.PgsPerBlk, Geo.PgsPerLine, PgIdx, StepWp, Program;
    MoveProgress(g, f0, f, v, done, erased, w, p);
  }

  lemma VictimReady(g: Geo, f: State, v: nat)
    requires Inv(g, f) && v in f.victims
    ensures v < g.lines == |f.ipc| && g.Ok() && Progress(g, TakeVictim(f, v), TakeVictim(f, v), v, {}, {}, {})
    ensures |With(f.status, LinePages(g, v), PgValid)| < g.PgsPerLine()
  {
    hide LineCounts, BlkCounts, Roles, Filled, Forward, Backward, LinePages, With, Geo.PgsPerLine, Geo.TtPgs;
    VictimCounts(g, f, v);
    TakeVictimConsistent(g, f, v);
    ProgressStart(g, TakeVictim(f, v), v);
  }

  lemma EndReady(g: Geo, f0: State, f: State, v: nat, done: set<Ppa>, erased: set<Ppa>, w: set<Ppa>)
    requires Progress(g, f0, f, v, done, erased, w)
    ensures |f.ipc| == g.lines && v !in f.victims
  {
    hide LineCounts, BlkCounts, Filled, Forward, Backward, With, Relocated, Written, VictimStatus, GcPos,
         Geo.PgsPerLine, Geo.TtPgs;
    assert v in {v};
  }

  lemma InvalidateLists(g: Geo, f: State, stale: set<Ppa>, p: Ppa)
    requires Consistent(g, f, {}, stale) && ValidPpa(g, p) && f.status[p].PgValid?
    ensures BlockOf(p) in f.blks && 0 < f.blks[BlockOf(p)].vpc && p.blk < g.lines == |f.vpc| == |f.ipc|
    ensures 0 < f.vpc[p.blk]
    ensures f.blks[BlockOf(p)].ipc < g.PgsPerBlk() && f.blks[BlockOf(p)].vpc <= g.PgsPerBlk()
    ensures f.ipc[p.blk] < g.PgsPerLine() && f.vpc[p.blk] <= g.PgsPerLine()
    ensures f.vpc[p.blk] == g.PgsPerLine() ==> f.ipc[p.blk] == 0
    ensures (f.vpc[p.blk] == g.PgsPerLine() <==> p.blk in f.full) && (p.blk in f.full ==> p.blk !in f.victims)
    ensures p in f.status
  {
    hide Geo.PgsPerLine, Geo.PgsPerBlk, LineCounts, BlkCounts, Filled, Forward, Backward;
    InvalidateReady(g, f, stale, p);
  }

  lemma PosRuleAt(h: seq<nat>, pos: seq<nat>, l: nat)
    requires PosRule(h, pos) && l < |pos|
    ensures pos[l] != 0 <==> l in PQueue.ElementSet(h)
  {
  }

  lemma SamePosRule(h: seq<nat>, h': seq<nat>, pos: seq<nat>, pos': seq<nat>)
    requires PosRule(h, pos) && PQueue.OnlyMembersMoved(h, pos, pos') && PQueue.Placed(h', pos')
    requires PQueue.ElementSet(h') == PQueue.ElementSet(h)
    ensures PosRule(h', pos')
  {
  }

  lemma ProgressPage(g: Geo, f0: State, f: State, v: nat, done: set<Ppa>, erased: set<Ppa>, w: set<Ppa>, p: Ppa)
    requires Progress(g, f0, f, v, done, erased, w) && ValidPpa(g, p)
    ensures p in f.status
  {
  }

  /** Advance, field by field. */
  lemma AdvanceIs(g: Geo, f: State, f': State, io: IoType)
    requires g.oneshot > 0 && f.WpOf(io).line < |f.vpc| && (AtLastPage(g, f, io) ==> f.free != [])
    requires f'.maptbl == f.maptbl && f'.rmap == f.rmap && f'.status == f.status && f'.blks == f.blks
    requires f'.vpc == f.vpc && f'.ipc == f.ipc && f'.WpOf(OtherIo(io)) == f.WpOf(OtherIo(io))
    requires !AtLastPage(g, f, io) ==>
      f'.WpOf(io) == StepWp(g, f.WpOf(io)).0 && f'.free == f.free && f'.full == f.full && f'.victims == f.victims
    requires AtLastPage(g, f, io) ==>
      var l := f.WpOf(io).line; var isFull := f.vpc[l] == g.PgsPerLine();
      && f'.WpOf(io) == Wp(f.free[0], 0, 0, 0) && f'.free == f.free[1..]
      && f'.full == (if isFull then f.full + {l} else f.full)
      && f'.victims == if isFull then f.victims else f.victims + {l}
    ensures f' == Advance(g, f, io)
  {
    hide StepWp, Geo.PgsPerLine;
  }

  class ConvFtl {
    const g: Geo
    var maptbl: seq<Mapping>
    var rmap: seq<nat>
    var status: map<Ppa, PgStatus>
    var blks: map<Ppa, Counts>
    var ipc: seq<nat>
    /** `pq.pri` holds the vpc of the lines, `pq.pos` their heap positions. */
    const pq: PQueue.Heap
    var freeLines: seq<nat>
    var fullLines: set<nat>
    var freeLineCnt: nat
    var fullLineCnt: nat
    var victimLineCnt: nat
    var wp: Wp
    var gcWp: Wp
    var creditsToRefill: nat

    ghost function View(): State
      requires pq.size <= pq.d.Length
      reads this, pq, pq.d
    {
      State(maptbl, rmap, status, blks, pq.pri, ipc, freeLines, fullLines, pq.Elements(), wp, gcWp)
    }

    /** The heap is a heap with right positions, and the three counters are the sizes of the three lists. */
    ghost predicate Lists()
      reads this, pq, pq.d
    {
      && pq.Valid() && pq.d.Length == g.lines + 1 && |pq.pri| == g.lines && PosRule(pq.View(), pq.pos)
      && freeLineCnt == |freeLines| && fullLineCnt == |fullLines| && victimLineCnt + 1 == pq.size
    }

    /** init_lines, init_maptbl, init_rmap and the two calls of prepare_write_pointer. */
    constructor (g: Geo)
      requires g.Ok() && 2 <= g.lines
      ensures this.g == g && Lists() && fresh(pq) && fresh(pq.d) && View() == Initial(g) && Inv(g, View())
    {
      hide Inv, Geo.TtPgs, Geo.PgsPerLine, Geo.PgsPerBlk, AllPages;
      InitialInv(g);
      this.g := g;
      maptbl := seq(g.TtPgs(), _ => Unmapped);
      rmap := seq(g.TtPgs(), _ => g.TtPgs());
      status := map p | p in AllPages(g) :: PgFree;
      blks := map p | p in AllPages(g) && p.pg == 0 :: Counts(0, 0);
      ipc := seq(g.lines, _ => 0);
      pq := new PQueue.Heap(g.lines);
      freeLines := seq<nat>(g.lines - 2, i requires 0 <= i => i + 2);
      fullLines, freeLineCnt, fullLineCnt, victimLineCnt := {}, g.lines - 2, 0, 0;
      wp, gcWp, creditsToRefill := Wp(0, 0, 0, 0), Wp(1, 0, 0, 0), g.PgsPerLine();
    }

    /** pqueue_insert on the victim queue. */
    method PushVictim(l: nat)
      requires Lists() && l < g.lines && l !in pq.Elements()
      modifies pq, pq.d, this`victimLineCnt
      ensures Lists() && pq.Elements() == old(pq.Elements()) + {l} && pq.pri == old(pq.pri)
    {
      hide PosRule, PQueue.Ordered, PQueue.OnlyMembersMoved;
      ghost var h, pos := pq.View(), pq.pos;
      HeapHasRoom(h, pq.pri, pos, l);
      pq.Insert(l);
      InsertPosRule(h, pq.View(), l, pos, pq.pos);
      victimLineCnt := victimLineCnt + 1;
    }

    /** pqueue_pop on the victim queue, with the position reset that select_victim_line adds. */
    method PopVictim() returns (v: nat)
      requires Lists() && pq.size > 1
      modifies pq, pq.d, this`victimLineCnt
      ensures Lists() && pq.pri == old(pq.pri)
      ensures v in old(pq.Elements()) && pq.Elements() == old(pq.Elements()) - {v}
      ensures forall l :: l in old(pq.Elements()) ==> pq.pri[v] <= pq.pri[l]
    {
      hide PosRule, PQueue.Ordered, PQueue.OnlyMembersMoved;
      ghost var h, pos := pq.View(), pq.pos;
      var none;
      none, v := pq.Pop();
      RemovePosRule(h, pq.View(), v, pos, pq.pos);
      pq.pos := pq.pos[v := 0];
      victimLineCnt := victimLineCnt - 1;
    }

    /** Changing the vpc of a line outside the heap. */
    method SetVpc(l: nat, n: nat)
      requires Lists() && l < g.lines && l !in pq.Elements()
      modifies pq`pri
      ensures Lists() && pq.pri == old(pq.pri)[l := n]
    {
      ghost var h := pq.View();
      assert forall i :: 1 <= i < |h| ==> h[i] in PQueue.ElementSet(h);
      pq.pri := pq.pri[l := n];
    }

    /** mark_page_valid; the page's line is not in the heap. */
    method MarkPageValid(p: Ppa)
      requires Lists() && p in status && status[p].PgFree? && BlockOf(p) in blks && p.blk < g.lines
      requires p.blk !in pq.Elements()
      requires blks[BlockOf(p)].vpc < g.PgsPerBlk() && pq.pri[p.blk] < g.PgsPerLine()
      modifies this`status, this`blks, pq`pri
      ensures Lists() && View() == MarkValid(old(View()), p)
    {
      hide PosRule, PQueue.Ordered, PQueue.Placed, PQueue.Wf, PQueue.ElementSet;
      status := status[p := PgValid];
      var b := blks[BlockOf(p)];
      blks := blks[BlockOf(p) := b.(vpc := b.vpc + 1)];
      SetVpc(p.blk, pq.pri[p.blk] + 1);
    }

    /** get_next_free_line; the source returns NULL for an empty list, here `none`, and its callers rely on a line. */
    method GetNextFreeLine() returns (none: bool, l: nat)
      requires freeLineCnt == |freeLines|
      modifies this`freeLines, this`freeLineCnt
      ensures freeLineCnt == |freeLines| && (none <==> old(freeLines) == [])
      ensures none ==> freeLines == old(freeLines)
      ensures !none ==> l == old(freeLines)[0] && freeLines == old(freeLines)[1..]
    {
      if freeLines == [] { return true, 0; }
      none := false;
      l := freeLines[0];
      freeLines := freeLines[1..];
      freeLineCnt := freeLineCnt - 1;
    }

    /** The digits of advance_write_pointer; `last` tells that the line is used up. */
    method StepDigits(start: Wp) returns (w: Wp, last: bool)
      requires g.oneshot > 0
      ensures (w, last) == StepWp(g, start)
    {
      last := false;
      w := start.(pg := start.pg + 1);
      if w.pg % g.oneshot != 0 { return; }
      w := w.(pg := w.pg - g.oneshot, ch := w.ch + 1);
      if w.ch != g.nchs { return; }
      w := w.(ch := 0, lun := w.lun + 1);
      if w.lun != g.luns { return; }
      w := w.(lun := 0, pg := w.pg + g.oneshot);
      if w.pg != g.PgsPerBlk() { return; }
      w := w.(pg := 0);
      last := true;
    }

    /** advance_write_pointer. */
    method AdvanceWritePointer(io: IoType)
      requires Lists() && g.oneshot > 0 && View().WpOf(io).line < g.lines == |ipc|
      requires View().WpOf(io).line !in pq.Elements() + fullLines
      requires AtLastPage(g, View(), io) ==> freeLines != [] && Used(View().WpOf(io).line)
      modifies this`wp, this`gcWp, this`freeLines, this`freeLineCnt, this`fullLines, this`fullLineCnt,
        this`victimLineCnt, pq, pq.d
      ensures Lists() && View() == Advance(g, old(View()), io)
    {
      hide PosRule, PQueue.Ordered, PQueue.Placed, PQueue.Wf, PQueue.ElementSet, StepWp, Advance, Geo.PgsPerLine;
      ghost var f := View();
      var w, last := StepDigits(if io.UserIo? then wp else gcWp);
      if last { w := ChangeLine(if io.UserIo? then wp.line else gcWp.line); }
      if io.UserIo? { wp := w; } else { gcWp := w; }
      AdvanceIs(g, f, View(), io);
    }

    /** The used-up line `l` gives way to the next free line. */
    method ChangeLine(l: nat) returns (w: Wp)
      requires Lists() && l < g.lines == |ipc| && l !in pq.Elements() + fullLines && Used(l) && freeLines != []
      modifies this`freeLines, this`freeLineCnt, this`fullLines, this`fullLineCnt, this`victimLineCnt, pq, pq.d
      ensures Lists() && pq.pri == old(pq.pri)
      ensures w == Wp(old(freeLines)[0], 0, 0, 0) && freeLines == old(freeLines)[1..]
      ensures pq.pri[l] == g.PgsPerLine() ==> fullLines == old(fullLines) + {l} && pq.Elements() == old(pq.Elements())
      ensures pq.pri[l] != g.PgsPerLine() ==> fullLines == old(fullLines) && pq.Elements() == old(pq.Elements()) + {l}
    {
      hide PosRule, PQueue.Ordered, PQueue.Placed, PQueue.Wf, PQueue.ElementSet, Geo.PgsPerLine;
      RetireLine(l);
      var none, next := GetNextFreeLine();
      w := Wp(next, 0, 0, 0);
    }

    /** Line `l` has no FREE page. */
    ghost predicate Used(l: nat)
      requires l < |pq.pri| && l < |ipc|
      reads this`ipc, pq`pri
    {
      pq.pri[l] + ipc[l] == g.PgsPerLine()
    }

    /** The used-up line goes to the full list if all its pages are valid, else to the victim queue. */
    method RetireLine(l: nat)
      requires Lists() && l < g.lines == |ipc| && l !in pq.Elements() + fullLines && Used(l)
      modifies this`fullLines, this`fullLineCnt, this`victimLineCnt, pq, pq.d
      ensures Lists() && pq.pri == old(pq.pri)
      ensures pq.pri[l] == g.PgsPerLine() ==> fullLines == old(fullLines) + {l} && pq.Elements() == old(pq.Elements())
      ensures pq.pri[l] != g.PgsPerLine() ==> fullLines == old(fullLines) && pq.Elements() == old(pq.Elements()) + {l}
    {
      hide PosRule, PQueue.Ordered, PQueue.Placed, PQueue.Wf, PQueue.ElementSet, Geo.PgsPerLine;
      if pq.pri[l] == g.PgsPerLine() {
        assert ipc[l] == 0;
        fullLines := fullLines + {l};
        fullLineCnt := fullLineCnt + 1;
      } else {
        assert pq.pri[l] < g.PgsPerLine() && ipc[l] > 0;
        PushVictim(l);
      }
    }

    /** The four writes of gc_write_page: maptbl, rmap, page status, write pointer. */
    method ProgramPage(lpn: nat, q: Ppa)
      requires Lists() && q == NewPage(gcWp) && lpn < |maptbl| && PgIdx(g, q) < |rmap| && g.oneshot > 0
      requires q in status && status[q].PgFree? && BlockOf(q) in blks && q.blk < g.lines == |ipc|
      requires q.blk !in pq.Elements() + fullLines
      requires blks[BlockOf(q)].vpc < g.PgsPerBlk() && pq.pri[q.blk] < g.PgsPerLine()
      requires AtLastPage(g, View(), GcIo) ==> freeLines != [] && pq.pri[q.blk] + 1 + ipc[q.blk] == g.PgsPerLine()
      modifies this, pq, pq.d
      ensures Lists() && creditsToRefill == old(creditsToRefill)
      ensures var f := old(View());
        var m := MarkValid(f.(maptbl := f.maptbl[lpn := At(q)], rmap := f.rmap[PgIdx(g, q) := lpn]), q);
        (AtLastPage(g, m, GcIo) ==> m.free != []) && View() == Advance(g, m, GcIo)
    {
      hide PosRule, PQueue.Ordered, PQueue.Placed, PQueue.Wf, PQueue.ElementSet, StepWp, Geo.PgsPerLine, Geo.PgsPerBlk,
           PgIdx, Advance;
      maptbl := maptbl[lpn := At(q)];
      rmap := rmap[PgIdx(g, q) := lpn];
      MarkPageValid(q);
      AdvanceWritePointer(GcIo);
    }

    /** gc_write_page: copy the page to the next page of the GC write pointer. */
    method GcWritePage(p: Ppa, ghost v: nat, ghost done: set<Ppa>)
      requires Lists() && Consistent(g, View(), {v}, done) && Scanning(g, View(), v, done)
      requires ValidPpa(g, p) && p.blk == v && p !in done && status[p].PgValid?
      requires AtLastPage(g, View(), GcIo) ==> freeLines != []
      modifies this, pq, pq.d
      ensures Lists() && pq.size <= pq.d.Length && CanProgram(g, old(View()), old(rmap)[PgIdx(g, p)], GcIo)
      ensures View() == Program(g, old(View()), old(rmap)[PgIdx(g, p)], GcIo)
      ensures creditsToRefill == old(creditsToRefill)
    {
      hide PosRule, PQueue.Ordered, PQueue.Placed, PQueue.Wf, PQueue.ElementSet, StepWp, Geo.PgsPerLine, Geo.TtPgs,
           Geo.PgsPerBlk, PgIdx, Scanning, Advance, Consistent, CanProgram;
      GcWriteReady(g, View(), v, done, p);
      var lpn := rmap[PgIdx(g, p)];
      assert lpn < g.TtPgs();
      ProgramPage(lpn, NewPage(gcWp));
    }

    /** select_victim_line: the line with the fewest valid pages, unless it has too many and GC is not forced. */
    method SelectVictimLine(force: bool) returns (found: bool, v: nat)
      requires Lists() && Inv(g, View())
      modifies pq, pq.d, this`victimLineCnt
      ensures Lists() && pq.pri == old(pq.pri)
      ensures found ==> v in old(pq.Elements()) && (force || pq.pri[v] <= g.PgsPerLine() / 8)
      ensures found ==> forall l :: l in old(pq.Elements()) ==> pq.pri[v] <= pq.pri[l]
      ensures found ==> View() == TakeVictim(old(View()), v)
      ensures !found ==> View() == old(View())
      ensures !found ==> forall l :: l in old(pq.Elements()) ==> !force && pq.pri[l] > g.PgsPerLine() / 8
    {
      hide PosRule, PQueue.Ordered, PQueue.Placed, PQueue.Wf, PQueue.ElementSet, Inv, Geo.PgsPerLine;
      var none;
      none, v := pq.Peek();
      if none { return false, 0; }
      if !force && pq.pri[v] > g.PgsPerLine() / 8 { return false, 0; }
      v := PopVictim();
      found := true;
    }

    /** A collection of line `v` under way. */
    ghost predicate Collecting(f0: State, v: nat, done: set<Ppa>, erased: set<Ppa>, w: set<Ppa>)
      reads this, pq, pq.d
    {
      && Lists() && pq.size <= pq.d.Length && Progress(g, f0, View(), v, done, erased, w) && f0.free != []
      && |With(f0.status, LinePages(g, v), PgValid)| < g.PgsPerLine()
    }

    /** clean_one_flashpg: count the valid pages of a flash page and copy them if there are any. */
    method CleanOneFlashPg(row: nat, ch: nat, lun: nat, v: nat, ghost f0: State, ghost erased: set<Ppa>,
                           ghost w0: set<Ppa>)
      returns (ghost w: set<Ppa>)
      requires v < g.lines && row < g.flashpgs && ch < g.nchs && lun < g.luns && g.Ok()
      requires Collecting(f0, v, ScanSet(g, v, row, ch, lun, 0), erased, w0)
      modifies this, pq, pq.d
      ensures Collecting(f0, v, ScanSet(g, v, row, ch, lun + 1, 0), erased, w)
      ensures creditsToRefill == old(creditsToRefill)
    {
      hide Lists, Progress, ScanSet, LinePages, With, Geo.PgsPerLine, Geo.PgsPerBlk;
      w := w0;
      var cnt := CountValid(row, ch, lun, v, f0, erased, w);
      ScanCarry(g, v, row, ch, lun);
      if cnt == 0 {
        SkipFlashPg(g, f0, View(), v, row, ch, lun, g.flashpg, erased, w);
        return;
      }
      for i := 0 to g.flashpg
        invariant Collecting(f0, v, ScanSet(g, v, row, ch, lun, i), erased, w)
        invariant creditsToRefill == old(creditsToRefill)
      {
        w := CleanPage(row, ch, lun, i, v, f0, erased, w);
      }
    }

    /** The counting loop, with the assertion that a victim has no free page. */
    method CountValid(row: nat, ch: nat, lun: nat, v: nat, ghost f0: State, ghost erased: set<Ppa>, ghost w: set<Ppa>)
      returns (cnt: nat)
      requires v < g.lines && row < g.flashpgs && ch < g.nchs && lun < g.luns && g.Ok()
      requires Collecting(f0, v, ScanSet(g, v, row, ch, lun, 0), erased, w)
      ensures forall k :: 0 <= k < g.flashpg ==> ScanPage(g, v, row, ch, lun, k) in status
      ensures cnt == 0 <==> forall k :: 0 <= k < g.flashpg ==> !status[ScanPage(g, v, row, ch, lun, k)].PgValid?
    {
      hide Lists, ScanPage, LinePages, With, Geo.PgsPerLine, Geo.PgsPerBlk, Progress, ScanSet;
      UnscannedPages(g, f0, View(), v, row, ch, lun, erased, w);
      cnt := 0;
      for i := 0 to g.flashpg
        invariant cnt == 0 <==> forall k :: 0 <= k < i ==> !status[ScanPage(g, v, row, ch, lun, k)].PgValid?
      {
        assert !status[ScanPage(g, v, row, ch, lun, i)].PgFree?;
        if status[ScanPage(g, v, row, ch, lun, i)].PgValid? { cnt := cnt + 1; }
      }
    }

    /** The body of the copying loop. */
    method CleanPage(row: nat, ch: nat, lun: nat, i: nat, v: nat, ghost f0: State, ghost erased: set<Ppa>,
                     ghost w0: set<Ppa>)
      returns (ghost w: set<Ppa>)
      requires v < g.lines && row < g.flashpgs && ch < g.nchs && lun < g.luns && i < g.flashpg && g.Ok()
      requires Collecting(f0, v, ScanSet(g, v, row, ch, lun, i), erased, w0)
      modifies this, pq, pq.d
      ensures Collecting(f0, v, ScanSet(g, v, row, ch, lun, i + 1), erased, w)
      ensures creditsToRefill == old(creditsToRefill)
    {
      hide Lists, ScanSet, LinePages, With, Geo.PgsPerLine, Geo.PgsPerBlk, Progress, Consistent, Scanning, Program,
           CanProgram, AtLastPage, PgIdx;
      w := w0;
      ghost var done, f := ScanSet(g, v, row, ch, lun, i), View();
      ScanPageValid(g, v, row, ch, lun, i);
      ScanNext(g, v, row, ch, lun, i);
      var p := ScanPage(g, v, row, ch, lun, i);
      assert p in status by { ProgressPage(g, f0, f, v, done, erased, w, p); }
      if status[p].PgValid? {
        MoveReady(g, f0, f, v, done, erased, w, p);
        GcWritePage(p, v, done);
        w := w + {NewPage(f.gcWp)};
      } else {
        SkipProgress(g, f0, f, v, done, erased, w, p);
      }
    }

    /** mark_block_free. */
    method MarkBlockFree(b: Ppa)
      requires b in blks && b.pg == 0 && pq.size <= pq.d.Length
      requires forall i :: 0 <= i < g.PgsPerBlk() ==> b.(pg := i) in status
      modifies this`status, this`blks
      ensures View() == Erase(g, old(View()), b)
    {
      hide Geo.PgsPerBlk, PQueue.ElementSet;
      ghost var f := View();
      for i := 0 to g.PgsPerBlk()
        invariant View() == f.(status := status)
        invariant status == map p | p in old(status) :: if BlockOf(p) == b && p.pg < i then PgFree else old(status)[p]
      {
        status := status[b.(pg := i) := PgFree];
      }
      blks := blks[b := Counts(0, 0)];
      forall p: Ppa
        ensures p in BlockPages(g, b) <==> BlockOf(p) == b && p.pg < g.PgsPerBlk()
      {
        InBlockPages(g, b, p);
      }
      hide BlockPages;
      assert View() == f.(status := status, blks := blks) && status == Erase(g, f, b).status;
    }

    /** mark_line_free. */
    method MarkLineFree(v: nat)
      requires Lists() && v < g.lines == |ipc| && v !in pq.Elements()
      modifies this`ipc, this`freeLines, this`freeLineCnt, pq`pri
      ensures Lists() && View() == FreeLine(old(View()), v)
    {
      hide PosRule, PQueue.Ordered, PQueue.Placed, PQueue.Wf, PQueue.ElementSet;
      ipc := ipc[v := 0];
      SetVpc(v, 0);
      freeLines := freeLines + [v];
      freeLineCnt := freeLineCnt + 1;
    }

    /** One LUN in the loops of do_gc: clean its flash page and, on the last one, erase its block. */
    method CleanLun(row: nat, ch: nat, lun: nat, v: nat, ghost f0: State, ghost erased0: set<Ppa>, ghost w0: set<Ppa>)
      returns (ghost erased: set<Ppa>, ghost w: set<Ppa>)
      requires v < g.lines && row < g.flashpgs && ch < g.nchs && lun < g.luns && g.Ok()
      requires Collecting(f0, v, ScanSet(g, v, row, ch, lun, 0), erased0, w0)
      modifies this, pq, pq.d
      ensures Collecting(f0, v, ScanSet(g, v, row, ch, lun + 1, 0), erased, w)
      ensures creditsToRefill == old(creditsToRefill)
      ensures erased == if row == g.flashpgs - 1 then erased0 + {Ppa(ch, lun, v, 0)} else erased0
    {
      hide ScanSet, LinePages, With, Geo.PgsPerLine, Progress, PosRule, PQueue.Ordered, PQueue.Placed, PQueue.Wf,
           PQueue.ElementSet;
      erased := erased0;
      w := CleanOneFlashPg(row, ch, lun, v, f0, erased0, w0);
      if row == g.flashpgs - 1 {
        var b := Ppa(ch, lun, v, 0);
        BlockScanned(g, v, ch, lun);
        Positive(g);
        assert b in blks && forall i :: 0 <= i < g.PgsPerBlk() ==> b.(pg := i) in status by {
          ProgressShape(g, f0, View(), v, ScanSet(g, v, row, ch, lun + 1, 0), erased, w);
        }
        EraseProgress(g, f0, View(), v, ScanSet(g, v, row, ch, lun + 1, 0), erased, w, b);
        MarkBlockFree(b);
        erased := erased + {b};
      }
    }

    /** All blocks before (ch, lun) in the order of the loops are erased. */
    ghost predicate ErasedBefore(v: nat, erased: set<Ppa>, ch: nat, lun: nat) {
      forall c, l :: 0 <= c < g.nchs && 0 <= l < g.luns && (c < ch || (c == ch && l < lun)) ==>
        Ppa(c, l, v, 0) in erased
    }

    /** The three nested loops of do_gc. */
    method CopyBack(v: nat, ghost f0: State) returns (ghost erased: set<Ppa>, ghost w: set<Ppa>)
      requires v < g.lines && g.Ok() && Collecting(f0, v, {}, {}, {})
      modifies this, pq, pq.d
      ensures Collecting(f0, v, LinePages(g, v), erased, w) && AllErased(g, v, erased)
      ensures creditsToRefill == old(creditsToRefill)
    {
      hide Lists, ScanSet, LinePages, With, Geo.PgsPerLine, Progress;
      erased, w := {}, {};
      ScanCarry(g, v, 0, 0, 0);
      for row := 0 to g.flashpgs
        invariant Collecting(f0, v, ScanSet(g, v, row, 0, 0, 0), erased, w) && creditsToRefill == old(creditsToRefill)
        invariant row == g.flashpgs ==> ErasedBefore(v, erased, g.nchs, 0)
      {
        for ch := 0 to g.nchs
          invariant Collecting(f0, v, ScanSet(g, v, row, ch, 0, 0), erased, w)
          invariant creditsToRefill == old(creditsToRefill)
          invariant row == g.flashpgs - 1 ==> ErasedBefore(v, erased, ch, 0)
        {
          for lun := 0 to g.luns
            invariant Collecting(f0, v, ScanSet(g, v, row, ch, lun, 0), erased, w)
            invariant creditsToRefill == old(creditsToRefill)
            invariant row == g.flashpgs - 1 ==> ErasedBefore(v, erased, ch, lun)
          {
            erased, w := CleanLun(row, ch, lun, v, f0, erased, w);
          }
          ScanCarry(g, v, row, ch, 0);
        }
        ScanCarry(g, v, row, 0, 0);
      }
    }

    /** do_gc: -1 if there is no suitable victim, else the victim is collected. */
    method DoGc(force: bool) returns (r: int, ghost v: nat)
      requires Lists() && Inv(g, View()) && freeLines != []
      modifies this, pq, pq.d
      ensures Lists() && Inv(g, View()) && (r == -1 || r == 0)
      ensures r == -1 ==> View() == old(View()) && creditsToRefill == old(creditsToRefill)
      ensures r == -1 <==> forall l :: l in old(pq.Elements()) ==> !force && old(pq.pri)[l] > g.PgsPerLine() / 8
      ensures r == 0 ==> v in old(pq.Elements())
      ensures r == 0 ==> forall l :: l in old(pq.Elements()) ==> old(pq.pri)[v] <= old(pq.pri)[l]
      ensures r == 0 ==> v < g.lines && Collected(g, old(View()), View(), v) && creditsToRefill == old(ipc)[v]
    {
      hide ScanSet, LinePages, With, Geo.PgsPerLine, Progress, PosRule, PQueue.Ordered, PQueue.Placed, PQueue.Wf,
           PQueue.ElementSet, Kept, FreePages, Consistent, AllErased;
      ghost var f0 := View();
      var found, victim := SelectVictimLine(force);
      v := victim;
      if !found { return -1, v; }
      VictimReady(g, f0, v);
      creditsToRefill := ipc[victim];
      ghost var erased, w := CopyBack(victim, TakeVictim(f0, v));
      ScanIsCollection(g, f0, View(), v, erased, w);
      EndReady(g, TakeVictim(f0, v), View(), v, LinePages(g, v), erased, w);
      MarkLineFree(victim);
      r := 0;
    }

    /** The line half of mark_page_invalid: one valid page less, in the heap or outside it. */
    method LowerVpc(l: nat)
      requires Lists() && l < g.lines && pq.pri[l] > 0
      modifies pq, pq.d
      ensures Lists() && pq.pri == old(pq.pri)[l := old(pq.pri)[l] - 1] && pq.Elements() == old(pq.Elements())
    {
      hide PosRule, PQueue.Ordered, PQueue.Wf, PQueue.ElementSet, PQueue.OnlyMembersMoved, PQueue.Placed;
      ghost var h, pos := pq.View(), pq.pos;
      assert pq.pos[l] != 0 <==> l in pq.Elements() by { PosRuleAt(h, pos, l); }
      if pq.pos[l] != 0 {
        pq.ChangePriority(pq.pri[l] - 1, l);
        SamePosRule(h, pq.View(), pos, pq.pos);
      } else {
        SetVpc(l, pq.pri[l] - 1);
      }
    }

    /** The page and block half of mark_page_invalid, with its assertions. */
    method LowerBlock(p: Ppa)
      requires p in status && status[p].PgValid? && BlockOf(p) in blks
      requires blks[BlockOf(p)].ipc < g.PgsPerBlk() && 0 < blks[BlockOf(p)].vpc <= g.PgsPerBlk()
      modifies this`status, this`blks
      ensures var b := old(blks)[BlockOf(p)];
        status == old(status)[p := PgInvalid] && blks == old(blks)[BlockOf(p) := Counts(b.vpc - 1, b.ipc + 1)]
    {
      assert status[p].PgValid?;
      status := status[p := PgInvalid];
      var b := blks[BlockOf(p)];
      assert 0 <= b.ipc < g.PgsPerBlk();
      assert 0 < b.vpc <= g.PgsPerBlk();
      blks := blks[BlockOf(p) := Counts(b.vpc - 1, b.ipc + 1)];
    }

    /** The line half of mark_page_invalid, with its assertions. */
    method LowerLine(l: nat)
      requires Lists() && l < g.lines == |ipc| && ipc[l] < g.PgsPerLine() && 0 < pq.pri[l] <= g.PgsPerLine()
      requires pq.pri[l] == g.PgsPerLine() ==> ipc[l] == 0 && l in fullLines && l !in pq.Elements()
      modifies this`ipc, this`fullLines, this`fullLineCnt, this`victimLineCnt, pq, pq.d
      ensures Lists() && ipc == old(ipc)[l := old(ipc)[l] + 1] && pq.pri == old(pq.pri)[l := old(pq.pri)[l] - 1]
      ensures old(pq.pri)[l] == g.PgsPerLine() ==>
        fullLines == old(fullLines) - {l} && pq.Elements() == old(pq.Elements()) + {l}
      ensures old(pq.pri)[l] != g.PgsPerLine() ==> fullLines == old(fullLines) && pq.Elements() == old(pq.Elements())
    {
      hide PosRule, PQueue.Ordered, PQueue.Placed, PQueue.Wf, PQueue.ElementSet, Geo.PgsPerLine;
      assert 0 <= ipc[l] < g.PgsPerLine();
      var wasFull := pq.pri[l] == g.PgsPerLine();
      assert wasFull ==> ipc[l] == 0;
      ipc := ipc[l := ipc[l] + 1];
      assert 0 < pq.pri[l] <= g.PgsPerLine();
      LowerVpc(l);
      if wasFull {
        fullLines := fullLines - {l};
        fullLineCnt := fullLineCnt - 1;
        PushVictim(l);
      }
    }

    /** mark_page_invalid. */
    method MarkPageInvalid(p: Ppa, ghost stale: set<Ppa>)
      requires Lists() && Consistent(g, View(), {}, stale) && ValidPpa(g, p) && status[p].PgValid?
      modifies this, pq, pq.d
      ensures Lists() && BlockOf(p) in old(blks) && old(blks)[BlockOf(p)].vpc > 0 && old(pq.pri)[p.blk] > 0
      ensures View() == MarkInvalid(g, old(View()), p)
    {
      hide PosRule, PQueue.Ordered, PQueue.Placed, PQueue.Wf, PQueue.ElementSet, Geo.PgsPerLine, Geo.PgsPerBlk,
           Consistent;
      InvalidateLists(g, View(), stale, p);
      LowerBlock(p);
      LowerLine(p.blk);
    }
  }
}
