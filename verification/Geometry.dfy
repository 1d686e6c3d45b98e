/** Flash geometry of ssd.c and the page addresses and write order of conv_ftl.c.

    A line is the set of the blocks with one block number on all LUNs.  Planes are left out:
    the source assumes one plane per LUN. */
module Geometry {
  import opened Arith

  /** `rows` one-shot pages of `oneshot` pages, or `flashpgs` flash pages of `flashpg` pages, make a block. */
  datatype Geo = Geo(nchs: nat, luns: nat, lines: nat, rows: nat, oneshot: nat, flashpgs: nat, flashpg: nat)
  {
    predicate Ok() {
      && 0 < nchs && 0 < luns && 0 < lines && 0 < rows && 0 < oneshot && 0 < flashpgs && 0 < flashpg
      && flashpgs * flashpg == rows * oneshot
    }

    function PgsPerBlk(): nat { rows * oneshot }
    function PgsPerLun(): nat { PgsPerBlk() * lines }
    function PgsPerCh(): nat { PgsPerLun() * luns }
    function TtPgs(): nat { PgsPerCh() * nchs }
    function PgsPerLine(): nat { luns * nchs * PgsPerBlk() }
  }

  datatype Ppa = Ppa(ch: nat, lun: nat, blk: nat, pg: nat)

  predicate ValidPpa(g: Geo, p: Ppa) {
    p.ch < g.nchs && p.lun < g.luns && p.blk < g.lines && p.pg < g.PgsPerBlk()
  }

  // ---------- the page number ----------

  /** ppa2pgidx. */
  function PgIdx(g: Geo, p: Ppa): nat {
    p.ch * g.PgsPerCh() + p.lun * g.PgsPerLun() + p.blk * g.PgsPerBlk() + p.pg
  }

  function FromPgIdx(g: Geo, x: nat): Ppa
    requires g.PgsPerCh() > 0 && g.PgsPerLun() > 0 && g.PgsPerBlk() > 0
  {
    var inCh: nat := x % g.PgsPerCh();
    var inLun: nat := inCh % g.PgsPerLun();
    DivNonnegative(x, g.PgsPerCh());
    DivNonnegative(inCh, g.PgsPerLun());
    DivNonnegative(inLun, g.PgsPerBlk());
    Ppa(x / g.PgsPerCh(), inCh / g.PgsPerLun(), inLun / g.PgsPerBlk(), inLun % g.PgsPerBlk())
  }

  lemma Positive(g: Geo)
    requires g.Ok()
    ensures g.PgsPerBlk() > 0 && g.PgsPerLun() > 0 && g.PgsPerCh() > 0 && g.TtPgs() > 0 && g.PgsPerLine() > 0
  {
    MulMono(1, g.rows, g.oneshot);
    MulMono(1, g.PgsPerBlk(), g.lines);
    MulMono(1, g.PgsPerLun(), g.luns);
    MulMono(1, g.PgsPerCh(), g.nchs);
    MulMono(1, g.luns, g.nchs);
    MulMono(1, g.luns * g.nchs, g.PgsPerBlk());
  }

  /** The page number of a valid address is in range and gives the address back. */
  lemma PgIdxRoundTrip(g: Geo, p: Ppa)
    requires g.Ok() && ValidPpa(g, p)
    ensures PgIdx(g, p) < g.TtPgs()
    ensures g.PgsPerCh() > 0 && g.PgsPerLun() > 0 && g.PgsPerBlk() > 0 && FromPgIdx(g, PgIdx(g, p)) == p
  {
    Positive(g);
    var b, l, c := g.PgsPerBlk(), g.PgsPerLun(), g.PgsPerCh();
    var inLun := p.blk * b + p.pg;
    DigitBound(p.blk, g.lines, p.pg, b);
    assert g.lines * b == l;
    var inCh := p.lun * l + inLun;
    DigitBound(p.lun, g.luns, inLun, l);
    assert g.luns * l == c;
    DigitBound(p.ch, g.nchs, inCh, c);
    assert PgIdx(g, p) == p.ch * c + inCh;
    Digit(p.ch, inCh, c);
    Digit(p.lun, inLun, l);
    Digit(p.blk, p.pg, b);
  }

  /** Every page number below the total is the number of a valid address: with the lemma above, a bijection. */
  lemma PgIdxOnto(g: Geo, x: nat)
    requires g.Ok() && x < g.TtPgs()
    ensures g.PgsPerCh() > 0 && g.PgsPerLun() > 0 && g.PgsPerBlk() > 0
    ensures ValidPpa(g, FromPgIdx(g, x)) && PgIdx(g, FromPgIdx(g, x)) == x
  {
    Positive(g);
    var b, l, c := g.PgsPerBlk(), g.PgsPerLun(), g.PgsPerCh();
    assert g.TtPgs() == g.nchs * c && c == g.luns * l && l == g.lines * b;
    hide Geo.TtPgs, Geo.PgsPerCh, Geo.PgsPerLun, Geo.PgsPerBlk;
    DivBound(x, g.nchs, c);
    DivBound(x % c, g.luns, l);
    DivBound(x % c % l, g.lines, b);
  }

  lemma PgIdxInjective(g: Geo, p: Ppa, q: Ppa)
    requires g.Ok() && ValidPpa(g, p) && ValidPpa(g, q) && PgIdx(g, p) == PgIdx(g, q)
    ensures p == q
  {
    PgIdxRoundTrip(g, p);
    PgIdxRoundTrip(g, q);
  }

  // ---------- the write order of a line ----------

  /** The place of a page in the order in which the write pointer visits its line: a one-shot
      page on every channel, then on every LUN, then the next row. */
  function WriteIndex(g: Geo, p: Ppa): nat
    requires g.oneshot > 0
  {
    Digits(g, p.pg / g.oneshot, p.lun, p.ch, p.pg % g.oneshot)
  }

  function Digits(g: Geo, row: nat, lun: nat, ch: nat, col: nat): nat {
    ((row * g.luns + lun) * g.nchs + ch) * g.oneshot + col
  }

  /** A full digit is one of the next place. */
  lemma Carry(g: Geo, row: nat, lun: nat, ch: nat)
    ensures Digits(g, row, lun, ch, g.oneshot) == Digits(g, row, lun, ch + 1, 0)
    ensures Digits(g, row, lun, g.nchs, 0) == Digits(g, row, lun + 1, 0, 0)
    ensures Digits(g, row, g.luns, 0, 0) == Digits(g, row + 1, 0, 0, 0)
  {
    UnitStep((row * g.luns + lun) * g.nchs + ch, g.oneshot);
    UnitStep(row * g.luns + lun, g.nchs);
    UnitStep(row, g.luns);
  }

  lemma UnitStep(a: nat, n: nat)
    ensures (a + 1) * n == a * n + n && n * (a + 1) == n * a + n && n * a == a * n
  {
  }

  function PageAt(g: Geo, line: nat, k: nat): Ppa
    requires g.oneshot > 0 && g.nchs > 0 && g.luns > 0
  {
    var unit := k / g.oneshot;
    var stripe: nat := unit / g.nchs;
    var row: nat := stripe / g.luns;
    Ppa(unit % g.nchs, stripe % g.luns, line, row * g.oneshot + k % g.oneshot)
  }

  lemma LineProduct(g: Geo)
    ensures g.PgsPerLine() == ((g.rows * g.luns) * g.nchs) * g.oneshot
  {
    assert (g.luns * g.nchs) * (g.rows * g.oneshot) == ((g.rows * g.luns) * g.nchs) * g.oneshot by {
      assert (g.luns * g.nchs) * (g.rows * g.oneshot) == ((g.luns * g.nchs) * g.rows) * g.oneshot;
      assert (g.luns * g.nchs) * g.rows == (g.rows * g.luns) * g.nchs;
    }
  }

  lemma WriteIndexRoundTrip(g: Geo, p: Ppa)
    requires g.Ok() && ValidPpa(g, p)
    ensures WriteIndex(g, p) < g.PgsPerLine()
    ensures PageAt(g, p.blk, WriteIndex(g, p)) == p
  {
    var row, col := p.pg / g.oneshot, p.pg % g.oneshot;
    DivBound(p.pg, g.rows, g.oneshot);
    LineProduct(g);
    hide Geo.PgsPerLine, Geo.PgsPerBlk;
    var a := row * g.luns + p.lun;
    var b := a * g.nchs + p.ch;
    DigitBound(row, g.rows, p.lun, g.luns);
    DigitBound(a, g.rows * g.luns, p.ch, g.nchs);
    DigitBound(b, g.rows * g.luns * g.nchs, col, g.oneshot);
    Digit(b, col, g.oneshot);
    Digit(a, p.ch, g.nchs);
    Digit(row, p.lun, g.luns);
  }

  lemma PageAtRoundTrip(g: Geo, line: nat, k: nat)
    requires g.Ok() && line < g.lines && k < g.PgsPerLine()
    ensures ValidPpa(g, PageAt(g, line, k)) && PageAt(g, line, k).blk == line
    ensures WriteIndex(g, PageAt(g, line, k)) == k
  {
    LineProduct(g);
    var unit := k / g.oneshot;
    DivBound(k, g.rows * g.luns * g.nchs, g.oneshot);
    DivBound(unit, g.rows * g.luns, g.nchs);
    DivBound(unit / g.nchs, g.rows, g.luns);
    var row := unit / g.nchs / g.luns;
    Digit(row, k % g.oneshot, g.oneshot);
    DigitBound(row, g.rows, k % g.oneshot, g.oneshot);
  }

  // ---------- the write pointer ----------

  /** The write pointer; the source's `blk` is always the id of the current line. */
  datatype Wp = Wp(line: nat, ch: nat, lun: nat, pg: nat)

  /** get_new_page. */
  function NewPage(wp: Wp): Ppa { Ppa(wp.ch, wp.lun, wp.line, wp.pg) }

  /** The part of advance_write_pointer that moves inside a line; at the end of the line all digits are 0 again. */
  function StepWp(g: Geo, wp: Wp): (r: (Wp, bool))
    requires g.oneshot > 0
  {
    var pg := wp.pg + 1;
    if pg % g.oneshot != 0 then (wp.(pg := pg), false)
    else if wp.ch + 1 != g.nchs then (wp.(pg := wp.pg + 1 - g.oneshot, ch := wp.ch + 1), false)
    else if wp.lun + 1 != g.luns then (wp.(pg := wp.pg + 1 - g.oneshot, ch := 0, lun := wp.lun + 1), false)
    else if pg != g.PgsPerBlk() then (wp.(pg := pg, ch := 0, lun := 0), false)
    else (wp.(pg := 0, ch := 0, lun := 0), true)
  }

  ghost predicate ValidWp(g: Geo, wp: Wp) { ValidPpa(g, NewPage(wp)) }

  /** `pg` and its successor in terms of row and column. */
  lemma NextColumn(pg: nat, n: nat)
    requires 0 < n
    ensures (pg + 1) % n != 0 ==> (pg + 1) / n == pg / n && (pg + 1) % n == pg % n + 1
    ensures (pg + 1) % n == 0 ==> pg % n == n - 1 && (pg + 1) / n == pg / n + 1 && pg + 1 == (pg / n + 1) * n
    ensures (pg + 1) % n == 0 ==> n <= pg + 1 && (pg + 1 - n) / n == pg / n && (pg + 1 - n) % n == 0
  {
    var q, r := pg / n, pg % n;
    assert pg == n * q + r;
    UnitStep(q, n);
    if r + 1 < n {
      DivModUnique(pg + 1, n, q, r + 1);
    } else {
      DivModUnique(pg + 1, n, q + 1, 0);
      DivModUnique(pg + 1 - n, n, q, 0);
    }
  }

  /** One step of the write pointer is one step in the write order, and it wraps exactly after the last page. */
  lemma StepWpIsSuccessor(g: Geo, wp: Wp)
    requires g.Ok() && ValidWp(g, wp)
    ensures var (w, wrapped) := StepWp(g, wp);
      && ValidWp(g, w) && w.line == wp.line
      && (!wrapped ==> WriteIndex(g, NewPage(w)) == WriteIndex(g, NewPage(wp)) + 1)
      && (wrapped ==> WriteIndex(g, NewPage(wp)) == g.PgsPerLine() - 1 && w == Wp(wp.line, 0, 0, 0))
  {
    var n := g.oneshot;
    var row := wp.pg / n;
    NextColumn(wp.pg, n);
    DivBound(wp.pg, g.rows, n);
    Digit(g.rows, 0, n);
    Digit(0, 0, n);
    Carry(g, row, wp.lun, wp.ch);
    assert Digits(g, row, wp.lun, wp.ch, n) == Digits(g, row, wp.lun, wp.ch, n - 1) + 1;
    assert Digits(g, g.rows, 0, 0, 0) == g.PgsPerLine() by { LineProduct(g); }
    Positive(g);
    hide Digits, Geo.PgsPerLine;
    if (wp.pg + 1) % n == 0 && wp.pg + 1 != g.PgsPerBlk() {
      NextRow(wp.pg, g.rows, n);
    }
  }

  lemma NextRow(pg: nat, rows: nat, n: nat)
    requires 0 < n && pg < rows * n && pg + 1 != rows * n
    ensures pg + 1 < rows * n
  {
  }

  // ---------- the pages of a line and of a block ----------

  ghost function LinePages(g: Geo, line: nat): set<Ppa>
    requires g.Ok()
  {
    FirstPages(g, line, g.PgsPerLine())
  }

  /** The first `n` pages in write order. */
  ghost function FirstPages(g: Geo, line: nat, n: nat): set<Ppa>
    requires g.Ok()
  {
    set k | 0 <= k < n :: PageAt(g, line, k)
  }

  lemma InLinePages(g: Geo, line: nat, p: Ppa)
    requires g.Ok() && line < g.lines
    ensures p in LinePages(g, line) <==> ValidPpa(g, p) && p.blk == line
  {
    if ValidPpa(g, p) && p.blk == line {
      WriteIndexRoundTrip(g, p);
    }
    if p in LinePages(g, line) {
      var k :| 0 <= k < g.PgsPerLine() && PageAt(g, line, k) == p;
      PageAtRoundTrip(g, line, k);
    }
  }

  lemma {:induction false} FirstPagesCount(g: Geo, line: nat, n: nat)
    requires g.Ok() && line < g.lines && n <= g.PgsPerLine()
    ensures |FirstPages(g, line, n)| == n
  {
    if n > 0 {
      FirstPagesCount(g, line, n - 1);
      var p := PageAt(g, line, n - 1);
      assert FirstPages(g, line, n) == FirstPages(g, line, n - 1) + {p};
      if p in FirstPages(g, line, n - 1) {
        var k :| 0 <= k < n - 1 && PageAt(g, line, k) == p;
        PageAtRoundTrip(g, line, k);
        PageAtRoundTrip(g, line, n - 1);
      }
    }
  }

  /** From a fresh line: after n steps the write pointer has handed out n different pages, the
      first n of the write order; after PgsPerLine steps all pages of the line, each once. */
  ghost function HandedOut(g: Geo, wp: Wp, n: nat): seq<Ppa>
    requires g.Ok()
    decreases n
  {
    if n == 0 then [] else [NewPage(wp)] + HandedOut(g, StepWp(g, wp).0, n - 1)
  }

  lemma {:induction false} HandedOutInOrder(g: Geo, wp: Wp, n: nat)
    requires g.Ok() && ValidWp(g, wp) && WriteIndex(g, NewPage(wp)) + n <= g.PgsPerLine()
    ensures |HandedOut(g, wp, n)| == n
    ensures forall i :: 0 <= i < n ==> HandedOut(g, wp, n)[i] == PageAt(g, wp.line, WriteIndex(g, NewPage(wp)) + i)
    decreases n
  {
    if n > 0 {
      WriteIndexRoundTrip(g, NewPage(wp));
      StepWpIsSuccessor(g, wp);
      if n > 1 { HandedOutInOrder(g, StepWp(g, wp).0, n - 1); }
    }
  }

  lemma FreshLineVisitedOnce(g: Geo, line: nat)
    requires g.Ok() && line < g.lines
    ensures var s := HandedOut(g, Wp(line, 0, 0, 0), g.PgsPerLine());
      && |s| == g.PgsPerLine()
      && (forall i, j :: 0 <= i < j < |s| ==> s[i] != s[j])
      && (forall p :: p in s <==> ValidPpa(g, p) && p.blk == line)
  {
    Positive(g);
    Digit(0, 0, g.oneshot);
    var wp := Wp(line, 0, 0, 0);
    assert WriteIndex(g, NewPage(wp)) == 0;
    HandedOutInOrder(g, wp, g.PgsPerLine());
    var s := HandedOut(g, wp, g.PgsPerLine());
    forall i, j | 0 <= i < j < |s| ensures s[i] != s[j] {
      PageAtRoundTrip(g, line, i);
      PageAtRoundTrip(g, line, j);
    }
    forall p ensures p in s <==> ValidPpa(g, p) && p.blk == line {
      InLinePages(g, line, p);
      if p in LinePages(g, line) {
        var k :| 0 <= k < g.PgsPerLine() && PageAt(g, line, k) == p;
        assert s[k] == p;
      }
    }
  }

  /** From a fresh line, page k of those handed out: its column goes first, then the channel, the LUN, and the row. */
  lemma FreshLineOrder(g: Geo, line: nat, k: nat)
    requires g.Ok() && line < g.lines && k < g.PgsPerLine()
    ensures var s, n := HandedOut(g, Wp(line, 0, 0, 0), g.PgsPerLine()), g.oneshot;
      && |s| == g.PgsPerLine() && 0 < n * g.nchs && 0 < n * g.nchs * g.luns
      && s[k].blk == line && s[k].ch == k / n % g.nchs && s[k].lun == k / (n * g.nchs) % g.luns
      && s[k].pg == k / (n * g.nchs * g.luns) * n + k % n
  {
    Digit(0, 0, g.oneshot);
    Positive(g);
    assert WriteIndex(g, NewPage(Wp(line, 0, 0, 0))) == 0;
    HandedOutInOrder(g, Wp(line, 0, 0, 0), g.PgsPerLine());
    hide HandedOut, Geo.PgsPerLine;
    DivTwice(k, g.oneshot, g.nchs);
    DivTwice(k, g.oneshot * g.nchs, g.luns);
  }

  lemma DivTwice(k: nat, a: nat, b: nat)
    requires 0 < a && 0 < b
    ensures 0 < a * b && 0 <= k / a && k / a / b == k / (a * b)
  {
    DivNonnegative(k, a);
    DivNonnegative(k / a, b);
    DivMod(k, a);
    DivMod(k / a, b);
    MulMono(1, b, a);
    var q, r, c := k / a / b, k / a % b, k % a;
    DigitBound(r, b, c, a);
    assert k == (q * b + r) * a + c;
    Regroup(q, r, c, a, b);
    DivModUnique(k, a * b, q, r * a + c);
  }

  lemma Regroup(q: nat, r: nat, c: nat, a: nat, b: nat)
    ensures (q * b + r) * a + c == (a * b) * q + (r * a + c)
  {
    assert (q * b) * a == (a * b) * q;
  }
}
