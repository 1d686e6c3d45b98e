/** Where __lpn_to_ppa puts the pages of a zone: the one-shot pages of a zone go round its dies, and
    the zones go round all dies of the device. */
module ZoneDies {
  import opened Arith

  /** `perZone` is dies_per_zone, `oneshot` the pages of a one-shot page. */
  datatype Layout = Layout(nchs: nat, luns: nat, perZone: nat, oneshot: nat)
  {
    predicate Ok() { 0 < nchs && 0 < luns && 0 < perZone && 0 < oneshot && 0 < nchs * luns }
    function Dies(): nat { nchs * luns }
  }

  datatype Place = Place(ch: nat, lun: nat, pg: nat)

  function FirstDie(l: Layout, zone: nat): nat
    requires l.Ok()
  {
    zone * l.perZone % l.Dies()
  }

  /** __lpn_to_ppa for page `off` of a zone. */
  function PlaceOf(l: Layout, zone: nat, off: nat): Place
    requires l.Ok()
  {
    var die := FirstDie(l, zone) + off / l.oneshot % l.perZone;
    DivNonnegative(die, l.nchs);
    Place(die % l.nchs, die / l.nchs, off % l.oneshot)
  }

  ghost predicate OnDevice(l: Layout, p: Place) { p.ch < l.nchs && p.lun < l.luns }

  lemma DieExists(l: Layout, die: nat)
    requires l.Ok()
    ensures 0 <= die / l.nchs < l.luns <==> die < l.Dies()
  {
    DivNonnegative(die, l.nchs);
    if die < l.Dies() {
      assert l.luns * l.nchs == l.Dies();
      DivBound(die, l.luns, l.nchs);
    } else {
      assert die == l.nchs * (die / l.nchs) + die % l.nchs;
      if die / l.nchs < l.luns { DigitBound(die / l.nchs, l.luns, die % l.nchs, l.nchs); }
    }
  }

  /** How many dies a zone of `pgs` pages uses: one for every one-shot page it begins, up to dies_per_zone. */
  function DiesUsed(l: Layout, pgs: nat): (n: nat)
    requires l.Ok() && 0 < pgs
  {
    DivNonnegative(pgs - 1, l.oneshot);
    var units := (pgs - 1) / l.oneshot + 1;
    if units <= l.perZone then units else l.perZone
  }

  /** A zone lies on the device exactly if the dies that it uses do not run over the last one. */
  lemma ZoneOnDevice(l: Layout, zone: nat, pgs: nat)
    requires l.Ok() && 0 < pgs
    ensures (forall off :: 0 <= off < pgs ==> OnDevice(l, PlaceOf(l, zone, off)))
       <==> FirstDie(l, zone) + DiesUsed(l, pgs) <= l.Dies()
  {
    var first, n := FirstDie(l, zone), DiesUsed(l, pgs);
    forall off | 0 <= off < pgs
      ensures OnDevice(l, PlaceOf(l, zone, off)) <==> first + off / l.oneshot % l.perZone < l.Dies()
      ensures off / l.oneshot % l.perZone < n
    {
      DieExists(l, first + off / l.oneshot % l.perZone);
      UnitUsed(l, pgs, off);
    }
    var last := (n - 1) * l.oneshot;
    LastUnit(l, pgs);
    assert last / l.oneshot % l.perZone == n - 1;
    if forall off :: 0 <= off < pgs ==> OnDevice(l, PlaceOf(l, zone, off)) {
      assert OnDevice(l, PlaceOf(l, zone, last));
    }
  }

  lemma UnitUsed(l: Layout, pgs: nat, off: nat)
    requires l.Ok() && off < pgs
    ensures 0 <= off / l.oneshot % l.perZone < DiesUsed(l, pgs)
  {
    var u, v := off / l.oneshot, (pgs - 1) / l.oneshot;
    DivNonnegative(off, l.oneshot);
    DivMod(off, l.oneshot);
    DivMod(pgs - 1, l.oneshot);
    if u > v { MulMono(v + 1, u, l.oneshot); }
    if u < l.perZone { DivModUnique(u, l.perZone, 0, u); }
  }

  /** The first page on the last die used. */
  lemma LastUnit(l: Layout, pgs: nat)
    requires l.Ok() && 0 < pgs
    ensures var n := DiesUsed(l, pgs);
      0 < n && 0 <= (n - 1) * l.oneshot < pgs && (n - 1) * l.oneshot / l.oneshot % l.perZone == n - 1
  {
    var n := DiesUsed(l, pgs);
    DivNonnegative(pgs - 1, l.oneshot);
    Digit(n - 1, 0, l.oneshot);
    DivModUnique(n - 1, l.perZone, 0, n - 1);
    DivMod(pgs - 1, l.oneshot);
    MulMono(n - 1, (pgs - 1) / l.oneshot, l.oneshot);
  }

  /** A device of 2 channels with 2 LUNs and zones of 3 dies: zone 1 has a page on a LUN that does not exist. */
  lemma ZoneOffDevice()
    ensures var l := Layout(2, 2, 3, 1); PlaceOf(l, 1, 1) == Place(0, 2, 0) && !OnDevice(l, PlaceOf(l, 1, 1))
  {
  }

  /** A multiple of d, modulo a multiple t of d, is at least d below t. */
  lemma LastMultiple(t: nat, d: nat, k: nat)
    requires 0 < t && 0 < d && t % d == 0
    ensures k * d % t + d <= t
  {
    var m, q, r := t / d, k * d / t, k * d % t;
    DivNonnegative(k * d, t);
    DivMod(t, d);
    DivMod(k * d, t);
    assert r == (k - q * m) * d by {
      assert q * t == (q * m) * d;
    }
    if k - q * m >= m { MulMono(m, k - q * m, d); }
    MulMono(k - q * m + 1, m, d);
  }

  /** If the dies of the device are a multiple of the dies of a zone, every zone lies on it. */
  lemma DividingLayout(l: Layout, zone: nat)
    requires l.Ok() && l.Dies() % l.perZone == 0
    ensures FirstDie(l, zone) + l.perZone <= l.Dies()
    ensures forall off: nat :: OnDevice(l, PlaceOf(l, zone, off))
  {
    LastMultiple(l.Dies(), l.perZone, zone);
    hide Layout.Dies;
    forall off: nat ensures OnDevice(l, PlaceOf(l, zone, off)) {
      DieExists(l, FirstDie(l, zone) + off / l.oneshot % l.perZone);
    }
  }

  /** Channel and LUN are the digits of the die number. */
  lemma DieOf(l: Layout, zone: nat, off: nat)
    requires l.Ok()
    ensures var p := PlaceOf(l, zone, off);
      p.lun * l.nchs + p.ch == zone * l.perZone % l.Dies() + off / l.oneshot % l.perZone && p.ch < l.nchs
  {
    DivMod(FirstDie(l, zone) + off / l.oneshot % l.perZone, l.nchs);
  }

  /** If the dies of the device are a multiple of the dies of a zone, the zones take their turns on whole groups of
      dies. */
  lemma ZoneGroup(l: Layout, zone: nat)
    requires l.Ok() && l.Dies() % l.perZone == 0
    ensures var m := l.Dies() / l.perZone; 0 < m && FirstDie(l, zone) == zone % m * l.perZone
  {
    var t, d := l.Dies(), l.perZone;
    var m := t / d;
    hide Layout.Dies;
    DivNonnegative(t, d);
    DivMod(t, d);
    DivMod(zone, m);
    DivNonnegative(zone, m);
    var q, r := zone / m, zone % m;
    assert zone * d == t * q + r * d by { assert zone * d == (q * m) * d + r * d && (q * m) * d == q * (m * d); }
    MulMono(r + 1, m, d);
    assert (r + 1) * d == r * d + d;
    DivModUnique(zone * d, t, q, r * d);
  }

  /** So two zones fewer than a whole turn apart have no die in common, and zones whole turns apart begin on the same
      one. */
  lemma ZonesOnDifferentDies(l: Layout, zone: nat, other: nat, a: nat, b: nat)
    requires l.Ok() && l.Dies() % l.perZone == 0
    ensures var m := l.Dies() / l.perZone; var p, q := PlaceOf(l, zone, a), PlaceOf(l, other, b);
      && 0 < m
      && (zone < other < zone + m ==> p.ch != q.ch || p.lun != q.lun)
      && (FirstDie(l, zone) == FirstDie(l, other) <==> zone % m == other % m)
  {
    ZoneGroup(l, zone);
    ZoneGroup(l, other);
    DieOf(l, zone, a);
    DieOf(l, other, b);
    hide Layout.Dies, PlaceOf;
    var d, m := l.perZone, l.Dies() / l.perZone;
    if zone < other < zone + m { SlotsDiffer(zone, other, m); }
    GroupsApart(zone % m, other % m, 0, 0, d);
    GroupsApart(zone % m, other % m, a / l.oneshot % d, b / l.oneshot % d, d);
  }

  /** Places in different groups of `d` are different. */
  lemma GroupsApart(x: int, y: int, u: int, v: int, d: nat)
    requires 0 <= x && 0 <= y && 0 <= u < d && 0 <= v < d
    ensures x * d + u == y * d + v <==> x == y && u == v
  {
    Digit(x, u, d);
    Digit(y, v, d);
  }

  /** One-shot pages of a zone that follow each other by fewer than its dies are on different dies. */
  lemma NeighboursOnDifferentDies(l: Layout, zone: nat, a: nat, b: nat)
    requires l.Ok() && a / l.oneshot < b / l.oneshot < a / l.oneshot + l.perZone
    ensures var p, q := PlaceOf(l, zone, a), PlaceOf(l, zone, b); p.ch != q.ch || p.lun != q.lun
  {
    SlotsDiffer(a / l.oneshot, b / l.oneshot, l.perZone);
    DivMod(FirstDie(l, zone) + a / l.oneshot % l.perZone, l.nchs);
    DivMod(FirstDie(l, zone) + b / l.oneshot % l.perZone, l.nchs);
  }

  /** All pages of a one-shot page are on one die, in order. */
  lemma OneShotOnOneDie(l: Layout, zone: nat, unit: nat, i: nat)
    requires l.Ok() && i < l.oneshot
    ensures PlaceOf(l, zone, unit * l.oneshot + i) == PlaceOf(l, zone, unit * l.oneshot).(pg := i)
  {
    Digit(unit, i, l.oneshot);
    Digit(unit, 0, l.oneshot);
  }
}
