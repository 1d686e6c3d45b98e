/** The hotness table of the hybrid mode of conv_ftl.c: an open-addressing hash table that is never
    emptied, and the bookkeeping of the migration scan that runs over it. */
module Hotness {
  import opened Arith

  datatype Tier = Slc | Qlc
  datatype Slot = Free | Used(lpn: nat, accessCount: nat, recentAccess: nat, lastAccess: nat, tier: Tier,
                              migrating: bool)
  datatype Option = None | Some(idx: nat)

  /** The i-th slot that the probing for hash `h` looks at. */
  function ProbeIdx(h: nat, i: nat, n: nat): nat requires 0 < n { (h + i) % n }

  /** How many probes from hash `h` reach slot `idx`. */
  function Dist(h: nat, idx: nat, n: nat): nat requires h < n && idx < n { if idx >= h then idx - h else idx - h + n }

  lemma ProbeDist(h: nat, idx: nat, n: nat)
    requires h < n && idx < n
    ensures Dist(h, idx, n) < n && ProbeIdx(h, Dist(h, idx, n), n) == idx
  {
    ModWrap(h + Dist(h, idx, n), n);
  }

  lemma DistProbe(h: nat, i: nat, n: nat)
    requires h < n && i < n
    ensures ProbeIdx(h, i, n) < n && Dist(h, ProbeIdx(h, i, n), n) == i
  {
    ModWrap(h + i, n);
  }

  function Hash(lpn: nat, n: nat): (h: nat)
    requires 0 < n
    ensures h < n
  {
    lpn % n
  }

  /** Slot i of the probing for `lpn` is taken by another logical page. */
  ghost predicate Other(t: seq<Slot>, lpn: nat, i: nat)
    requires i < |t|
  {
    DistProbe(Hash(lpn, |t|), i, |t|);
    var s := t[ProbeIdx(Hash(lpn, |t|), i, |t|)];
    s.Used? && s.lpn != lpn
  }

  ghost function DistOf(t: seq<Slot>, idx: nat): nat
    requires idx < |t| && t[idx].Used?
  {
    Dist(Hash(t[idx].lpn, |t|), idx, |t|)
  }

  /** Every entry sits where probing finds it: all slots probed before it belong to others. */
  ghost predicate Inv(t: seq<Slot>) {
    && 0 < |t|
    && forall idx :: 0 <= idx < |t| && t[idx].Used? ==> Reachable(t, idx)
  }

  ghost predicate Reachable(t: seq<Slot>, idx: nat)
    requires idx < |t| && t[idx].Used?
  {
    forall i :: 0 <= i < DistOf(t, idx) && i < |t| ==> Other(t, t[idx].lpn, i)
  }

  /** The probing of get_hotness_entry from probe `i` on: the first slot that is free or holds `lpn`. */
  function Probe(t: seq<Slot>, lpn: nat, i: nat): (r: Option)
    requires 0 < |t| && i <= |t|
    decreases |t| - i
  {
    if i == |t| then None else
    var idx := ProbeIdx(Hash(lpn, |t|), i, |t|);
    if t[idx].Free? || t[idx].lpn == lpn then Some(idx) else Probe(t, lpn, i + 1)
  }

  lemma {:induction false} ProbeMeaning(t: seq<Slot>, lpn: nat, i: nat)
    requires 0 < |t| && i <= |t| && forall j :: 0 <= j < i ==> Other(t, lpn, j)
    ensures var r := Probe(t, lpn, i);
      && (r.None? ==> forall j :: 0 <= j < |t| ==> Other(t, lpn, j))
      && (r.Some? ==> r.idx < |t| && (t[r.idx].Free? || t[r.idx].lpn == lpn))
      && (r.Some? ==> forall j :: 0 <= j < Dist(Hash(lpn, |t|), r.idx, |t|) && j < |t| ==> Other(t, lpn, j))
    decreases |t| - i
  {
    if i < |t| {
      DistProbe(Hash(lpn, |t|), i, |t|);
      var idx := ProbeIdx(Hash(lpn, |t|), i, |t|);
      if !(t[idx].Free? || t[idx].lpn == lpn) {
        assert Other(t, lpn, i);
        ProbeMeaning(t, lpn, i + 1);
      }
    }
  }

  /** No result means that every slot holds another logical page. */
  lemma FullTable(t: seq<Slot>, lpn: nat, idx: nat)
    requires 0 < |t| && Probe(t, lpn, 0).None? && idx < |t|
    ensures t[idx].Used? && t[idx].lpn != lpn
  {
    ProbeMeaning(t, lpn, 0);
    ProbeDist(Hash(lpn, |t|), idx, |t|);
    assert Other(t, lpn, Dist(Hash(lpn, |t|), idx, |t|));
  }

  /** The table is a finite map: probing for the logical page of a slot finds that slot, so no other slot holds it. */
  lemma LookupFindsEntry(t: seq<Slot>, idx: nat)
    requires Inv(t) && idx < |t| && t[idx].Used?
    ensures Probe(t, t[idx].lpn, 0) == Some(idx)
  {
    var lpn, n := t[idx].lpn, |t|;
    ProbeMeaning(t, lpn, 0);
    ProbeDist(Hash(lpn, n), idx, n);
    assert Reachable(t, idx);
    var d := Dist(Hash(lpn, n), idx, n);
    var r := Probe(t, lpn, 0);
    assert !Other(t, lpn, d);
    assert r.Some?;
    ProbeDist(Hash(lpn, n), r.idx, n);
    var e := Dist(Hash(lpn, n), r.idx, n);
    assert !Other(t, lpn, e);
    assert d <= e && e <= d;
  }

  lemma OneSlotPerPage(t: seq<Slot>, i: nat, j: nat)
    requires Inv(t) && i < |t| && j < |t| && t[i].Used? && t[j].Used? && t[i].lpn == t[j].lpn
    ensures i == j
  {
    LookupFindsEntry(t, i);
    LookupFindsEntry(t, j);
  }

  /** A new entry: cold, in SLC. */
  function NewEntry(lpn: nat): Slot { Used(lpn, 0, 0, 0, Slc, false) }

  /** get_hotness_entry: find or create. */
  function GetEntry(t: seq<Slot>, lpn: nat): (r: (seq<Slot>, Option))
    requires 0 < |t|
    ensures |r.0| == |t|
  {
    var r := Probe(t, lpn, 0);
    ProbeMeaning(t, lpn, 0);
    if r.Some? && t[r.idx].Free? then (t[r.idx := NewEntry(lpn)], r) else (t, r)
  }

  /** Find-or-create keeps every other slot, and afterwards the slot found is the page's own. */
  lemma GetEntryRefinesMap(t: seq<Slot>, lpn: nat)
    requires Inv(t)
    ensures var (t', r) := GetEntry(t, lpn);
      && Inv(t')
      && (forall i :: 0 <= i < |t| && t[i].Used? ==> t'[i] == t[i])
      && (r.Some? ==>
           r.idx < |t| && t'[r.idx].Used? && t'[r.idx].lpn == lpn && (t[r.idx].Used? || t'[r.idx] == NewEntry(lpn)))
      && (r.Some? ==> forall i :: 0 <= i < |t| && i != r.idx ==> t'[i] == t[i])
      && (r.None? ==> forall i :: 0 <= i < |t| ==> t[i].Used? && t[i].lpn != lpn)
  {
    var (t', r) := GetEntry(t, lpn);
    ProbeMeaning(t, lpn, 0);
    if r.None? {
      forall i | 0 <= i < |t| ensures t[i].Used? && t[i].lpn != lpn { FullTable(t, lpn, i); }
    } else if t[r.idx].Free? {
      forall k | 0 <= k < |t'| && t'[k].Used? ensures Reachable(t', k) {
        if k != r.idx { assert Reachable(t, k); }
        forall i | 0 <= i < DistOf(t', k) && i < |t'| ensures Other(t', t'[k].lpn, i) {
          assert Other(t, t'[k].lpn, i);
        }
      }
    }
  }

  // ---------- accesses ----------

  const AGING_NS: nat := 1000000000

  /** The aging of a recent access count. */
  function Aged(recent: nat, lastAccess: nat, now: nat): nat {
    if now - lastAccess <= AGING_NS then recent else if recent > 0 then recent - 1 else 0
  }

  /** What update_page_hotness does to an entry: it sets the time of the last access, and ages the count by that
      time. */
  function Touched(s: Slot, now: nat): Slot
    requires s.Used?
  {
    var u := s.(accessCount := s.accessCount + 1, recentAccess := s.recentAccess + 1, lastAccess := now);
    u.(recentAccess := Aged(u.recentAccess, u.lastAccess, now))
  }

  /** Entries never age: the last access has just been set to now, so every access counts as recent for ever.  Aging
      by the access before gives the same count exactly within a second of it. */
  lemma NeverAges(s: Slot, now: nat)
    requires s.Used?
    ensures Touched(s, now)
      == s.(accessCount := s.accessCount + 1, recentAccess := s.recentAccess + 1, lastAccess := now)
    ensures Touched(s, now).recentAccess == Aged(s.recentAccess + 1, s.lastAccess, now) <==>
      now - s.lastAccess <= AGING_NS
  {
  }

  /** A table of one slot, and a page accessed at time 0 and two seconds later: its recent count is 2, not 1. */
  lemma NotAgedAfterTwoSeconds()
    ensures var t0, cs := [Free], [DoAccess(7, 0), DoAccess(7, 2000000000)];
      var t1, t2 := [Used(7, 1, 1, 0, Slc, false)], [Used(7, 2, 2, 2000000000, Slc, false)];
      IsRun([t0, t1, t2], cs) && Aged(2, 0, 2000000000) == 1
  {
    var t0, t1, t2 := [Free], [Used(7, 1, 1, 0, Slc, false)], [Used(7, 2, 2, 2000000000, Slc, false)];
    SingleSlot(Free);
    SingleSlot(t1[0]);
    hide Inv;
    NeverAges(NewEntry(7), 0);
    NeverAges(t1[0], 2000000000);
    assert Hash(7, 1) == 0 && ProbeIdx(0, 0, 1) == 0;
    assert Probe(t0, 7, 0) == Some(0) && Probe(t1, 7, 0) == Some(0);
    assert t0[0 := NewEntry(7)] == [NewEntry(7)] && [NewEntry(7)][0 := t1[0]] == t1 && t1[0 := t2[0]] == t2;
    hide Probe;
    assert Access(t0, 7, 0) == t1 && Access(t1, 7, 2000000000) == t2;
  }

  /** A table of one slot is always well formed. */
  lemma SingleSlot(s: Slot)
    ensures Inv([s])
  {
  }

  /** update_page_hotness. */
  function Access(t: seq<Slot>, lpn: nat, now: nat): (t': seq<Slot>)
    requires Inv(t)
    ensures |t'| == |t|
  {
    GetEntryRefinesMap(t, lpn);
    var (u, r) := GetEntry(t, lpn);
    if r.None? then u else u[r.idx := Touched(u[r.idx], now)]
  }

  /** Tables that differ in counters and tags only are searched alike. */
  lemma SameLpns(t: seq<Slot>, t': seq<Slot>)
    requires Inv(t) && |t'| == |t|
    requires forall i :: 0 <= i < |t| ==> t'[i].Used? == t[i].Used? && (t[i].Used? ==> t'[i].lpn == t[i].lpn)
    ensures Inv(t')
  {
    forall k | 0 <= k < |t'| && t'[k].Used? ensures Reachable(t', k) {
      assert Reachable(t, k);
      forall i | 0 <= i < DistOf(t', k) && i < |t'| ensures Other(t', t'[k].lpn, i) { assert Other(t, t'[k].lpn, i); }
    }
  }

  // ---------- runs ----------

  /** One call: a lookup, an access, or a migration scan. */
  datatype Call = DoLookup(lpn: nat) | DoAccess(lpn: nat, now: nat)
                | DoScan(coldThreshold: nat, limit: nat, mapped: set<nat>)

  ghost predicate Follows(t: seq<Slot>, c: Call, t': seq<Slot>) {
    && Inv(t)
    && match c
       case DoLookup(lpn) => t' == GetEntry(t, lpn).0
       case DoAccess(lpn, now) => t' == Access(t, lpn, now)
       case DoScan(coldThreshold, limit, mapped) => Scanned(t, t', coldThreshold, limit, mapped)
  }

  ghost predicate IsRun(ts: seq<seq<Slot>>, cs: seq<Call>) {
    && |ts| == |cs| + 1 && 0 < |ts[0]| && (forall i :: 0 <= i < |ts[0]| ==> ts[0][i].Free?)
    && forall i :: 0 <= i < |cs| ==> Follows(ts[i], cs[i], ts[i + 1])
  }

  /** No call takes a slot from its page or a page out of QLC, and all accesses of an entry stay recent ones. */
  ghost predicate Kept(t: seq<Slot>, t': seq<Slot>) {
    && |t'| == |t|
    && forall i :: 0 <= i < |t| ==> SlotKept(t[i], t'[i])
  }

  ghost predicate SlotKept(s: Slot, s': Slot) {
    && (s.Used? ==> s'.Used? && s'.lpn == s.lpn && (s.tier.Qlc? ==> s'.tier.Qlc?))
    && (s.Used? ==> s.accessCount <= s'.accessCount)
    && (s.Free? || s.recentAccess == s.accessCount ==> s'.Free? || s'.recentAccess == s'.accessCount)
    && (s.Free? || !s.migrating ==> s'.Free? || !s'.migrating)
  }

  lemma CallKeeps(t: seq<Slot>, c: Call, t': seq<Slot>)
    requires Follows(t, c, t')
    ensures Inv(t') && Kept(t, t')
  {
    match c
    case DoLookup(lpn) =>
      GetEntryRefinesMap(t, lpn);
    case DoAccess(lpn, now) =>
      GetEntryRefinesMap(t, lpn);
      SameLpns(GetEntry(t, lpn).0, t');
    case DoScan(coldThreshold, limit, mapped) =>
      forall i | 0 <= i < |t| ensures SlotKept(t[i], t'[i]) && t'[i].Used? == t[i].Used?
        ensures t[i].Used? ==> t'[i].lpn == t[i].lpn
      {
        assert SlotScanned(t[i], t'[i], coldThreshold, mapped);
      }
      SameLpns(t, t');
  }

  /** One slot for ever: in every run of calls, from the moment a slot belongs to a page on, it keeps belonging to it, a
      lookup of the page finds exactly that slot, and once QLC it stays QLC. */
  lemma {:induction false} SlotForEver(ts: seq<seq<Slot>>, cs: seq<Call>, m: nat, n: nat, idx: nat)
    requires IsRun(ts, cs) && m <= n < |ts| && idx < |ts[m]| && ts[m][idx].Used? && Inv(ts[m])
    ensures Inv(ts[n]) && |ts[n]| == |ts[m]| && ts[n][idx].Used? && ts[n][idx].lpn == ts[m][idx].lpn
    ensures Probe(ts[n], ts[m][idx].lpn, 0) == Some(idx)
    ensures ts[m][idx].tier.Qlc? ==> ts[n][idx].tier.Qlc?
    decreases n
  {
    hide Follows, Inv, Probe;
    if m < n {
      SlotForEver(ts, cs, m, n - 1, idx);
      CallKeeps(ts[n - 1], cs[n - 1], ts[n]);
      assert SlotKept(ts[n - 1][idx], ts[n][idx]);
    }
    LookupFindsEntry(ts[n], idx);
  }

  /** In every run the table is well formed, the recent accesses of every entry are all its accesses, and no entry
      stays on the move. */
  lemma {:induction false} RunInv(ts: seq<seq<Slot>>, cs: seq<Call>, n: nat, idx: nat)
    requires IsRun(ts, cs) && n < |ts|
    ensures Inv(ts[n]) && |ts[n]| == |ts[0]|
    ensures idx < |ts[n]| && ts[n][idx].Used? ==> ts[n][idx].recentAccess == ts[n][idx].accessCount
    ensures idx < |ts[n]| && ts[n][idx].Used? ==> !ts[n][idx].migrating
  {
    hide Follows;
    if n > 0 {
      RunInv(ts, cs, n - 1, idx);
      hide Inv;
      CallKeeps(ts[n - 1], cs[n - 1], ts[n]);
      assert idx < |ts[n]| ==> SlotKept(ts[n - 1][idx], ts[n][idx]);
    }
  }

  /** How many of the first `n` calls access the page. */
  function Accesses(cs: seq<Call>, n: nat, lpn: nat): nat
    requires n <= |cs|
  {
    if n == 0 then 0 else
    Accesses(cs, n - 1, lpn) + if cs[n - 1].DoAccess? && cs[n - 1].lpn == lpn then 1 else 0
  }

  /** A page with a slot has counted all of its `k` accesses; one without a slot had none, or the table is full. */
  ghost predicate Counted(t: seq<Slot>, lpn: nat, k: nat) {
    && (forall i :: 0 <= i < |t| && t[i].Used? && t[i].lpn == lpn ==> t[i].accessCount == k)
    && ((exists i :: 0 <= i < |t| && t[i].Free?) ==>
         k == 0 || exists i :: 0 <= i < |t| && t[i].Used? && t[i].lpn == lpn)
  }

  lemma GetEntryCounts(t: seq<Slot>, lpn: nat, page: nat, k: nat)
    requires Inv(t) && Counted(t, page, k)
    ensures Counted(GetEntry(t, lpn).0, page, k)
  {
    GetEntryRefinesMap(t, lpn);
    var (t', r) := GetEntry(t, lpn);
    if r.Some? && t[r.idx].Free? {
      if exists i :: 0 <= i < |t| && t[i].Used? && t[i].lpn == page {
        var i :| 0 <= i < |t| && t[i].Used? && t[i].lpn == page;
        assert t'[i] == t[i];
        if page == lpn { OneSlotPerPage(t', i, r.idx); }
      }
    }
  }

  lemma CallCounts(t: seq<Slot>, c: Call, t': seq<Slot>, page: nat, k: nat)
    requires Follows(t, c, t') && Counted(t, page, k)
    ensures Counted(t', page, if c.DoAccess? && c.lpn == page then k + 1 else k)
  {
    match c
    case DoLookup(lpn) =>
      GetEntryCounts(t, lpn, page, k);
    case DoAccess(lpn, now) =>
      GetEntryCounts(t, lpn, page, k);
      GetEntryRefinesMap(t, lpn);
      var (u, r) := GetEntry(t, lpn);
      if r.Some? {
        NeverAges(u[r.idx], now);
        forall i | 0 <= i < |u| && u[i].Used? && u[i].lpn == lpn ensures i == r.idx { OneSlotPerPage(u, i, r.idx); }
        assert t'[r.idx].Used? && t'[r.idx].lpn == lpn;
        if exists i :: 0 <= i < |u| && u[i].Used? && u[i].lpn == page {
          var i :| 0 <= i < |u| && u[i].Used? && u[i].lpn == page;
          assert t'[i].Used? && t'[i].lpn == page;
        }
      }
    case DoScan(coldThreshold, limit, mapped) =>
      forall i | 0 <= i < |t| ensures t'[i] == t[i] || (t[i].Used? && t'[i] == t[i].(tier := Qlc)) {
        assert SlotScanned(t[i], t'[i], coldThreshold, mapped);
      }
  }

  /** In every run the count of an entry is the number of all accesses of its page from the start on: none is missed
      before the page gets its slot, and none is counted for another page. */
  lemma {:induction false} CountsAllAccesses(ts: seq<seq<Slot>>, cs: seq<Call>, n: nat, page: nat)
    requires IsRun(ts, cs) && n < |ts|
    ensures Counted(ts[n], page, Accesses(cs, n, page))
  {
    hide Follows;
    if n > 0 {
      CountsAllAccesses(ts, cs, n - 1, page);
      CallCounts(ts[n - 1], cs[n - 1], ts[n], page, Accesses(cs, n - 1, page));
    }
  }

  /** What a scan of a run does to a page, by the calls before it: it retags only pages in SLC with a physical page that
      were accessed at most the threshold's number of times, and all of these while it is below its limit. */
  lemma ScanByAccesses(ts: seq<seq<Slot>>, cs: seq<Call>, n: nat, idx: nat)
    requires IsRun(ts, cs) && n < |cs| && cs[n].DoScan? && idx < |ts[n]| && ts[n][idx].Used?
    ensures var (t, t', c) := (ts[n], ts[n + 1], cs[n]);
      var cold := t[idx].tier.Slc? && Accesses(cs, n, t[idx].lpn) <= c.coldThreshold && t[idx].lpn in c.mapped;
      && |t'| == |t| && (!cold ==> t'[idx] == t[idx])
      && (QlcCount(t') < QlcCount(t) + c.limit && cold ==> t'[idx] == t[idx].(tier := Qlc))
  {
    hide Inv, QlcCount;
    CountsAllAccesses(ts, cs, n, ts[n][idx].lpn);
    RunInv(ts, cs, n, idx);
    assert Follows(ts[n], cs[n], ts[n + 1]);
    assert SlotScanned(ts[n][idx], ts[n + 1][idx], cs[n].coldThreshold, cs[n].mapped);
  }

  // ---------- the migration scan ----------

  function QlcCount(t: seq<Slot>): nat {
    if t == [] then 0 else QlcCount(t[..|t| - 1]) + if t[|t| - 1].Used? && t[|t| - 1].tier.Qlc? then 1 else 0
  }

  lemma {:induction false} RetagCounts(t: seq<Slot>, i: nat, s: Slot)
    requires i < |t|
    ensures QlcCount(t[i := s]) + (if t[i].Used? && t[i].tier.Qlc? then 1 else 0)
      == QlcCount(t) + (if s.Used? && s.tier.Qlc? then 1 else 0)
  {
    var n := |t| - 1;
    if i == n {
      assert t[i := s][..n] == t[..n];
    } else {
      assert t[i := s][..n] == t[..n][i := s];
      RetagCounts(t[..n], i, s);
    }
  }

  /** should_migrate_page. */
  predicate ShouldMigrate(s: Slot, coldThreshold: nat) {
    if s.Free? || s.migrating then false else
    if s.tier.Slc? then s.recentAccess <= coldThreshold else false
  }

  /** The entry of a cold page in SLC that is not on the move and has a physical page. */
  ghost predicate Candidate(s: Slot, coldThreshold: nat, mapped: set<nat>) {
    s.Used? && !s.migrating && s.tier == Slc && s.recentAccess <= coldThreshold && s.lpn in mapped
  }

  ghost predicate SlotScanned(s: Slot, s': Slot, coldThreshold: nat, mapped: set<nat>) {
    s' == s || (Candidate(s, coldThreshold, mapped) && s' == s.(tier := Qlc))
  }

  /** A scan retags candidates only, from the front of the table on, at most `limit` of them, and all if there are
      fewer. */
  ghost predicate Scanned(t: seq<Slot>, t': seq<Slot>, coldThreshold: nat, limit: nat, mapped: set<nat>) {
    && |t'| == |t|
    && (forall i :: 0 <= i < |t| ==> SlotScanned(t[i], t'[i], coldThreshold, mapped))
    && QlcCount(t') <= QlcCount(t) + limit
    && (forall i, j :: 0 <= i < j < |t| && Candidate(t[i], coldThreshold, mapped) && t'[i] == t[i] ==> t'[j] == t[j])
    && (QlcCount(t') < QlcCount(t) + limit ==>
         forall i :: 0 <= i < |t| && Candidate(t[i], coldThreshold, mapped) ==> t'[i] == t[i].(tier := Qlc))
  }

  class Migrator {
    const table: array<Slot>
    var usedQlcPages: nat

    ghost predicate Valid()
      reads this, table
    {
      Inv(table[..]) && usedQlcPages == QlcCount(table[..])
    }

    /** init_hotness_tracking: an empty table. */
    constructor (size: nat)
      requires 0 < size
      ensures Valid() && fresh(table) && table.Length == size && forall i :: 0 <= i < size ==> table[i].Free?
    {
      table := new Slot[size](_ => Free);
      usedQlcPages := 0;
      new;
      NoQlc(table[..]);
    }

    /** get_hotness_entry. */
    method Lookup(lpn: nat) returns (r: Option)
      requires Valid()
      modifies table
      ensures (table[..], r) == GetEntry(old(table[..]), lpn) && Valid()
    {
      ghost var t := table[..];
      var n := table.Length;
      var hash := lpn % n;
      ProbeMeaning(t, lpn, 0);
      GetEntryRefinesMap(t, lpn);
      r := None;
      var i := 0;
      while i < n
        invariant 0 <= i <= n && table[..] == t && Probe(t, lpn, i) == Probe(t, lpn, 0)
      {
        var idx := (hash + i) % n;
        if table[idx].Free? || table[idx].lpn == lpn {
          if table[idx].Free? {
            RetagCounts(t, idx, NewEntry(lpn));
            table[idx] := NewEntry(lpn);
            assert table[..] == t[idx := NewEntry(lpn)];
          }
          return Some(idx);
        }
        i := i + 1;
      }
    }

    /** update_page_hotness. */
    method UpdateHotness(lpn: nat, now: nat)
      requires Valid()
      modifies table
      ensures Inv(old(table[..])) && table[..] == Access(old(table[..]), lpn, now) && Valid()
    {
      ghost var t := table[..];
      GetEntryRefinesMap(t, lpn);
      var r := Lookup(lpn);
      if r.None? { return; }
      ghost var u := table[..];
      NeverAges(u[r.idx], now);
      RetagCounts(u, r.idx, Touched(u[r.idx], now));
      SameLpns(u, u[r.idx := Touched(u[r.idx], now)]);
      var e := table[r.idx];
      e := e.(accessCount := e.accessCount + 1, recentAccess := e.recentAccess + 1, lastAccess := now);
      e := e.(recentAccess := Aged(e.recentAccess, e.lastAccess, now));
      table[r.idx] := e;
      assert table[..] == u[r.idx := Touched(u[r.idx], now)];
    }

    /** The table half of migrate_page; a page without mapping is left alone. */
    method MigratePage(lpn: nat, isMapped: bool, ghost idx: nat) returns (migrated: bool)
      requires Valid() && idx < table.Length && table[idx].Used? && table[idx].lpn == lpn && table[idx].tier.Slc?
      requires !table[idx].migrating
      modifies this, table
      ensures Valid() && migrated == isMapped
      ensures table[..] == if isMapped then old(table[..])[idx := old(table[idx]).(tier := Qlc)] else old(table[..])
      ensures usedQlcPages == old(usedQlcPages) + if isMapped then 1 else 0
    {
      ghost var t := table[..];
      LookupFindsEntry(t, idx);
      var r := Lookup(lpn);
      assert r == Some(idx) && table[..] == t;
      if !isMapped { return false; }
      RetagCounts(t, idx, t[idx].(tier := Qlc));
      RetagKeepsInv(t, idx);
      table[r.idx] := table[r.idx].(migrating := true);
      usedQlcPages := usedQlcPages + 1;
      table[r.idx] := table[r.idx].(tier := Qlc);
      table[r.idx] := table[r.idx].(migrating := false);
      assert table[..] == t[idx := t[idx].(tier := Qlc)];
      return true;
    }

    /** check_and_perform_migrations behind its timer; `mapped` are the logical pages that have a physical page. */
    method ScanForMigrations(coldThreshold: nat, maxMigrations: nat, mapped: set<nat>) returns (current: nat)
      requires Valid()
      modifies this, table
      ensures Valid() && Scanned(old(table[..]), table[..], coldThreshold, maxMigrations, mapped)
      ensures usedQlcPages == old(usedQlcPages) + current && current <= maxMigrations
    {
      current := 0;
      var i := 0;
      while i < table.Length && current < maxMigrations
        invariant 0 <= i <= table.Length && Valid()
        invariant usedQlcPages == old(usedQlcPages) + current && current <= maxMigrations
        invariant forall k :: i <= k < table.Length ==> table[k] == old(table[k])
        invariant forall k :: 0 <= k < i ==> SlotScanned(old(table[k]), table[k], coldThreshold, mapped)
        invariant forall k :: 0 <= k < i && Candidate(old(table[k]), coldThreshold, mapped) ==>
          table[k] == old(table[k]).(tier := Qlc)
      {
        if ShouldMigrate(table[i], coldThreshold) {
          ghost var t := table[..];
          var migrated := MigratePage(table[i].lpn, table[i].lpn in mapped, i);
          assert forall k :: 0 <= k < table.Length && k != i ==> table[k] == t[k];
          if migrated { current := current + 1; }
        }
        i := i + 1;
      }
    }
  }

  lemma {:induction false} NoQlc(t: seq<Slot>)
    requires forall i :: 0 <= i < |t| ==> t[i].Free?
    ensures QlcCount(t) == 0
  {
    if t != [] { NoQlc(t[..|t| - 1]); }
  }

  lemma RetagKeepsInv(t: seq<Slot>, idx: nat)
    requires Inv(t) && idx < |t| && t[idx].Used?
    ensures Inv(t[idx := t[idx].(tier := Qlc)])
  {
    SameLpns(t, t[idx := t[idx].(tier := Qlc)]);
  }
}
