/** The indexed binary heap of pqueue/pqueue.c, with the comparison that conv_ftl.c gives it:
    the element with the smallest priority is at the root, position 1; cell 0 is not used.

    The element type is an index; `pri` and `pos` are the fields that the source reads and
    writes through its callbacks.  A heap value is a sequence `h` whose cell 0 is a dummy.
    Sifting by swaps is the simple form; the methods move a hole, as the source does. */
module PQueue {
  ghost predicate Wf(h: seq<nat>, pri: seq<nat>) {
    1 <= |h| && forall i :: 1 <= i < |h| ==> h[i] < |pri|
  }

  ghost predicate Ordered(h: seq<nat>, pri: seq<nat>)
    requires Wf(h, pri)
  {
    forall i :: 2 <= i < |h| ==> pri[h[i / 2]] <= pri[h[i]]
  }

  function Swap(h: seq<nat>, i: nat, j: nat): (r: seq<nat>)
    requires i < |h| && j < |h|
    ensures |r| == |h|
  {
    h[i := h[j]][j := h[i]]
  }

  ghost function SiftUp(h: seq<nat>, pri: seq<nat>, i: nat): seq<nat>
    requires Wf(h, pri) && 1 <= i < |h|
    decreases i
  {
    if i > 1 && pri[h[i / 2]] > pri[h[i]] then SiftUp(Swap(h, i, i / 2), pri, i / 2) else h
  }

  /** The child with the smaller priority, or 0. */
  ghost function BestChild(h: seq<nat>, pri: seq<nat>, i: nat): nat
    requires Wf(h, pri) && 1 <= i
  {
    if 2 * i >= |h| then 0
    else if 2 * i + 1 < |h| && pri[h[2 * i]] > pri[h[2 * i + 1]] then 2 * i + 1 else 2 * i
  }

  ghost function SiftDown(h: seq<nat>, pri: seq<nat>, i: nat): seq<nat>
    requires Wf(h, pri) && 1 <= i < |h|
    decreases |h| - i
  {
    var c := BestChild(h, pri, i);
    if c != 0 && pri[h[i]] > pri[h[c]] then SiftDown(Swap(h, i, c), pri, c) else h
  }

  // ---------- what sifting keeps and establishes ----------

  ghost predicate SameElements(a: seq<nat>, b: seq<nat>) {
    && |a| == |b| && 1 <= |a| && a[0] == b[0]
    && multiset(a[1..]) == multiset(b[1..])
  }

  /** `r` is a proper heap of the elements of `h`. */
  ghost predicate Repaired(h: seq<nat>, r: seq<nat>, pri: seq<nat>) {
    SameElements(h, r) && Wf(r, pri) && Ordered(r, pri)
  }

  lemma SwapSameElements(h: seq<nat>, i: nat, j: nat)
    requires 1 <= i < |h| && 1 <= j < |h|
    ensures SameElements(h, Swap(h, i, j))
  {
  }

  /** Sifting up from `i` is right when only the edge above `i` may be out of order. */
  lemma {:induction false} SiftUpOrdered(h: seq<nat>, pri: seq<nat>, i: nat)
    requires Wf(h, pri) && 1 <= i < |h|
    requires forall j :: 2 <= j < |h| && j != i ==> pri[h[j / 2]] <= pri[h[j]]
    requires forall j :: 2 <= j < |h| && j / 2 == i && 1 <= i / 2 ==> pri[h[i / 2]] <= pri[h[j]]
    ensures Repaired(h, SiftUp(h, pri, i), pri)
    decreases i
  {
    if i > 1 && pri[h[i / 2]] > pri[h[i]] {
      var p := i / 2;
      var s := Swap(h, i, p);
      SwapSameElements(h, i, p);
      forall j | 2 <= j < |h| && j != p ensures pri[s[j / 2]] <= pri[s[j]] {
        if j / 2 == i || j / 2 == p { assert j != i ==> pri[h[j / 2]] <= pri[h[j]]; }
      }
      SiftUpOrdered(s, pri, i / 2);
    }
  }

  /** Sifting down from `i` is right when only the edges below `i` may be out of order. */
  lemma {:induction false} SiftDownOrdered(h: seq<nat>, pri: seq<nat>, i: nat)
    requires Wf(h, pri) && 1 <= i < |h|
    requires forall j :: 2 <= j < |h| && j / 2 != i ==> pri[h[j / 2]] <= pri[h[j]]
    requires forall j :: 2 <= j < |h| && j / 2 == i && 1 <= i / 2 ==> pri[h[i / 2]] <= pri[h[j]]
    ensures Repaired(h, SiftDown(h, pri, i), pri)
    decreases |h| - i
  {
    hide SameElements;
    var c := BestChild(h, pri, i);
    if c != 0 && pri[h[i]] > pri[h[c]] {
      var s := Swap(h, i, c);
      SwapSameElements(h, i, c);
      SiftDownOrdered(s, pri, c);
      StillRepaired(h, s, SiftDown(s, pri, c), pri);
    } else {
      NothingToRepair(h, pri);
    }
  }

  lemma StillRepaired(h: seq<nat>, s: seq<nat>, r: seq<nat>, pri: seq<nat>)
    requires SameElements(h, s) && Repaired(s, r, pri)
    ensures Repaired(h, r, pri)
  {
  }

  lemma NothingToRepair(h: seq<nat>, pri: seq<nat>)
    requires Wf(h, pri) && Ordered(h, pri)
    ensures Repaired(h, h, pri)
  {
  }

  /** The root of an ordered heap is a minimum. */
  lemma {:induction false} RootIsLeast(h: seq<nat>, pri: seq<nat>, i: nat)
    requires Wf(h, pri) && Ordered(h, pri) && 1 <= i < |h|
    ensures pri[h[1]] <= pri[h[i]]
  {
    if i > 1 { RootIsLeast(h, pri, i / 2); }
  }

  // ---------- the validity check ----------

  /** subtree_is_valid. */
  predicate SubtreeValid(h: seq<nat>, pri: seq<nat>, p: nat)
    requires Wf(h, pri) && 1 <= p
    decreases |h| - p
  {
    && (2 * p < |h| ==> pri[h[p]] <= pri[h[2 * p]] && SubtreeValid(h, pri, 2 * p))
    && (2 * p + 1 < |h| ==> pri[h[p]] <= pri[h[2 * p + 1]] && SubtreeValid(h, pri, 2 * p + 1))
  }

  /** `i` lies in the subtree rooted at `p`. */
  ghost predicate Under(p: nat, i: nat)
    requires 1 <= p
  {
    i == p || (p < i && Under(p, i / 2))
  }

  lemma {:induction false} UnderChild(p: nat, i: nat)
    requires 1 <= p && Under(p, i) && i != p
    ensures Under(2 * p, i) || Under(2 * p + 1, i)
    decreases i
  {
    if i / 2 != p {
      UnderChild(p, i / 2);
    }
  }

  lemma {:induction false} UnderTrans(p: nat, c: nat, i: nat)
    requires 1 <= p && c / 2 == p && Under(c, i) && 1 <= c
    ensures Under(p, i) && i != p
    decreases i
  {
    if i != c { UnderTrans(p, c, i / 2); }
  }

  /** The recursive check of a subtree is the heap order of the edges inside that subtree. */
  lemma {:induction false} SubtreeValidMeaning(h: seq<nat>, pri: seq<nat>, p: nat)
    requires Wf(h, pri) && 1 <= p
    ensures SubtreeValid(h, pri, p) <==>
      forall i :: 2 <= i < |h| && i != p && Under(p, i) ==> pri[h[i / 2]] <= pri[h[i]]
    decreases |h| - p
  {
    if 2 * p < |h| { SubtreeValidMeaning(h, pri, 2 * p); }
    if 2 * p + 1 < |h| { SubtreeValidMeaning(h, pri, 2 * p + 1); }
    if SubtreeValid(h, pri, p) {
      forall i | 2 <= i < |h| && i != p && Under(p, i) ensures pri[h[i / 2]] <= pri[h[i]] {
        UnderChild(p, i);
      }
    } else {
      forall c, i | p == c / 2 && 1 <= c && 2 <= i < |h| && Under(c, i)
        ensures Under(p, i) && i != p
      {
        UnderTrans(p, c, i);
      }
      assert Under(2 * p, 2 * p) && Under(2 * p + 1, 2 * p + 1);
    }
  }

  lemma {:induction false} UnderRoot(i: nat)
    requires 1 <= i
    ensures Under(1, i)
  {
    if i > 1 { UnderRoot(i / 2); }
  }

  /** pqueue_is_valid decides the heap order. */
  lemma IsValidDecidesOrder(h: seq<nat>, pri: seq<nat>)
    requires Wf(h, pri)
    ensures SubtreeValid(h, pri, 1) <==> Ordered(h, pri)
  {
    SubtreeValidMeaning(h, pri, 1);
    forall i | 2 <= i < |h| ensures Under(1, i) { UnderRoot(i); }
  }

  // ---------- the heap object ----------

  /** Every live cell is where its element says, except cell `i`, whose element is on the move. */
  ghost predicate PlacedExcept(h: seq<nat>, pos: seq<nat>, i: nat, moving: nat) {
    forall j :: 1 <= j < |h| && j != i ==> h[j] < |pos| && pos[h[j]] == j && h[j] != moving
  }

  ghost predicate Placed(h: seq<nat>, pos: seq<nat>) {
    forall j :: 1 <= j < |h| ==> h[j] < |pos| && pos[h[j]] == j
  }

  ghost predicate Member(h: seq<nat>, e: nat) {
    exists j :: 1 <= j < |h| && h[j] == e
  }

  ghost predicate OnlyMembersMoved(h: seq<nat>, pos: seq<nat>, pos': seq<nat>) {
    |pos'| == |pos| && forall e :: 0 <= e < |pos| && !Member(h, e) ==> pos'[e] == pos[e]
  }

  /** A sift under way: `h` is the heap with the moving element in the hole `i`. */
  ghost predicate Moving(h0: seq<nat>, pos0: seq<nat>, h: seq<nat>, pos: seq<nat>, pri: seq<nat>, i: nat, moving: nat) {
    && Wf(h, pri) && |h| == |h0| && |pos| == |pri| && 1 <= i < |h| && h[i] == moving
    && PlacedExcept(h, pos, i, moving)
    && (forall j :: 1 <= j < |h| ==> Member(h0, h[j]))
    && OnlyMembersMoved(h0, pos0, pos)
  }

  lemma MoveHole(h0: seq<nat>, pos0: seq<nat>, h: seq<nat>, pos: seq<nat>, pri: seq<nat>, i: nat, c: nat, moving: nat)
    requires Moving(h0, pos0, h, pos, pri, i, moving) && 1 <= c < |h| && c != i
    ensures Moving(h0, pos0, Swap(h, i, c), pos[h[c] := i], pri, c, moving)
  {
  }

  lemma FillHole(h0: seq<nat>, pos0: seq<nat>, h: seq<nat>, pos: seq<nat>, pri: seq<nat>, i: nat, moving: nat)
    requires Moving(h0, pos0, h, pos, pri, i, moving)
    ensures Placed(h, pos[moving := i]) && OnlyMembersMoved(h0, pos0, pos[moving := i])
  {
  }

  lemma StartMoving(h: seq<nat>, pos: seq<nat>, pri: seq<nat>, i: nat)
    requires Wf(h, pri) && |pos| == |pri| && 1 <= i < |h| && PlacedExcept(h, pos, i, h[i])
    ensures Moving(h, pos, h, pos, pri, i, h[i])
  {
  }

  /** The choice of child does not look at the cell of the hole. */
  lemma BestChildIgnoresHole(a: seq<nat>, b: seq<nat>, pri: seq<nat>, i: nat)
    requires Wf(a, pri) && Wf(b, pri) && |a| == |b| && 1 <= i
    requires forall j :: 1 <= j < |a| && j != i ==> a[j] == b[j]
    ensures BestChild(a, pri, i) == BestChild(b, pri, i)
  {
  }

  lemma SameButHole(a: seq<nat>, b: seq<nat>, pri: seq<nat>, i: nat)
    requires Wf(b, pri) && |a| == |b| && i < |a| && a[i] < |pri| && forall j :: 1 <= j < |a| && j != i ==> a[j] == b[j]
    ensures Wf(a, pri)
  {
  }

  ghost function ElementSet(h: seq<nat>): set<nat> {
    set i | 1 <= i < |h| :: h[i]
  }

  lemma SameElementSet(a: seq<nat>, b: seq<nat>)
    requires SameElements(a, b)
    ensures ElementSet(a) == ElementSet(b)
  {
    forall e ensures e in ElementSet(a) <==> e in multiset(a[1..]) { InTail(a, e); }
    forall e ensures e in ElementSet(b) <==> e in multiset(b[1..]) { InTail(b, e); }
  }

  lemma InTail(h: seq<nat>, e: nat)
    requires 1 <= |h|
    ensures e in ElementSet(h) <==> e in multiset(h[1..])
  {
  }

  /** Appending an element and sifting it up. */
  lemma Appended(h: seq<nat>, pri: seq<nat>, pos: seq<nat>, e: nat)
    requires Wf(h, pri) && Ordered(h, pri) && Placed(h, pos) && e < |pri| && e !in ElementSet(h)
    ensures var r := h + [e];
      && ElementSet(r) == ElementSet(h) + {e} && Wf(r, pri)
      && PlacedExcept(r, pos, |h|, e) && Repaired(r, SiftUp(r, pri, |h|), pri)
  {
    var r := h + [e];
    assert r[|h|] == e;
    assert forall j :: 0 <= j < |h| ==> r[j] == h[j];
    assert forall j :: 1 <= j < |h| ==> h[j] in ElementSet(h);
    assert ElementSet(r) == ElementSet(h) + {e} by {
      forall x | x in ElementSet(h) ensures x in ElementSet(r) {
        var j :| 1 <= j < |h| && h[j] == x;
        assert r[j] == x;
      }
    }
    hide ElementSet, SiftUp;
    SiftUpOrdered(r, pri, |h|);
  }

  /** The heap without cell `i`: the last element takes its place. */
  ghost function Drop(h: seq<nat>, i: nat): seq<nat>
    requires 1 <= i < |h|
  {
    if i == |h| - 1 then h[..i] else h[..|h| - 1][i := h[|h| - 1]]
  }

  lemma DropElements(h: seq<nat>, pos: seq<nat>, i: nat)
    requires 1 <= i < |h| && Placed(h, pos)
    ensures ElementSet(Drop(h, i)) == ElementSet(h) - {h[i]}
  {
    var r, last := Drop(h, i), |h| - 1;
    forall e | e in ElementSet(h) && e != h[i] ensures e in ElementSet(r) {
      var k :| 1 <= k < |h| && h[k] == e;
      assert r[if k == last then i else k] == e;
    }
  }

  lemma DropMembersMoved(h: seq<nat>, i: nat, pos: seq<nat>, pos': seq<nat>)
    requires 1 <= i < |h| && OnlyMembersMoved(Drop(h, i), pos, pos')
    ensures OnlyMembersMoved(h, pos, pos')
  {
  }

  lemma DropPlaced(h: seq<nat>, pos: seq<nat>, i: nat)
    requires 1 <= i < |h| && Placed(h, pos)
    ensures i < |h| - 1 ==> PlacedExcept(Drop(h, i), pos, i, Drop(h, i)[i])
    ensures i == |h| - 1 ==> Placed(Drop(h, i), pos)
  {
  }

  /** Which sift repairs the heap after the priority at cell `i` became `v`. */
  lemma PriorityChanged(h: seq<nat>, pri: seq<nat>, pos: seq<nat>, i: nat, v: nat)
    requires Wf(h, pri) && Ordered(h, pri) && Placed(h, pos) && 1 <= i < |h|
    ensures var p := pri[h[i] := v];
      && Wf(h, p)
      && (v < pri[h[i]] ==> Repaired(h, SiftUp(h, p, i), p))
      && (pri[h[i]] <= v ==> Repaired(h, SiftDown(h, p, i), p))
  {
    var p := pri[h[i] := v];
    assert forall j :: 1 <= j < |h| && j != i ==> p[h[j]] == pri[h[j]];
    hide SiftUp, SiftDown;
    if v < pri[h[i]] { SiftUpOrdered(h, p, i); } else { SiftDownOrdered(h, p, i); }
  }

  /** Which sift repairs the heap after the last element replaced the one in cell `i`. */
  lemma CellReplaced(h: seq<nat>, pri: seq<nat>, i: nat)
    requires Wf(h, pri) && Ordered(h, pri) && 1 <= i < |h| - 1
    ensures var r := Drop(h, i);
      && Wf(r, pri) && |r| == |h| - 1
      && (pri[r[i]] < pri[h[i]] ==> Repaired(r, SiftUp(r, pri, i), pri))
      && (pri[h[i]] <= pri[r[i]] ==> Repaired(r, SiftDown(r, pri, i), pri))
  {
    var r := Drop(h, i);
    assert forall j :: 1 <= j < |r| && j != i ==> r[j] == h[j];
    hide SiftUp, SiftDown;
    if pri[r[i]] < pri[h[i]] { SiftUpOrdered(r, pri, i); } else { SiftDownOrdered(r, pri, i); }
  }

  class Heap {
    const d: array<nat>
    var size: nat
    var pri: seq<nat>
    var pos: seq<nat>

    ghost function View(): seq<nat>
      requires size <= d.Length
      reads this`size, d
    {
      d[..size]
    }

    ghost predicate Shape()
      reads this, d
    {
      1 <= size <= d.Length && |pos| == |pri| && Wf(View(), pri)
    }

    ghost predicate Valid()
      reads this, d
    {
      Shape() && Placed(View(), pos) && Ordered(View(), pri)
    }

    ghost function Elements(): set<nat>
      requires size <= d.Length
      reads this`size, d
    {
      ElementSet(View())
    }

    /** Elements are 0..n, so the n + 1 cells of pqueue_init never overflow. */
    constructor (n: nat)
      ensures Valid() && fresh(d) && d.Length == n + 1 && size == 1
      ensures pri == pos == seq(n, _ => 0)
    {
      d := new nat[n + 1](_ => 0);
      size := 1;
      pri, pos := seq(n, _ => 0), seq(n, _ => 0);
    }

    /** Both loops: the element of cell `c` moves into the hole `i`, and the hole to `c`. */
    method MoveNode(i: nat, c: nat, moving: nat, ghost h0: seq<nat>, ghost pos0: seq<nat>, ghost h: seq<nat>)
      requires Shape() && Moving(h0, pos0, h, pos, pri, i, moving) && |h| == size && 1 <= c < size && c != i
      requires forall j :: 0 <= j < size && j != i ==> d[j] == h[j]
      modifies d, this`pos
      ensures Shape() && Moving(h0, pos0, Swap(h, i, c), pos, pri, c, moving)
      ensures forall j :: 0 <= j < size && j != c ==> d[j] == Swap(h, i, c)[j]
    {
      MoveHole(h0, pos0, h, pos, pri, i, c, moving);
      d[i] := d[c];
      pos := pos[d[i] := i];
      hide Moving;
      SameButHole(View(), Swap(h, i, c), pri, c);
    }

    method BubbleUp(start: nat)
      requires Shape() && 1 <= start < size && PlacedExcept(View(), pos, start, d[start])
      modifies d, this`pos
      ensures Shape() && View() == SiftUp(old(View()), pri, start) && Placed(View(), pos)
      ensures OnlyMembersMoved(old(View()), old(pos), pos)
    {
      hide PlacedExcept, OnlyMembersMoved, Member;
      var i, moving := start, d[start];
      ghost var h0 := View();
      ghost var h := h0;
      StartMoving(h, pos, pri, i);
      while i > 1 && pri[d[i / 2]] > pri[moving]
        invariant 1 <= i < size
        invariant Moving(h0, old(pos), h, pos, pri, i, moving) && Shape()
        invariant |h| == size && forall j :: 0 <= j < size && j != i ==> d[j] == h[j]
        invariant SiftUp(h, pri, i) == SiftUp(h0, pri, start)
      {
        var parent := i / 2;
        MoveNode(i, parent, moving, h0, old(pos), h);
        h := Swap(h, i, parent);
        i := parent;
      }
      FillHole(h0, old(pos), h, pos, pri, i, moving);
      d[i] := moving;
      pos := pos[moving := i];
      assert View() == h;
    }

    /** maxchild. */
    method MaxChild(i: nat) returns (child: nat)
      requires Shape() && 1 <= i < size
      ensures child == BestChild(View(), pri, i)
    {
      child := 2 * i;
      if child >= size { return 0; }
      if child + 1 < size && pri[d[child]] > pri[d[child + 1]] { child := child + 1; }
    }

    method PercolateDown(start: nat)
      requires Shape() && 1 <= start < size && PlacedExcept(View(), pos, start, d[start])
      modifies d, this`pos
      ensures Shape() && View() == SiftDown(old(View()), pri, start) && Placed(View(), pos)
      ensures OnlyMembersMoved(old(View()), old(pos), pos)
    {
      hide PlacedExcept, OnlyMembersMoved, Member;
      var i, moving := start, d[start];
      ghost var h0 := View();
      ghost var h := h0;
      StartMoving(h, pos, pri, i);
      var child := MaxChild(i);
      while child != 0 && pri[moving] > pri[d[child]]
        invariant Moving(h0, old(pos), h, pos, pri, i, moving) && Shape()
        invariant |h| == size && forall j :: 0 <= j < size && j != i ==> d[j] == h[j]
        invariant SiftDown(h, pri, i) == SiftDown(h0, pri, start)
        invariant child == BestChild(h, pri, i)
        decreases size - i
      {
        MoveNode(i, child, moving, h0, old(pos), h);
        h := Swap(h, i, child);
        i := child;
        hide SiftDown, Moving;
        child := MaxChild(i);
        BestChildIgnoresHole(View(), h, pri, i);
      }
      FillHole(h0, old(pos), h, pos, pri, i, moving);
      d[i] := moving;
      pos := pos[moving := i];
      assert View() == h;
    }

    /** pqueue_insert. */
    method Insert(e: nat)
      requires Valid() && size < d.Length && e < |pri| && e !in Elements()
      modifies d, this`size, this`pos
      ensures Valid() && size == old(size) + 1
      ensures Elements() == old(Elements()) + {e}
      ensures OnlyMembersMoved(old(View()) + [e], old(pos), pos)
    {
      hide SiftUp, Ordered, SameElements, ElementSet;
      ghost var h := View();
      Appended(h, pri, pos, e);
      SameElementSet(h + [e], SiftUp(h + [e], pri, |h|));
      var i := size;
      size := size + 1;
      d[i] := e;
      assert View() == h + [e];
      BubbleUp(i);
    }

    /** pqueue_change_priority. */
    method ChangePriority(v: nat, e: nat)
      requires Valid() && e in Elements()
      modifies d, this`pri, this`pos
      ensures Valid() && size == old(size) && pri == old(pri)[e := v]
      ensures Elements() == old(Elements())
      ensures OnlyMembersMoved(old(View()), old(pos), pos)
    {
      hide SiftUp, SiftDown, SameElements, Ordered;
      var was := pri[e];
      PriorityChanged(View(), pri, pos, pos[e], v);
      pri := pri[e := v];
      var i := pos[e];
      ghost var h := View();
      assert h[i] == e;
      if was > v {
        SameElementSet(h, SiftUp(h, pri, i));
        BubbleUp(i);
      } else {
        SameElementSet(h, SiftDown(h, pri, i));
        PercolateDown(i);
      }
    }

    /** pqueue_remove; the position of `e` itself is left stale. */
    method Remove(e: nat)
      requires Valid() && e in Elements()
      modifies d, this`size, this`pos
      ensures Valid() && size == old(size) - 1
      ensures Elements() == old(Elements()) - {e}
      ensures OnlyMembersMoved(old(View()), old(pos), pos)
    {
      hide SiftUp, SiftDown, SameElements, Ordered, OnlyMembersMoved;
      ghost var h := View();
      var i := pos[e];
      assert h[i] == e;
      DropElements(h, pos, i);
      DropPlaced(h, pos, i);
      size := size - 1;
      d[i] := d[size];
      assert View() == Drop(h, i);
      if i < size { CellReplaced(h, pri, i); }
      if pri[e] > pri[d[i]] {
        SameElementSet(View(), SiftUp(View(), pri, i));
        BubbleUp(i);
      } else {
        PercolateLast(i, h);
      }
      DropMembersMoved(h, i, old(pos), pos);
    }

    /** percolate_down from the cell just refilled.  If that cell was the last one it is past the end now and keeps
        its element. */
    method PercolateLast(i: nat, ghost h: seq<nat>)
      requires Shape() && 1 <= i < |h| == size + 1 <= d.Length && Wf(h, pri) && Ordered(h, pri) && Placed(h, pos)
      requires View() == Drop(h, i) && d[i] == h[|h| - 1] && pri[h[i]] <= pri[d[i]]
      modifies d, this`pos
      ensures Valid() && Elements() == ElementSet(Drop(h, i))
      ensures OnlyMembersMoved(Drop(h, i), old(pos), pos)
    {
      hide SiftDown, SameElements;
      DropPlaced(h, pos, i);
      if i < size {
        CellReplaced(h, pri, i);
        SameElementSet(View(), SiftDown(View(), pri, i));
        PercolateDown(i);
      } else {
        pos := pos[d[i] := i];
      }
    }

    /** pqueue_pop; the source answers NULL for an empty heap, here `none`. */
    method Pop() returns (none: bool, head: nat)
      requires Valid()
      modifies d, this`size, this`pos
      ensures Valid() && (none <==> old(size) == 1) && (none <==> old(Elements()) == {})
      ensures none ==> View() == old(View()) && pos == old(pos)
      ensures !none ==> size == old(size) - 1 && head in old(Elements()) && Elements() == old(Elements()) - {head}
      ensures !none ==> forall e :: e in old(Elements()) ==> pri[head] <= pri[e]
      ensures !none ==> OnlyMembersMoved(old(View()), old(pos), pos)
    {
      hide SameElements, OnlyMembersMoved;
      ghost var h := View();
      if size == 1 { return true, 0; }
      none := false;
      forall i | 1 <= i < |h| ensures pri[h[1]] <= pri[h[i]] { RootIsLeast(h, pri, i); }
      hide Ordered;
      DropElements(h, pos, 1);
      head := d[1];
      assert head in ElementSet(h);
      size := size - 1;
      d[1] := d[size];
      assert View() == Drop(h, 1);
      PercolateLast(1, h);
      DropMembersMoved(h, 1, old(pos), pos);
    }

    /** pqueue_peek; the source answers NULL for an empty heap, here 0 elements and `none`. */
    method Peek() returns (none: bool, head: nat)
      requires Valid()
      ensures none <==> Elements() == {}
      ensures !none ==> size > 1 && head < |pri| && head in Elements()
      ensures !none ==> forall e :: e in Elements() ==> pri[head] <= pri[e]
    {
      ghost var h := View();
      if size == 1 { return true, 0; }
      assert h[1] in ElementSet(h);
      forall i | 1 <= i < |h| ensures pri[h[1]] <= pri[h[i]] { RootIsLeast(h, pri, i); }
      return false, d[1];
    }
  }
}
