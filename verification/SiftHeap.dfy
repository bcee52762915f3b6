/** The binary-heap steps that heapq and the time queue share: sift towards the root, and
    sift to a leaf and back up. The list is a sequence the loops update cell by cell. */
module SiftHeap {

  type Less<!T> = (T, T) -> bool

  function Parent(i: nat): nat
    requires i > 0
  {
    (i - 1) / 2
  }

  /** less is a strict weak order on the elements of xs. */
  ghost predicate Orders<T>(less: Less<T>, xs: seq<T>) {
    && (forall i :: 0 <= i < |xs| ==> !less(xs[i], xs[i]))
    && (forall i, j :: 0 <= i < |xs| && 0 <= j < |xs| && less(xs[i], xs[j]) ==> !less(xs[j], xs[i]))
    && (forall i, j, k :: 0 <= i < |xs| && 0 <= j < |xs| && 0 <= k < |xs| && less(xs[i], xs[k]) ==>
          less(xs[i], xs[j]) || less(xs[j], xs[k]))
  }

  /** No element whose parent stands at s or later is less than its parent. */
  ghost predicate HeapFrom<T>(less: Less<T>, xs: seq<T>, s: nat) { HeapFromBut(less, xs, s, 0) }

  /** The same, leaving out position skip (0 has no parent to compare with). */
  ghost predicate HeapFromBut<T>(less: Less<T>, xs: seq<T>, s: nat, skip: nat) {
    forall c: nat :: 0 < c < |xs| && s <= Parent(c) && c != skip ==> !less(xs[c], xs[Parent(c)])
  }

  ghost predicate IsHeap<T>(less: Less<T>, xs: seq<T>) { HeapFrom(less, xs, 0) }

  /** p is s or lies below it in the tree. */
  ghost predicate Below(s: nat, p: nat)
    decreases p
  {
    p == s || (p > s && Below(s, Parent(p)))
  }

  predicate IsLeaf<T>(xs: seq<T>, p: nat) { 2 * p + 1 >= |xs| }

  lemma BelowChild(s: nat, p: nat, c: nat)
    requires Below(s, p) && (c == 2 * p + 1 || c == 2 * p + 2)
    ensures Below(s, c) && Parent(c) == p
  {
    BelowIsLater(s, p);
  }

  lemma {:induction false} BelowIsLater(s: nat, p: nat)
    requires Below(s, p)
    ensures s <= p
  {
  }

  /** The top of a heap is a least element. */
  lemma {:induction false} TopIsLeast<T>(less: Less<T>, xs: seq<T>, i: nat)
    requires IsHeap(less, xs) && Orders(less, xs) && i < |xs|
    ensures !less(xs[i], xs[0])
    decreases i
  {
    if i > 0 { TopIsLeast(less, xs, Parent(i)); }
  }

  // ---------- Updates keep the elements ----------

  /** xs with item in the hole is a rearrangement of was. */
  ghost predicate Rearranges<T>(xs: seq<T>, hole: nat, item: T, was: seq<T>) {
    && |xs| == |was| && hole < |xs|
    && multiset(xs[hole := item]) == multiset(was)
    && (forall i :: 0 <= i < |xs| ==> xs[i] in was)
    && item in was
  }

  /** Copying a cell into the hole moves the hole there. */
  lemma HoleMoves<T>(xs: seq<T>, hole: nat, from: nat, item: T, was: seq<T>)
    requires Rearranges(xs, hole, item, was) && from < |xs|
    ensures Rearranges(xs[hole := xs[from]], from, item, was)
  {
    var ys := xs[hole := xs[from]];
    assert ys[from := item] == xs[hole := item][hole := xs[from]][from := item] by {
      if hole == from { assert ys[from := item] == xs[hole := item]; }
    }
    if hole != from {
      var zs := xs[hole := item];
      assert zs[from] == xs[from];
      assert ys[from := item] == zs[hole := zs[from]][from := zs[hole]];
      SwapKeeps(zs, hole, from);
    }
  }

  lemma SwapKeeps<T>(zs: seq<T>, i: nat, j: nat)
    requires i < |zs| && j < |zs|
    ensures multiset(zs[i := zs[j]][j := zs[i]]) == multiset(zs)
  {
  }

  // ---------- Sift towards the root ----------

  method SiftDown<T(==)>(less: Less<T>, xs: seq<T>, start: nat, pos0: nat) returns (ys: seq<T>)
    requires start <= pos0 < |xs|
    ensures |ys| == |xs| && multiset(ys) == multiset(xs)
    ensures Orders(less, xs) && Below(start, pos0) && IsLeaf(xs, pos0) && HeapFromBut(less, xs, start, pos0) ==>
              HeapFrom(less, ys, start)
  {
    hide Orders, Rearranges, HeapFromBut, Below, IsLeaf;
    var pos := pos0;
    var item := xs[pos];
    ys := xs;
    ghost var good := Orders(less, xs) && Below(start, pos0) && IsLeaf(xs, pos0) && HeapFromBut(less, xs, start, pos0);
    StartsRearranged(xs, pos);
    assert good ==> Rising(less, xs, ys, start, pos0, pos, item) by { if good { StartsRising(less, xs, start, pos0); } }
    while pos > start
      invariant pos < |ys| && pos <= pos0
      invariant Rearranges(ys, pos, item, xs)
      invariant good ==> Rising(less, xs, ys, start, pos0, pos, item)
    {
      var parent := Parent(pos);
      if less(item, ys[parent]) {
        HoleMoves(ys, pos, parent, item, xs);
        if good { RisesTo(less, xs, ys, start, pos0, pos, item); }
        ys := ys[pos := ys[parent]];
        pos := parent;
        HoleInRange(ys, pos, item, xs);
      } else {
        break;
      }
    }
    if good { RiseEnds(less, xs, ys, start, pos0, pos, item); }
    FillsHole(ys, pos, item, xs);
    ys := ys[pos := item];
  }

  lemma StartsRearranged<T>(xs: seq<T>, pos: nat)
    requires pos < |xs|
    ensures Rearranges(xs, pos, xs[pos], xs)
  {
    assert xs[pos := xs[pos]] == xs;
  }

  lemma HoleInRange<T>(ys: seq<T>, pos: nat, item: T, xs: seq<T>)
    requires Rearranges(ys, pos, item, xs)
    ensures pos < |ys| == |xs|
  {
  }

  lemma FillsHole<T>(ys: seq<T>, pos: nat, item: T, xs: seq<T>)
    requires Rearranges(ys, pos, item, xs)
    ensures |ys| == |xs| && multiset(ys[pos := item]) == multiset(xs)
  {
  }

  /** While the hole rises every edge is in order, but for the one above the starting leaf
      until it is first moved; item is less than what the hole held. */
  ghost predicate Rising<T>(less: Less<T>, xs: seq<T>, ys: seq<T>, start: nat, pos0: nat, pos: nat, item: T) {
    && Orders(less, xs) && |ys| == |xs| && pos < |ys| && item in xs
    && (forall i :: 0 <= i < |ys| ==> ys[i] in xs)
    && Below(start, pos)
    && (if pos == pos0 then ys[pos] == item && IsLeaf(ys, pos) && HeapFromBut(less, ys, start, pos)
        else HeapFrom(less, ys, start) && less(item, ys[pos]))
  }

  lemma StartsRising<T>(less: Less<T>, xs: seq<T>, start: nat, pos0: nat)
    requires pos0 < |xs| && Orders(less, xs) && Below(start, pos0) && IsLeaf(xs, pos0) &&
             HeapFromBut(less, xs, start, pos0)
    ensures Rising(less, xs, xs, start, pos0, pos0, xs[pos0])
  {
  }

  /** Orders on xs, stated for elements rather than positions. */
  lemma OrdersElements<T>(less: Less<T>, xs: seq<T>, x: T, y: T, z: T)
    requires Orders(less, xs) && x in xs && y in xs && z in xs
    ensures !less(x, x)
    ensures less(x, y) ==> !less(y, x)
    ensures !less(x, y) && !less(y, z) ==> !less(x, z)
    ensures less(y, z) && !less(x, z) ==> !less(x, y)
  {
    var i :| 0 <= i < |xs| && xs[i] == x;
    var j :| 0 <= j < |xs| && xs[j] == y;
    var k :| 0 <= k < |xs| && xs[k] == z;
  }

  lemma RisesTo<T>(less: Less<T>, xs: seq<T>, ys: seq<T>, start: nat, pos0: nat, pos: nat, item: T)
    requires Rising(less, xs, ys, start, pos0, pos, item) && pos > start && less(item, ys[Parent(pos)])
    requires pos0 >= pos
    ensures Rising(less, xs, ys[pos := ys[Parent(pos)]], start, pos0, Parent(pos), item)
  {
    hide Orders;
    var parent := Parent(pos);
    BelowIsLater(start, parent);
    var zs := ys[pos := ys[parent]];
    forall c: nat | 0 < c < |zs| && start <= Parent(c) ensures !less(zs[c], zs[Parent(c)]) {
      if c == pos {
        OrdersElements(less, xs, ys[parent], ys[parent], ys[parent]);
      } else if Parent(c) == pos {
        OrdersElements(less, xs, ys[c], ys[pos], ys[parent]);
      }
    }
  }

  lemma RiseEnds<T>(less: Less<T>, xs: seq<T>, ys: seq<T>, start: nat, pos0: nat, pos: nat, item: T)
    requires Rising(less, xs, ys, start, pos0, pos, item)
    requires pos <= start || !less(item, ys[Parent(pos)])
    ensures HeapFrom(less, ys[pos := item], start)
  {
    hide Orders;
    BelowIsLater(start, pos);
    var zs := ys[pos := item];
    forall c: nat | 0 < c < |zs| && start <= Parent(c) ensures !less(zs[c], zs[Parent(c)]) {
      if Parent(c) == pos { OrdersElements(less, xs, ys[c], item, ys[pos]); }
    }
  }

  // ---------- Sift to a leaf, then towards the root ----------

  /** While the hole sinks from start, every edge below start is in order, and those at
      start too once the hole has moved. */
  ghost predicate Sinking<T>(less: Less<T>, xs: seq<T>, ys: seq<T>, start: nat, pos: nat) {
    && Orders(less, xs) && |ys| == |xs| && pos < |ys|
    && (forall i :: 0 <= i < |ys| ==> ys[i] in xs)
    && Below(start, pos)
    && HeapFrom(less, ys, if pos == start then start + 1 else start)
  }

  /** child is the child of pos to move up. */
  predicate SmallerChild<T(!new)>(less: Less<T>, ys: seq<T>, pos: nat, child: nat) {
    && pos < |ys| && child < |ys|
    && (|| (child == 2 * pos + 1 && (child + 1 < |ys| ==> less(ys[child], ys[child + 1])))
        || (child == 2 * pos + 2 && !less(ys[child - 1], ys[child])))
  }

  lemma SinksTo<T(!new)>(less: Less<T>, xs: seq<T>, ys: seq<T>, start: nat, pos: nat, child: nat)
    requires Sinking(less, xs, ys, start, pos) && SmallerChild(less, ys, pos, child)
    ensures Sinking(less, xs, ys[pos := ys[child]], start, child)
  {
    hide Orders;
    BelowChild(start, pos, child);
    BelowIsLater(start, pos);
    var zs := ys[pos := ys[child]];
    forall c: nat | 0 < c < |zs| && start <= Parent(c) ensures !less(zs[c], zs[Parent(c)]) {
      if c == pos {
        OrdersElements(less, xs, ys[child], ys[pos], ys[Parent(pos)]);
      } else if Parent(c) == pos {
        OrdersElements(less, xs, ys[c], ys[child], ys[child]);
      }
    }
  }

  lemma SinkEnds<T>(less: Less<T>, xs: seq<T>, ys: seq<T>, start: nat, pos: nat, item: T)
    requires Sinking(less, xs, ys, start, pos) && IsLeaf(ys, pos) && item in xs
    ensures var zs := ys[pos := item];
            Orders(less, zs) && IsLeaf(zs, pos) && HeapFromBut(less, zs, start, pos)
  {
    hide Orders;
    OrdersSubset(less, xs, ys[pos := item]);
  }

  lemma OrdersSubset<T>(less: Less<T>, xs: seq<T>, ys: seq<T>)
    requires Orders(less, xs) && forall i :: 0 <= i < |ys| ==> ys[i] in xs
    ensures Orders(less, ys)
  {
    hide Orders;
    forall i, j, k | 0 <= i < |ys| && 0 <= j < |ys| && 0 <= k < |ys|
      ensures !less(ys[i], ys[i]) && (less(ys[i], ys[j]) ==> !less(ys[j], ys[i]))
      ensures less(ys[i], ys[k]) ==> less(ys[i], ys[j]) || less(ys[j], ys[k])
    {
      OrdersElements(less, xs, ys[i], ys[j], ys[k]);
    }
    OrdersIntro(less, ys);
  }

  lemma OrdersIntro<T>(less: Less<T>, ys: seq<T>)
    requires forall i, j, k :: 0 <= i < |ys| && 0 <= j < |ys| && 0 <= k < |ys| ==>
               && !less(ys[i], ys[i]) && (less(ys[i], ys[j]) ==> !less(ys[j], ys[i]))
               && (less(ys[i], ys[k]) ==> less(ys[i], ys[j]) || less(ys[j], ys[k]))
    ensures Orders(less, ys)
  {
  }

  method SiftUp<T(==,!new)>(less: Less<T>, xs: seq<T>, start: nat) returns (ys: seq<T>)
    requires start < |xs|
    ensures |ys| == |xs| && multiset(ys) == multiset(xs)
    ensures Orders(less, xs) && HeapFrom(less, xs, start + 1) ==> HeapFrom(less, ys, start)
  {
    hide Orders, Rearranges, HeapFromBut, HeapFrom, Below;
    var pos := start;
    var item := xs[pos];
    ys := xs;
    ghost var good := Orders(less, xs) && HeapFrom(less, xs, start + 1);
    StartsRearranged(xs, pos);
    BelowItself(start);
    var child := 2 * pos + 1;
    while child < |ys|
      invariant pos < |ys| && child == 2 * pos + 1
      invariant start <= pos
      invariant Rearranges(ys, pos, item, xs)
      invariant good ==> Sinking(less, xs, ys, start, pos)
      decreases |ys| - pos
    {
      if child + 1 < |ys| && !less(ys[child], ys[child + 1]) {
        child := child + 1;
      }
      HoleMoves(ys, pos, child, item, xs);
      if good { SinksTo(less, xs, ys, start, pos, child); }
      ys := ys[pos := ys[child]];
      pos := child;
      HoleInRange(ys, pos, item, xs);
      child := 2 * pos + 1;
    }
    FillsHole(ys, pos, item, xs);
    ItemIsOld(ys, pos, item, xs);
    if good { SinkEnds(less, xs, ys, start, pos, item); }
    ys := ys[pos := item];
    ghost var below := good ==> Below(start, pos);
    ys := SiftDown(less, ys, start, pos);
  }

  lemma ItemIsOld<T>(ys: seq<T>, pos: nat, item: T, xs: seq<T>)
    requires Rearranges(ys, pos, item, xs)
    ensures item in xs
  {
  }

  lemma BelowItself(s: nat)
    ensures Below(s, s)
  {
  }

  /** Two arrangements of the same elements are ordered by the same functions. */
  lemma OrdersRearranged<T>(less: Less<T>, xs: seq<T>, ys: seq<T>)
    requires Orders(less, xs) && multiset(ys) == multiset(xs)
    ensures Orders(less, ys)
  {
    forall i | 0 <= i < |ys| ensures ys[i] in xs { assert ys[i] in multiset(ys); }
    OrdersSubset(less, xs, ys);
  }

  lemma LeavesAreHeap<T>(less: Less<T>, xs: seq<T>, s: nat)
    requires 2 * s + 1 >= |xs|
    ensures HeapFrom(less, xs, s)
  {
  }

  method Heapify<T(==,!new)>(less: Less<T>, xs: seq<T>) returns (ys: seq<T>)
    ensures multiset(ys) == multiset(xs)
    ensures Orders(less, xs) ==> IsHeap(less, ys)
  {
    hide Orders, HeapFrom;
    ys := xs;
    var i := |ys| / 2;
    LeavesAreHeap(less, ys, i);
    while i > 0
      invariant 0 <= i && |ys| == |xs| && i <= |xs| / 2
      invariant multiset(ys) == multiset(xs)
      invariant Orders(less, xs) ==> HeapFrom(less, ys, i)
    {
      i := i - 1;
      if Orders(less, xs) { OrdersRearranged(less, xs, ys); }
      ys := SiftUp(less, ys, i);
    }
  }

  method Push<T(==,!new)>(less: Less<T>, xs: seq<T>, x: T) returns (ys: seq<T>)
    ensures multiset(ys) == multiset(xs + [x]) && |ys| == |xs| + 1
    ensures Orders(less, xs + [x]) && IsHeap(less, xs) ==> IsHeap(less, ys)
  {
    hide Orders;
    ys := xs + [x];
    BelowRoot(|xs|);
    ys := SiftDown(less, ys, 0, |ys| - 1);
  }

  lemma {:induction false} BelowRoot(p: nat)
    ensures Below(0, p)
  {
    if p > 0 { BelowRoot(Parent(p)); }
  }

  /** The top and the heap without it. */
  method Pop<T(==,!new)>(less: Less<T>, xs: seq<T>) returns (top: T, ys: seq<T>)
    requires xs != []
    ensures top == xs[0] && multiset(ys) == multiset(xs) - multiset{top} && |ys| == |xs| - 1
    ensures Orders(less, xs) && IsHeap(less, xs) ==> IsHeap(less, ys)
    ensures Orders(less, xs) && IsHeap(less, xs) ==> forall y <- ys :: !less(y, top)
  {
    hide Orders, HeapFromBut;
    top := xs[0];
    ys := xs[..|xs| - 1];
    LastToTop(xs);
    if |ys| > 0 {
      ys := ys[0 := xs[|xs| - 1]];
      if Orders(less, xs) && IsHeap(less, xs) {
        MovedTop(less, xs, ys);
      }
      ys := SiftUp(less, ys, 0);
    } else {
      LeavesAreHeap(less, ys, 0);
    }
    if Orders(less, xs) && IsHeap(less, xs) {
      forall y <- ys ensures !less(y, top) {
        assert y in multiset(ys) && y in multiset(xs);
        var i: nat :| i < |xs| && xs[i] == y;
        TopIsLeast(less, xs, i);
      }
    }
  }

  lemma LastToTop<T>(xs: seq<T>)
    requires xs != []
    ensures var ys := xs[..|xs| - 1];
            if ys == [] then multiset(ys) == multiset(xs) - multiset{xs[0]}
            else multiset(ys[0 := xs[|xs| - 1]]) == multiset(xs) - multiset{xs[0]}
  {
    var ys := xs[..|xs| - 1];
    assert xs == ys + [xs[|xs| - 1]];
  }

  lemma MovedTop<T>(less: Less<T>, xs: seq<T>, ys: seq<T>)
    requires |xs| > 1 && ys == xs[..|xs| - 1][0 := xs[|xs| - 1]]
    requires Orders(less, xs) && IsHeap(less, xs)
    ensures Orders(less, ys) && HeapFrom(less, ys, 1)
  {
    hide Orders;
    forall i | 0 <= i < |ys| ensures ys[i] in xs { }
    OrdersSubset(less, xs, ys);
  }
}
