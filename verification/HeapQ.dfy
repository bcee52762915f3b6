/** The heapq module: a list kept as a binary heap under the elements' own less-than. */
module HeapQ {
  import opened SiftHeap

  datatype Popped<T> = Popped(item: T) | IndexError(message: string)

  ghost predicate Sorted<T>(less: Less<T>, xs: seq<T>) {
    forall i, j :: 0 <= i < j < |xs| ==> !less(xs[j], xs[i])
  }

  class HeapList<T(==,!new)> {
    const less: Less<T>
    var items: seq<T>

    /** A heap, under an ordering that is one on the items present. */
    ghost predicate IsOrderedHeap()
      reads this`items
    {
      Orders(less, items) && IsHeap(less, items)
    }

    constructor (less: Less<T>, items: seq<T>)
      ensures this.less == less && this.items == items
    {
      this.less := less;
      this.items := items;
    }

    method HeapPush(item: T)
      modifies this`items
      ensures multiset(items) == multiset(old(items) + [item])
      ensures old(IsOrderedHeap()) && Orders(less, old(items) + [item]) ==> IsOrderedHeap()
    {
      hide Orders, IsHeap;
      ghost var before := items;
      items := Push(less, items, item);
      if Orders(less, before + [item]) { OrdersRearranged(less, before + [item], items); }
    }

    method HeapPop() returns (r: Popped<T>)
      modifies this`items
      ensures old(items) == [] ==> r == IndexError("empty heap") && items == []
      ensures old(items) != [] ==> r == Popped(old(items)[0]) && |items| == |old(items)| - 1
      ensures r.Popped? ==> multiset(items) == multiset(old(items)) - multiset{r.item}
      ensures r.Popped? && old(IsOrderedHeap()) ==> IsOrderedHeap() && forall y <- items :: !less(y, r.item)
    {
      hide Orders, IsHeap;
      if |items| == 0 { return IndexError("empty heap"); }
      ghost var before := items;
      var top;
      top, items := Pop(less, items);
      if Orders(less, before) { OrdersFewer(less, before, items); }
      return Popped(top);
    }

    method HeapifyAll()
      modifies this`items
      ensures multiset(items) == multiset(old(items))
      ensures Orders(less, old(items)) ==> IsOrderedHeap()
    {
      hide Orders, IsHeap;
      ghost var before := items;
      items := Heapify(less, items);
      if Orders(less, before) { OrdersRearranged(less, before, items); }
    }

    /** Heapify, then pop until empty: a sorted rearrangement of any list. */
    method HeapSort() returns (out: seq<T>)
      modifies this`items
      ensures items == [] && multiset(out) == multiset(old(items))
      ensures Orders(less, old(items)) ==> Sorted(less, out)
    {
      hide Orders, IsHeap;
      ghost var all := items;
      HeapifyAll();
      out := [];
      while items != []
        invariant multiset(out) + multiset(items) == multiset(all)
        invariant Orders(less, all) ==> IsOrderedHeap() && Sorted(less, out)
        invariant Orders(less, all) ==> forall x <- out, y <- items :: !less(y, x)
        decreases |items|
      {
        ghost var before := items;
        var r := HeapPop();
        StillBelow(out, before, items, r.item);
        out := out + [r.item];
      }
    }
  }

  lemma OrdersFewer<T>(less: Less<T>, xs: seq<T>, ys: seq<T>)
    requires Orders(less, xs) && multiset(ys) <= multiset(xs)
    ensures Orders(less, ys)
  {
    forall i | 0 <= i < |ys| ensures ys[i] in xs { assert ys[i] in multiset(ys); }
    OrdersSubset(less, xs, ys);
  }

  /** What is left was there before, and so was what was popped. */
  lemma StillBelow<T>(out: seq<T>, before: seq<T>, after: seq<T>, popped: T)
    requires multiset(after) == multiset(before) - multiset{popped} && popped in before
    ensures forall y <- after :: y in before
    ensures multiset(out + [popped]) + multiset(after) == multiset(out) + multiset(before)
  {
    forall y <- after ensures y in before { assert y in multiset(after); }
    assert popped in multiset(before);
  }
}
