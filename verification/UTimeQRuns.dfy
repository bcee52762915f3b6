/** Whole runs of the time queue: any sequence of operations goes as it would on a plain list
    from which the earliest entry is taken, the first pushed among those of equal time, as long
    as the times pending together lie in one window, which moves on with them. */
module UTimeQRuns {
  import opened SiftHeap
  import opened UTimeQ

  datatype Op = PushOp(time: Word, callback: int, args: int) | PopOp | PeekOp

  datatype Result = Pushed | Full | Popped(time: Word, callback: int, args: int) | Peeked(soonest: Word) | Empty

  // ---------- The reference: pending entries in the order they were pushed ----------

  /** Less than half a period before b. */
  predicate Sooner(a: Entry, b: Entry) { a.time != b.time && Ahead(a.time, b.time) < HALF }

  /** Passes over the list and keeps the soonest so far. */
  function EarliestIndex(xs: seq<Entry>): (j: nat)
    requires xs != []
    ensures j < |xs|
  {
    if |xs| == 1 then 0
    else
      var j := EarliestIndex(xs[..|xs| - 1]);
      if Sooner(xs[|xs| - 1], xs[j]) then |xs| - 1 else j
  }

  /** In a window it finds an entry than which none is sooner, and the first of these. */
  lemma EarliestIsFirst(xs: seq<Entry>)
    requires xs != [] && HasWindow(xs)
    ensures var j := EarliestIndex(xs);
            (forall i :: 0 <= i < |xs| ==> !Sooner(xs[i], xs[j])) && (forall i :: 0 <= i < j ==> Sooner(xs[j], xs[i]))
  {
    hide Ahead, EarliestIndex, Sooner, InWindow;
    var base: Word :| InWindow(base, xs);
    InWindowIs(base, xs);
    LeastAhead(base, xs);
    var j := EarliestIndex(xs);
    forall i | 0 <= i < |xs| ensures Sooner(xs[i], xs[j]) <==> Ahead(base, xs[i].time) < Ahead(base, xs[j].time) {
      SoonerIs(base, xs[i], xs[j]);
    }
    forall i | 0 <= i < j ensures Sooner(xs[j], xs[i]) { SoonerIs(base, xs[j], xs[i]); }
  }

  lemma InWindowIs(base: Word, xs: seq<Entry>)
    requires InWindow(base, xs)
    ensures IsTick(base) && forall i :: 0 <= i < |xs| ==> IsTick(xs[i].time) && Ahead(base, xs[i].time) < HALF
  {
  }

  lemma SoonerIs(base: Word, a: Entry, b: Entry)
    requires IsTick(base) && IsTick(a.time) && IsTick(b.time)
    requires Ahead(base, a.time) < HALF && Ahead(base, b.time) < HALF
    ensures Sooner(a, b) <==> Ahead(base, a.time) < Ahead(base, b.time)
  {
    hide Ahead;
    AheadWithin(base, a.time, b.time);
  }

  /** The first of the entries that are least far ahead. */
  lemma {:induction false} LeastAhead(base: Word, xs: seq<Entry>)
    requires xs != [] && InWindow(base, xs)
    ensures var j := EarliestIndex(xs);
            && (forall i :: 0 <= i < |xs| ==> Ahead(base, xs[j].time) <= Ahead(base, xs[i].time))
            && (forall i :: 0 <= i < j ==> Ahead(base, xs[j].time) < Ahead(base, xs[i].time))
    decreases |xs|
  {
    hide Ahead, Sooner;
    if |xs| > 1 {
      var n := |xs| - 1;
      LeastAhead(base, xs[..n]);
      SoonerIs(base, xs[n], xs[EarliestIndex(xs[..n])]);
    }
  }

  datatype Pending = Pending(entries: seq<Entry>, next: nat)

  function Without<T>(xs: seq<T>, j: nat): seq<T>
    requires j < |xs|
  {
    xs[..j] + xs[j + 1..]
  }

  function RefStep(alloc: nat, p: Pending, op: Op): (Pending, Result) {
    match op
    case PushOp(time, callback, args) =>
      if |p.entries| == alloc then (p, Full)
      else (Pending(p.entries + [Entry(time, p.next % WORD, callback, args)], p.next + 1), Pushed)
    case PopOp =>
      if p.entries == [] then (p, Empty)
      else
        var j := EarliestIndex(p.entries);
        var e := p.entries[j];
        (p.(entries := Without(p.entries, j)), Popped(e.time, e.callback, e.args))
    case PeekOp => (p, if p.entries == [] then Empty else Peeked(p.entries[EarliestIndex(p.entries)].time))
  }

  function RefRun(alloc: nat, p: Pending, ops: seq<Op>): seq<Result>
    decreases |ops|
  {
    if ops == [] then []
    else var (p', r) := RefStep(alloc, p, ops[0]); [r] + RefRun(alloc, p', ops[1..])
  }

  /** Whenever an entry has been pushed, the times then pending lie in some window. */
  ghost predicate Slides(alloc: nat, p: Pending, ops: seq<Op>)
    decreases |ops|
  {
    ops != [] ==>
      var p' := RefStep(alloc, p, ops[0]).0;
      (ops[0].PushOp? ==> HasWindow(p'.entries)) && Slides(alloc, p', ops[1..])
  }

  // ---------- The heap goes as the reference ----------

  /** Ids grow in the order of pushing and none has wrapped. */
  ghost predicate InOrder(p: Pending) {
    && (forall i, j :: 0 <= i < j < |p.entries| ==> p.entries[i].id < p.entries[j].id)
    && (forall i :: 0 <= i < |p.entries| ==> p.entries[i].id < p.next)
  }

  ghost predicate Matches(items: seq<Entry>, p: Pending) {
    && multiset(items) == multiset(p.entries) && |items| == |p.entries|
    && IsHeap(TimeLessThan, items) && HasWindow(p.entries) && InOrder(p)
  }

  lemma SameElements(xs: seq<Entry>, ys: seq<Entry>)
    requires multiset(xs) == multiset(ys)
    ensures forall x :: x in xs <==> x in ys
  {
    forall x ensures x in xs <==> x in ys {
      assert x in xs <==> x in multiset(xs);
      assert x in ys <==> x in multiset(ys);
    }
  }

  lemma WindowOfSame(base: Word, xs: seq<Entry>, ys: seq<Entry>)
    requires InWindow(base, xs) && forall y :: y in ys ==> y in xs
    ensures InWindow(base, ys)
  {
    hide Ahead;
    forall i | 0 <= i < |ys| ensures IsTick(ys[i].time) && Ahead(base, ys[i].time) < HALF {
      assert ys[i] in xs;
    }
  }

  lemma InOrderIsDistinct(p: Pending)
    requires InOrder(p)
    ensures DistinctIds(p.entries)
  {
    hide InOrder, Without;
    var xs := p.entries;
    IdsGrow(p);
    forall e: Entry | e in multiset(xs)
      ensures multiset(xs)[e] == 1 && forall f: Entry <- multiset(xs) :: f.id == e.id ==> f == e
    {
      var i :| 0 <= i < |xs| && xs[i] == e;
      OnceAt(xs, i);
      forall f: Entry | f in multiset(xs) && f.id == e.id ensures f == e { OnlyOneWith(xs, e, f); }
    }
  }

  lemma OnlyOneWith(xs: seq<Entry>, e: Entry, f: Entry)
    requires e in xs && f in xs && e.id == f.id && forall j, k :: 0 <= j < k < |xs| ==> xs[j].id < xs[k].id
    ensures e == f
  {
    var i :| 0 <= i < |xs| && xs[i] == e;
    var j :| 0 <= j < |xs| && xs[j] == f;
  }

  lemma OnceAt(xs: seq<Entry>, i: nat)
    requires i < |xs| && forall j, k :: 0 <= j < k < |xs| ==> xs[j].id < xs[k].id
    ensures multiset(xs)[xs[i]] == 1 && multiset(Without(xs, i)) == multiset(xs) - multiset{xs[i]}
  {
    assert xs == xs[..i] + [xs[i]] + xs[i + 1..];
    assert xs[i] !in xs[..i] && xs[i] !in xs[i + 1..];
    assert multiset(xs) == multiset(xs[..i]) + multiset{xs[i]} + multiset(xs[i + 1..]);
  }

  /** The entry popped is the one the reference takes. */
  lemma TopIsEarliest(base: Word, was: seq<Entry>, after: seq<Entry>, p: Pending)
    requires was != [] && Matches(was, p) && multiset(after) == multiset(was) - multiset{was[0]}
    requires InWindow(base, p.entries) && forall y <- after :: Earlier(base, was[0], y)
    ensures p.entries != [] && was[0] == p.entries[EarliestIndex(p.entries)]
  {
    hide Ahead, IsHeap, InWindow, EarliestIndex, Earlier, InOrder, Without;
    var xs := p.entries;
    IdsGrow(p);
    SameElements(was, xs);
    assert was[0] in xs;
    var k :| 0 <= k < |xs| && xs[k] == was[0];
    OnceAt(xs, k);
    OthersStay(xs, k, after);
    forall i | 0 <= i < |xs| && i != k ensures Earlier(base, xs[k], xs[i]) { assert xs[i] in after; }
    OnlyEarliest(base, xs, k);
  }

  lemma OthersStay(xs: seq<Entry>, k: nat, after: seq<Entry>)
    requires k < |xs| && multiset(after) == multiset(Without(xs, k))
    ensures forall i :: 0 <= i < |xs| && i != k ==> xs[i] in after
  {
    SameElements(after, Without(xs, k));
    forall i | 0 <= i < |xs| && i != k ensures xs[i] in after {
      assert Without(xs, k)[if i < k then i else i - 1] == xs[i];
    }
  }

  predicate NotBefore(base: Word, xs: seq<Entry>, k: nat, i: nat)
    requires k < |xs| && i < |xs|
  {
    && Ahead(base, xs[k].time) <= Ahead(base, xs[i].time)
    && (Ahead(base, xs[k].time) == Ahead(base, xs[i].time) ==> k <= i)
  }

  /** With ids that grow, the entry earlier than all others is the one the reference takes. */
  lemma OnlyEarliest(base: Word, xs: seq<Entry>, k: nat)
    requires k < |xs| && InWindow(base, xs)
    requires forall i :: 0 <= i < |xs| && i != k ==> Earlier(base, xs[k], xs[i])
    requires forall i, j :: 0 <= i < j < |xs| ==> xs[i].id < xs[j].id
    ensures EarliestIndex(xs) == k
  {
    hide Ahead, EarliestIndex, InWindow;
    LeastAhead(base, xs);
    var j := EarliestIndex(xs);
    forall i | 0 <= i < |xs| ensures NotBefore(base, xs, k, i) {
      if i != k { assert Earlier(base, xs[k], xs[i]); }
    }
    assert NotBefore(base, xs, k, j);
  }

  lemma PushMatches(items: seq<Entry>, after: seq<Entry>, p: Pending, e: Entry)
    requires Matches(items, p) && multiset(after) == multiset(items + [e]) && IsHeap(TimeLessThan, after)
    requires |after| == |items| + 1 && e.id == p.next && HasWindow(p.entries + [e])
    ensures Matches(after, Pending(p.entries + [e], p.next + 1))
  {
    hide HasWindow, IsHeap;
    assert multiset(items + [e]) == multiset(items) + multiset{e};
    assert multiset(p.entries + [e]) == multiset(p.entries) + multiset{e};
  }

  lemma PopMatches(base: Word, was: seq<Entry>, after: seq<Entry>, p: Pending)
    requires was != [] && Matches(was, p) && multiset(after) == multiset(was) - multiset{was[0]}
    requires |after| == |was| - 1 && IsHeap(TimeLessThan, after) && InWindow(base, p.entries)
    requires forall y <- after :: Earlier(base, was[0], y)
    ensures p.entries != [] && was[0] == p.entries[EarliestIndex(p.entries)]
    ensures Matches(after, p.(entries := Without(p.entries, EarliestIndex(p.entries))))
  {
    hide Ahead, IsHeap, EarliestIndex, Earlier, InWindow, InOrder;
    TopIsEarliest(base, was, after, p);
    var xs, j := p.entries, EarliestIndex(p.entries);
    IdsGrow(p);
    OnceAt(xs, j);
    WithoutKeeps(base, p, j);
  }

  lemma IdsGrow(p: Pending)
    requires InOrder(p)
    ensures forall i, j :: 0 <= i < j < |p.entries| ==> p.entries[i].id < p.entries[j].id
  {
  }

  lemma WithoutKeeps(base: Word, p: Pending, j: nat)
    requires j < |p.entries| && InWindow(base, p.entries) && InOrder(p)
    ensures InWindow(base, Without(p.entries, j)) && InOrder(p.(entries := Without(p.entries, j)))
  {
    hide Ahead;
    var xs, ys := p.entries, Without(p.entries, j);
    assert forall i :: 0 <= i < |ys| ==> ys[i] == xs[if i < j then i else i + 1];
  }

  lemma PendingWindow(base: Word, items: seq<Entry>, p: Pending)
    requires Matches(items, p) && InWindow(base, p.entries)
    ensures InWindow(base, items) && DistinctIds(items)
  {
    hide InWindow, IsHeap, DistinctIds;
    SameElements(items, p.entries);
    WindowOfSame(base, p.entries, items);
    InOrderIsDistinct(p);
    DistinctOfSame(items, p.entries);
  }

  lemma DistinctOfSame(xs: seq<Entry>, ys: seq<Entry>)
    requires multiset(xs) == multiset(ys) && DistinctIds(ys)
    ensures DistinctIds(xs)
  {
  }

  lemma WindowAfterPush(items: seq<Entry>, p: Pending, e: Entry)
    requires multiset(items) == multiset(p.entries) && HasWindow(p.entries + [e])
    ensures HasWindow(items + [e])
  {
    hide InWindow;
    var base: Word :| InWindow(base, p.entries + [e]);
    SameElements(items, p.entries);
    WindowOfSame(base, p.entries + [e], items + [e]);
  }

  method PerformPush(q: TimeQueue, ids: IdCounter, op: Op, ghost p: Pending) returns (r: Result)
    requires q.Valid() && Matches(q.items, p) && ids.next == p.next < WORD - 1
    requires op.PushOp? && HasWindow(RefStep(q.alloc, p, op).0.entries)
    modifies q`items, ids
    ensures q.Valid()
    ensures var (p', r') := RefStep(q.alloc, p, op);
            r == r' && Matches(q.items, p') && ids.next == p'.next <= p.next + 1
  {
    hide HasWindow, DistinctIds, InOrder, EarliestIndex;
    ghost var was := q.items;
    ghost var e := Entry(op.time, ids.next, op.callback, op.args);
    if |q.items| < q.alloc { WindowAfterPush(q.items, p, e); }
    var o := q.HeapPush(ids, op.time, op.callback, op.args);
    if o != Done { return Full; }
    PushMatches(was, q.items, p, e);
    return Pushed;
  }

  method PerformPop(q: TimeQueue, ret: ResultList, ghost p: Pending) returns (r: Result)
    requires q.Valid() && |ret.items| == 3 && Matches(q.items, p)
    modifies q`items, ret
    ensures q.Valid() && |ret.items| == 3
    ensures var (p', r') := RefStep(q.alloc, p, PopOp); r == r' && Matches(q.items, p') && p'.next == p.next
  {
    hide Ahead, InWindow, DistinctIds, InOrder, EarliestIndex, Earlier;
    ghost var base: Word :| InWindow(base, p.entries);
    PendingWindow(base, q.items, p);
    ghost var was := q.items;
    var o := q.HeapPop(ret);
    if o != Done { return Empty; }
    PopMatches(base, was, q.items, p);
    return Popped(ret.items[0], ret.items[1], ret.items[2]);
  }

  /** The time peeked is the reference's. */
  lemma TopTime(base: Word, items: seq<Entry>, p: Pending)
    requires items != [] && Matches(items, p) && InWindow(base, p.entries)
    requires forall y <- items :: Ahead(base, items[0].time) <= Ahead(base, y.time)
    ensures p.entries != [] && items[0].time == p.entries[EarliestIndex(p.entries)].time
  {
    hide Ahead, InWindow, InOrder, EarliestIndex, IsHeap;
    var xs := p.entries;
    SameElements(items, xs);
    assert items[0] in xs;
    LeastAhead(base, xs);
    var i, j: nat := 0, EarliestIndex(xs);
    i :| 0 <= i < |xs| && xs[i] == items[0];
    assert xs[j] in items;
    InWindowIs(base, xs);
    SameAhead(base, xs[i].time, xs[j].time);
  }

  method PerformPeek(q: TimeQueue, ghost p: Pending) returns (r: Result)
    requires q.Valid() && Matches(q.items, p)
    ensures r == RefStep(q.alloc, p, PeekOp).1
  {
    hide Ahead, InWindow, DistinctIds, InOrder, EarliestIndex, IsHeap;
    ghost var base: Word :| InWindow(base, p.entries);
    PendingWindow(base, q.items, p);
    var o, time := q.PeekTime();
    if o != Done { return Empty; }
    TopTime(base, q.items, p);
    return Peeked(time);
  }

  method PerformOp(q: TimeQueue, ids: IdCounter, ret: ResultList, op: Op, ghost p: Pending) returns (r: Result)
    requires q.Valid() && |ret.items| == 3 && Matches(q.items, p) && ids.next == p.next < WORD - 1
    requires op.PushOp? ==> HasWindow(RefStep(q.alloc, p, op).0.entries)
    modifies q`items, ids, ret
    ensures q.Valid() && |ret.items| == 3
    ensures var (p', r') := RefStep(q.alloc, p, op);
            r == r' && Matches(q.items, p') && ids.next == p'.next <= p.next + 1
  {
    hide Matches, HasWindow, EarliestIndex;
    match op
    case PushOp(_, _, _) => r := PerformPush(q, ids, op, p);
    case PopOp => r := PerformPop(q, ret, p);
    case PeekOp => r := PerformPeek(q, p);
  }

  /** A queue that starts empty gives, operation by operation, what the reference gives. */
  method RunOps(q: TimeQueue, ids: IdCounter, ops: seq<Op>) returns (results: seq<Result>)
    requires q.Valid() && q.items == [] && ids.next + |ops| < WORD && Slides(q.alloc, Pending([], ids.next), ops)
    modifies q`items, ids
    ensures results == RefRun(q.alloc, Pending([], old(ids.next)), ops)
  {
    hide RefStep, Matches, HasWindow;
    var ret := new ResultList([0, 0, 0]);
    ghost var p := Pending([], ids.next);
    ghost var whole := RefRun(q.alloc, p, ops);
    NothingPending(p);
    results := [];
    for k := 0 to |ops|
      invariant q.Valid() && |ret.items| == 3 && ids.next == p.next <= old(ids.next) + k
      invariant Matches(q.items, p) && Slides(q.alloc, p, ops[k..])
      invariant results + RefRun(q.alloc, p, ops[k..]) == whole
    {
      assert ops[k..][0] == ops[k] && ops[k..][1..] == ops[k + 1..];
      var r := PerformOp(q, ids, ret, ops[k], p);
      p := RefStep(q.alloc, p, ops[k]).0;
      results := results + [r];
    }
  }

  lemma NothingPending(p: Pending)
    requires p.entries == []
    ensures Matches([], p)
  {
    assert InWindow(0, []);
  }
}
