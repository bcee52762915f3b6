/** The time queue: a bounded heap ordered by a comparison on a ring of ticks. */
module UTimeQ {
  import opened SiftHeap
  import opened Arithmetic

  const WORD := 0x1_0000_0000
  /** MICROPY_PY_UTIME_TICKS_PERIOD on a 32-bit machine. */
  const PERIOD := 0x4000_0000
  const HALF := 0x2000_0000

  type Word = w: int | 0 <= w < 0x1_0000_0000

  datatype Entry = Entry(time: Word, id: Word, callback: int, args: int)

  function TimeLessThan(item: Entry, parent: Entry): bool {
    var res := (parent.time - item.time) % WORD;
    if res == 0 then item.id < parent.id
    else
      var ring := if res >= WORD / 2 then (res + PERIOD) % WORD else res;
      ring != 0 && ring < HALF
  }

  // ---------- When the comparison is an order ----------

  predicate IsTick(t: Word) { t < PERIOD }

  /** How far t lies after base on the ring. */
  function Ahead(base: Word, t: Word): nat { (t - base) % PERIOD }

  /** All times are ticks less than half a period after base. */
  ghost predicate InWindow(base: Word, xs: seq<Entry>) {
    IsTick(base) && forall i :: 0 <= i < |xs| ==> IsTick(xs[i].time) && Ahead(base, xs[i].time) < HALF
  }

  /** Some window holds all times. */
  ghost predicate HasWindow(xs: seq<Entry>) { exists base: Word :: InWindow(base, xs) }

  ghost predicate Ticks(xs: seq<Entry>) { forall i :: 0 <= i < |xs| ==> IsTick(xs[i].time) }

  /** No two entries share an id. */
  ghost predicate DistinctIds(xs: seq<Entry>) {
    var m := multiset(xs);
    forall e <- m :: m[e] == 1 && forall f <- m :: f.id == e.id ==> f == e
  }

  /** The ids are distinct and all were given out before next. */
  ghost predicate IdsBefore(xs: seq<Entry>, next: Word) {
    DistinctIds(xs) && forall e <- multiset(xs) :: e.id < next
  }

  lemma PositionsDiffer(xs: seq<Entry>, i: nat, j: nat)
    requires DistinctIds(xs) && i < j < |xs|
    ensures xs[i].id != xs[j].id
  {
    assert xs[i] in multiset(xs) && xs[j] in multiset(xs);
    assert xs == xs[..j] + xs[j..];
    assert xs[i] in xs[..j] && xs[j] in xs[j..];
    assert multiset(xs)[xs[j]] == multiset(xs[..j])[xs[j]] + multiset(xs[j..])[xs[j]];
    assert xs[i] in multiset(xs[..j]) && xs[j] in multiset(xs[j..]);
  }

  /** Earlier time in the window, or the same time and pushed first. */
  predicate Earlier(base: Word, a: Entry, b: Entry) {
    Ahead(base, a.time) < Ahead(base, b.time) || (a.time == b.time && a.id < b.id)
  }

  /** The subtraction modulo 2^32 and its correction, on ticks. */
  lemma RingDifference(i: Word, p: Word)
    requires IsTick(i) && IsTick(p)
    ensures p >= i ==> (p - i) % WORD == p - i && (p - i) % PERIOD == p - i
    ensures p < i ==> (p - i) % WORD == p - i + WORD && (p - i + WORD + PERIOD) % WORD == p - i + PERIOD
    ensures p < i ==> (p - i) % PERIOD == p - i + PERIOD
  {
    if p >= i {
      ModUnique(p - i, WORD, 0, p - i);
      ModUnique(p - i, PERIOD, 0, p - i);
    } else {
      ModUnique(p - i, WORD, -1, p - i + WORD);
      ModUnique(p - i + WORD + PERIOD, WORD, 1, p - i + PERIOD);
      ModUnique(p - i, PERIOD, -1, p - i + PERIOD);
    }
  }

  /** On ticks the comparison is: the same time and a smaller id, or less than half a period ahead. */
  lemma RingComparison(a: Entry, b: Entry)
    requires IsTick(a.time) && IsTick(b.time)
    ensures TimeLessThan(a, b) <==>
              if a.time == b.time then a.id < b.id else Ahead(a.time, b.time) < HALF
  {
    RingDifference(a.time, b.time);
  }

  /** How far ahead, as a plain difference. */
  lemma AheadIs(base: Word, t: Word)
    requires IsTick(base) && IsTick(t)
    ensures Ahead(base, t) == if t >= base then t - base else t - base + PERIOD
  {
    RingDifference(base, t);
  }

  lemma AheadWithin(base: Word, a: Word, b: Word)
    requires IsTick(base) && IsTick(a) && IsTick(b) && Ahead(base, a) < HALF && Ahead(base, b) < HALF
    ensures Ahead(a, b) < HALF <==> Ahead(base, a) <= Ahead(base, b)
    ensures Ahead(base, a) == Ahead(base, b) <==> a == b
  {
    hide Ahead;
    AheadIs(base, a);
    AheadIs(base, b);
    AheadIs(a, b);
  }

  /** Inside a window the comparison is the order of times, ties broken by id. */
  lemma WindowComparison(base: Word, a: Entry, b: Entry)
    requires IsTick(base) && IsTick(a.time) && IsTick(b.time)
    requires Ahead(base, a.time) < HALF && Ahead(base, b.time) < HALF
    ensures TimeLessThan(a, b) <==> Earlier(base, a, b)
  {
    hide TimeLessThan, Ahead;
    RingComparison(a, b);
    AheadWithin(base, a.time, b.time);
  }

  /** So it is an ordering the heap can rely on. */
  lemma WindowOrders(base: Word, xs: seq<Entry>)
    requires InWindow(base, xs)
    ensures Orders(TimeLessThan, xs)
  {
    hide TimeLessThan;
    forall i, j | 0 <= i < |xs| && 0 <= j < |xs| ensures TimeLessThan(xs[i], xs[j]) <==> Earlier(base, xs[i], xs[j]) {
      WindowComparison(base, xs[i], xs[j]);
    }
    forall i, j, k | 0 <= i < |xs| && 0 <= j < |xs| && 0 <= k < |xs|
      ensures !TimeLessThan(xs[i], xs[i]) && (TimeLessThan(xs[i], xs[j]) ==> !TimeLessThan(xs[j], xs[i]))
      ensures TimeLessThan(xs[i], xs[k]) ==> TimeLessThan(xs[i], xs[j]) || TimeLessThan(xs[j], xs[k])
    {
      SameAhead(base, xs[i].time, xs[j].time);
      SameAhead(base, xs[j].time, xs[k].time);
      SameAhead(base, xs[i].time, xs[k].time);
    }
    OrdersIntro(TimeLessThan, xs);
  }

  lemma SameAhead(base: Word, a: Word, b: Word)
    requires IsTick(base) && IsTick(a) && IsTick(b)
    ensures Ahead(base, a) == Ahead(base, b) <==> a == b
  {
    hide Ahead;
    AheadIs(base, a);
    AheadIs(base, b);
  }

  /** A strict total order on the entries of xs. */
  ghost predicate StrictTotal(xs: seq<Entry>) {
    && (forall i, j :: 0 <= i < |xs| && 0 <= j < |xs| && i != j ==>
          (TimeLessThan(xs[i], xs[j]) <==> !TimeLessThan(xs[j], xs[i])))
    && (forall i, j, k :: 0 <= i < |xs| && 0 <= j < |xs| && 0 <= k < |xs| && TimeLessThan(xs[i], xs[j]) ==>
          TimeLessThan(xs[j], xs[k]) ==> TimeLessThan(xs[i], xs[k]))
  }

  /** For ticks with distinct ids the comparison is a strict total order exactly when some
      window shorter than half a period holds them all. */
  lemma TotalExactlyInWindow(xs: seq<Entry>)
    requires Ticks(xs) && DistinctIds(xs)
    ensures StrictTotal(xs) <==> HasWindow(xs)
  {
    hide TimeLessThan, Ahead;
    if StrictTotal(xs) {
      if xs == [] {
        assert InWindow(0, xs);
      } else {
        var m := Minimum(xs, |xs|);
        forall i | 0 <= i < |xs| ensures Ahead(xs[m].time, xs[i].time) < HALF {
          if i != m { RingComparison(xs[m], xs[i]); }
          AheadOfItself(xs[i].time);
        }
        assert InWindow(xs[m].time, xs);
      }
    }
    if base: Word :| InWindow(base, xs) {
      WindowIsTotal(base, xs);
    }
  }

  lemma AheadOfItself(t: Word)
    ensures Ahead(t, t) == 0
  {
  }

  lemma WindowIsTotal(base: Word, xs: seq<Entry>)
    requires InWindow(base, xs) && DistinctIds(xs)
    ensures StrictTotal(xs)
  {
    hide TimeLessThan, Ahead;
    forall i, j | 0 <= i < j < |xs| ensures xs[i].id != xs[j].id { PositionsDiffer(xs, i, j); }
    forall i, j | 0 <= i < |xs| && 0 <= j < |xs|
      ensures TimeLessThan(xs[i], xs[j]) <==> Earlier(base, xs[i], xs[j])
      ensures Ahead(base, xs[i].time) == Ahead(base, xs[j].time) <==> xs[i].time == xs[j].time
    {
      WindowComparison(base, xs[i], xs[j]);
      SameAhead(base, xs[i].time, xs[j].time);
    }
  }

  lemma {:induction false} Minimum(xs: seq<Entry>, n: nat) returns (m: nat)
    requires 0 < n <= |xs| && StrictTotal(xs)
    ensures m < n && forall i :: 0 <= i < n && i != m ==> TimeLessThan(xs[m], xs[i])
  {
    hide TimeLessThan;
    if n == 1 {
      m := 0;
    } else {
      m := Minimum(xs, n - 1);
      if !TimeLessThan(xs[m], xs[n - 1]) { m := n - 1; }
    }
  }

  /** Times a third of the period apart go round in a circle. */
  lemma NotTransitive() returns (a: Entry, b: Entry, c: Entry)
    ensures TimeLessThan(a, b) && TimeLessThan(b, c) && TimeLessThan(c, a)
  {
    a, b, c := Entry(0, 0, 0, 0), Entry(0x1800_0000, 1, 0, 0), Entry(0x3000_0000, 2, 0, 0);
  }

  // ---------- The queue ----------

  /** The id counter all queues share. */
  class IdCounter {
    var next: Word
    constructor ()
      ensures next == 0
    {
      next := 0;
    }
  }

  /** The list the caller passes to pop for the results. */
  class ResultList {
    var items: seq<int>
    constructor (items: seq<int>)
      ensures this.items == items
    {
      this.items := items;
    }
  }

  datatype Outcome = Done | IndexError(message: string) | TypeError

  class TimeQueue {
    const alloc: nat
    var items: seq<Entry>

    ghost predicate Valid()
      reads this`items
    {
      |items| <= alloc
    }

    constructor (alloc: nat)
      ensures Valid() && this.alloc == alloc && items == []
    {
      this.alloc := alloc;
      items := [];
    }

    /** The new entry gets the counter's id; the counter wraps. */
    method HeapPush(ids: IdCounter, time: Word, callback: int, args: int) returns (r: Outcome)
      requires Valid()
      modifies this`items, ids
      ensures Valid()
      ensures r == if |old(items)| == alloc then IndexError("queue overflow") else Done
      ensures r != Done ==> items == old(items) && ids.next == old(ids.next)
      ensures r == Done ==> ids.next == (old(ids.next) + 1) % WORD
      ensures r == Done ==> var was := old(items) + [Entry(time, old(ids.next), callback, args)];
                multiset(items) == multiset(was) &&
                (old(IsHeap(TimeLessThan, items)) && HasWindow(was) ==>
                   IsHeap(TimeLessThan, items))
      ensures r == Done && old(ids.next) < WORD - 1 && IdsBefore(old(items), old(ids.next)) ==>
                IdsBefore(items, ids.next)
    {
      hide TimeLessThan, Orders, IsHeap, InWindow, IdsBefore;
      if |items| == alloc { return IndexError("queue overflow"); }
      var e := Entry(time, ids.next, callback, args);
      ids.next := (ids.next + 1) % WORD;
      ghost var was := items + [e];
      if base: Word :| InWindow(base, was) { WindowOrders(base, was); }
      ghost var before := items;
      items := Push(TimeLessThan, items, e);
      if e.id < WORD - 1 && IdsBefore(before, e.id) { PushedIdIsNew(before, e, items); }
      return Done;
    }

    /** Moves the first entry to the caller's list; null stands for an argument that is no list. */
    method HeapPop(ret: ResultList?) returns (r: Outcome)
      requires Valid()
      modifies this`items, ret
      ensures Valid()
      ensures r == if |old(items)| == 0 then IndexError("empty heap")
                   else if ret == null || |old(ret.items)| < 3 then TypeError else Done
      ensures r != Done ==> items == old(items) && (ret != null ==> ret.items == old(ret.items))
      ensures r == Done ==> var top := old(items)[0];
                && ret.items == [top.time, top.callback, top.args] + old(ret.items)[3..]
                && |items| == |old(items)| - 1
                && multiset(items) == multiset(old(items)) - multiset{top}
      ensures r == Done && old(IsHeap(TimeLessThan, items)) && HasWindow(old(items)) ==>
                IsHeap(TimeLessThan, items)
      ensures forall next: Word :: IdsBefore(old(items), next) ==> IdsBefore(items, next)
      ensures r == Done && old(IsHeap(TimeLessThan, items)) && DistinctIds(old(items)) ==>
                forall base: Word :: InWindow(base, old(items)) ==>
                  forall y <- items :: Earlier(base, old(items)[0], y)
    {
      hide TimeLessThan, Orders, IsHeap, InWindow, Earlier;
      if |items| == 0 { return IndexError("empty heap"); }
      if ret == null || |ret.items| < 3 { return TypeError; }
      ghost var was := items;
      if base: Word :| InWindow(base, was) { WindowOrders(base, was); }
      var top;
      top, items := Pop(TimeLessThan, items);
      ret.items := [top.time, top.callback, top.args] + ret.items[3..];
      if IsHeap(TimeLessThan, was) && DistinctIds(was) {
        forall base: Word, y | InWindow(base, was) && y in items ensures Earlier(base, was[0], y) {
          PoppedIsEarliest(base, was, items, y);
        }
      }
      return Done;
    }

    /** No pending time is earlier than the one given. */
    method PeekTime() returns (r: Outcome, time: Word)
      ensures r == if items == [] then IndexError("empty heap") else Done
      ensures r == Done ==> time == items[0].time
      ensures r == Done && IsHeap(TimeLessThan, items) ==>
                forall base: Word :: InWindow(base, items) ==>
                  forall y <- items :: Ahead(base, time) <= Ahead(base, y.time)
    {
      hide TimeLessThan, IsHeap, InWindow, Ahead;
      if items != [] && IsHeap(TimeLessThan, items) {
        forall base: Word, y | InWindow(base, items) && y in items
          ensures Ahead(base, items[0].time) <= Ahead(base, y.time)
        {
          TopIsSoonest(base, items, y);
        }
      }
      if |items| == 0 { return IndexError("empty heap"), 0; }
      return Done, items[0].time;
    }
  }

  lemma TopIsSoonest(base: Word, xs: seq<Entry>, y: Entry)
    requires xs != [] && InWindow(base, xs) && IsHeap(TimeLessThan, xs) && y in xs
    ensures Ahead(base, xs[0].time) <= Ahead(base, y.time)
  {
    hide TimeLessThan, Ahead, IsHeap, Orders;
    WindowOrders(base, xs);
    var i: nat :| i < |xs| && xs[i] == y;
    TopIsLeast(TimeLessThan, xs, i);
    WindowComparison(base, y, xs[0]);
  }

  lemma PoppedIsEarliest(base: Word, was: seq<Entry>, after: seq<Entry>, y: Entry)
    requires was != [] && InWindow(base, was) && IsHeap(TimeLessThan, was) && DistinctIds(was)
    requires multiset(after) == multiset(was) - multiset{was[0]} && y in after
    ensures Earlier(base, was[0], y)
  {
    hide TimeLessThan, Ahead, IsHeap, Orders;
    WindowOrders(base, was);
    assert y in multiset(after) && y in multiset(was);
    var i: nat :| i < |was| && was[i] == y;
    TopIsLeast(TimeLessThan, was, i);
    assert i != 0 by { if i == 0 { OnlyOnce(was, after, y); } }
    WindowComparison(base, y, was[0]);
    SameAhead(base, y.time, was[0].time);
  }

  /** With distinct ids the first entry is not among the rest. */
  lemma OnlyOnce(was: seq<Entry>, after: seq<Entry>, y: Entry)
    requires was != [] && DistinctIds(was) && multiset(after) == multiset(was) - multiset{was[0]} && y == was[0]
    ensures y !in after
  {
    assert was[0] in multiset(was);
    assert multiset(after)[y] == 0;
  }

  lemma PushedIdIsNew(xs: seq<Entry>, e: Entry, after: seq<Entry>)
    requires IdsBefore(xs, e.id) && e.id + 1 < WORD && multiset(after) == multiset(xs + [e])
    ensures IdsBefore(after, e.id + 1)
  {
    assert multiset(xs + [e]) == multiset(xs) + multiset{e};
  }
}
