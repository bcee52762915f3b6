/** What can change when the user changes one symbol. */
module KconfigDeps {
  import opened Options
  import opened KconfigExpr
  import opened KconfigGraph

  // ---------- Values computed with no caches ----------

  /** The value of s, by plain recursion down the layers. */
  ghost function ValueOf(g: Graph, o: Order, u: Users, s: SymId): string
    requires Layered(g, o) && s < |g.syms|
    decreases o.sym[s]
  {
    Calc(g, u,
         seq(|g.syms|, t requires 0 <= t < |g.syms| => if o.sym[t] < o.sym[s] then ValueOf(g, o, u, t) else ""), s)
  }

  ghost function Solution(g: Graph, o: Order, u: Users): seq<string>
    requires Layered(g, o)
  {
    seq(|g.syms|, s requires 0 <= s < |g.syms| => ValueOf(g, o, u, s))
  }

  /** Every value is what its own definition gives for the other values. */
  ghost predicate IsSolution(g: Graph, u: Users, v: seq<string>) {
    |v| == |g.syms| && forall s :: 0 <= s < |g.syms| ==> v[s] == Calc(g, u, v, s)
  }

  lemma DirectRefsAreLower(g: Graph, o: Order, s: SymId)
    requires Layered(g, o) && s < |g.syms|
    ensures forall t :: t in DirectRefs(g, s) ==> t < |g.syms| && o.sym[t] < o.sym[s]
  {
    assert WellFormedSym(g, s);
    forall t | t in DirectRefs(g, s) ensures t < |g.syms| && o.sym[t] < o.sym[s] {
      if t !in SymRefs(g, s) {
        var c := g.syms[s].choice.value;
        assert InLayerOfChoice(o, s, c) && Below(o, ChoiceRefs(g, c), o.choice[c]);
      }
    }
  }

  /** What a value is computed from lies in lower layers, siblings included. */
  lemma InputsAreLower(g: Graph, o: Order, s: SymId)
    requires Layered(g, o) && s < |g.syms|
    ensures forall t :: t in Inputs(g, s) ==> t < |g.syms| && o.sym[t] < o.sym[s]
  {
    hide SymRefs, ChoiceRefs, DirectRefs;
    DirectRefsAreLower(g, o, s);
    assert WellFormedSym(g, s);
    if g.syms[s].choice.Some? {
      var c := g.syms[s].choice.value;
      assert WellFormedChoice(g, c) && InLayerOfChoice(o, s, c);
      forall m | m in g.choices[c].members
        ensures forall t :: t in DirectRefs(g, m) ==> t < |g.syms| && o.sym[t] < o.sym[s]
      {
        assert InLayerOfChoice(o, m, c);
        DirectRefsAreLower(g, o, m);
      }
    }
  }

  lemma SolutionExists(g: Graph, o: Order, u: Users)
    requires Layered(g, o) && UsersFit(g, u)
    ensures IsSolution(g, u, Solution(g, o, u))
  {
    hide DirectRefs, Inputs, Calc;
    var v := Solution(g, o, u);
    forall s | 0 <= s < |g.syms| ensures v[s] == Calc(g, u, v, s) {
      var below :=
        seq(|g.syms|, t requires 0 <= t < |g.syms| => if o.sym[t] < o.sym[s] then ValueOf(g, o, u, t) else "");
      InputsAreLower(g, o, s);
      assert Agree(below, v, Inputs(g, s));
      CalcDepends(g, u, u, below, v, s);
    }
  }

  /** There is only one way for all values to satisfy their definitions. */
  lemma SolutionIsUnique(g: Graph, o: Order, u: Users, v: seq<string>, w: seq<string>)
    requires Layered(g, o) && UsersFit(g, u) && IsSolution(g, u, v) && IsSolution(g, u, w)
    ensures v == w
  {
    forall s | 0 <= s < |g.syms| ensures v[s] == w[s] { ValueIsUnique(g, o, u, v, w, s); }
  }

  lemma {:induction false} ValueIsUnique(g: Graph, o: Order, u: Users, v: seq<string>, w: seq<string>, s: SymId)
    requires Layered(g, o) && UsersFit(g, u) && IsSolution(g, u, v) && IsSolution(g, u, w) && s < |g.syms|
    ensures v[s] == w[s]
    decreases o.sym[s]
  {
    hide DirectRefs, Inputs, Calc;
    InputsAreLower(g, o, s);
    forall t | t in Inputs(g, s) ensures v[t] == w[t] { ValueIsUnique(g, o, u, v, w, t); }
    CalcDepends(g, u, u, v, w, s);
  }

  // ---------- Dependency sets ----------

  /** The symbols with an expression, or a choice with an expression, that mentions t. */
  function Dep(g: Graph, t: SymId): set<SymId> {
    set s | 0 <= s < |g.syms| && t in DirectRefs(g, s)
  }

  function Siblings(g: Graph, s: SymId): set<SymId> {
    if SymOf(g, s).choice.Some? then
      set m | m in ChoiceOf(g, SymOf(g, s).choice.value).members && m != s
    else {}
  }

  lemma DepIsHigher(g: Graph, o: Order, t: SymId)
    requires Layered(g, o) && t < |g.syms|
    ensures forall s :: s in Dep(g, t) ==> s < |g.syms| && o.sym[t] < o.sym[s] <= o.top
    ensures forall m :: m in Siblings(g, t) ==> m < |g.syms| && o.sym[m] == o.sym[t]
  {
    assert WellFormedSym(g, t);
    if g.syms[t].choice.Some? { assert WellFormedChoice(g, g.syms[t].choice.value); }
  }

  /** s together with the other members of its choice. */
  function Group(g: Graph, s: SymId): set<SymId> { {s} + Siblings(g, s) }

  lemma GroupDepIsHigher(g: Graph, o: Order, s: SymId)
    requires Layered(g, o) && s < |g.syms|
    ensures forall m, t :: m in Group(g, s) && t in Dep(g, m) ==> t < |g.syms| && o.sym[s] < o.sym[t] <= o.top
  {
    DepIsHigher(g, o, s);
    forall m | m in Group(g, s)
      ensures forall t :: t in Dep(g, m) ==> t < |g.syms| && o.sym[s] < o.sym[t] <= o.top
    {
      DepIsHigher(g, o, m);
    }
  }

  /** What the symbols ts, all above s, reach. */
  ghost function DeepReach(g: Graph, o: Order, s: SymId, ts: set<SymId>): set<SymId>
    requires Layered(g, o) && s < |g.syms|
    requires forall t :: t in ts ==> t < |g.syms| && o.sym[s] < o.sym[t] <= o.top
    decreases o.top - o.sym[s], 0
  {
    set t, x | t in ts && x in Dependents(g, o, t) :: x
  }

  /** What mentions s, and whatever that reaches in turn. */
  ghost function OwnReach(g: Graph, o: Order, s: SymId): set<SymId>
    requires Layered(g, o) && s < |g.syms|
    decreases o.top - o.sym[s], 1
  {
    DepIsHigher(g, o, s);
    Dep(g, s) + DeepReach(g, o, s, Dep(g, s))
  }

  ghost function GroupReach(g: Graph, o: Order, s: SymId, ms: set<SymId>): set<SymId>
    requires Layered(g, o) && s < |g.syms|
    requires forall m :: m in ms ==> m < |g.syms| && o.sym[m] == o.sym[s]
    decreases o.top - o.sym[s], 2
  {
    set m, x | m in ms && x in OwnReach(g, o, m) :: x
  }

  /** The symbols invalidated with s: what it reaches, its choice siblings, and
      what they reach. */
  ghost function Dependents(g: Graph, o: Order, s: SymId): set<SymId>
    requires Layered(g, o) && s < |g.syms|
    decreases o.top - o.sym[s], 3
  {
    DepIsHigher(g, o, s);
    OwnReach(g, o, s) + (Siblings(g, s) + GroupReach(g, o, s, Siblings(g, s)))
  }

  ghost function Affected(g: Graph, o: Order, s: SymId): set<SymId>
    requires Layered(g, o) && s < |g.syms|
  {
    {s} + Dependents(g, o, s)
  }

  /** A set nothing escapes from: with a symbol come its siblings and all that mention it. */
  ghost predicate Closed(g: Graph, xs: set<SymId>) {
    forall y :: y in xs ==> Dep(g, y) <= xs && Siblings(g, y) <= xs
  }

  lemma OwnReachIsIncluded(g: Graph, o: Order, m: SymId, t: SymId)
    requires Layered(g, o) && m < |g.syms| && t in Dep(g, m)
    ensures t < |g.syms| && o.sym[m] < o.sym[t] <= o.top
    ensures Affected(g, o, t) <= OwnReach(g, o, m)
  {
    hide Dep, Siblings, Layered, Dependents;
    DepIsHigher(g, o, m);
  }

  lemma GroupReachIsIncluded(g: Graph, o: Order, s: SymId, m: SymId)
    requires Layered(g, o) && s < |g.syms| && m in Group(g, s)
    ensures m < |g.syms| && o.sym[m] == o.sym[s]
    ensures OwnReach(g, o, m) <= Dependents(g, o, s)
  {
    hide Dep, Siblings, Layered, OwnReach;
    DepIsHigher(g, o, s);
  }

  lemma ReachIsIncluded(g: Graph, o: Order, s: SymId, m: SymId, t: SymId)
    requires Layered(g, o) && s < |g.syms| && m in Group(g, s) && t in Dep(g, m)
    ensures t < |g.syms| && o.sym[s] < o.sym[t] <= o.top
    ensures Affected(g, o, t) <= Dependents(g, o, s)
  {
    hide Dep, Siblings, Layered, OwnReach, Dependents;
    GroupReachIsIncluded(g, o, s, m);
    OwnReachIsIncluded(g, o, m, t);
  }

  lemma ReachedFrom(g: Graph, o: Order, s: SymId, x: SymId) returns (m: SymId, t: SymId)
    requires Layered(g, o) && s < |g.syms| && x in Dependents(g, o, s) && x !in Siblings(g, s)
    ensures m in Group(g, s) && t in Dep(g, m)
    ensures t < |g.syms| && o.sym[s] < o.sym[t] <= o.top
    ensures x in Affected(g, o, t) && Affected(g, o, t) <= Dependents(g, o, s)
  {
    hide Dep, Siblings, Layered, Affected;
    GroupDepIsHigher(g, o, s);
    DepIsHigher(g, o, s);
    if x in OwnReach(g, o, s) {
      m := s;
    } else {
      m :| m in Siblings(g, s) && x in OwnReach(g, o, m);
    }
    if x in Dep(g, m) {
      t := x;
      DepIsHigher(g, o, m);
      SelfIsAffected(g, o, x);
    } else {
      DepIsHigher(g, o, m);
      assert x in DeepReach(g, o, m, Dep(g, m));
      t :| t in Dep(g, m) && x in Dependents(g, o, t);
    }
    ReachIsIncluded(g, o, s, m, t);
    if x != t { DependentsAreAffected(g, o, t, x); }
  }

  lemma SelfIsAffected(g: Graph, o: Order, s: SymId)
    requires Layered(g, o) && s < |g.syms|
    ensures s in Affected(g, o, s)
  {
  }

  lemma DependentsAreAffected(g: Graph, o: Order, s: SymId, x: SymId)
    requires Layered(g, o) && s < |g.syms| && x in Dependents(g, o, s)
    ensures x in Affected(g, o, s)
  {
  }

  lemma {:induction false} DependentsInRange(g: Graph, o: Order, s: SymId)
    requires Layered(g, o) && s < |g.syms|
    ensures forall x :: x in Affected(g, o, s) ==> x < |g.syms|
    decreases o.top - o.sym[s]
  {
    hide Dependents;
    DepIsHigher(g, o, s);
    forall x | x in Affected(g, o, s) ensures x < |g.syms| {
      if x !in Group(g, s) {
        var _, t := ReachedFrom(g, o, s, x);
        DependentsInRange(g, o, t);
      }
    }
  }

  lemma SiblingGroups(g: Graph, o: Order, s: SymId, m: SymId)
    requires Layered(g, o) && s < |g.syms| && m in Group(g, s)
    ensures m < |g.syms| && Group(g, m) == Group(g, s)
  {
    assert WellFormedSym(g, s);
    if g.syms[s].choice.Some? { assert WellFormedChoice(g, g.syms[s].choice.value); }
  }

  lemma {:induction false} AffectedIsClosed(g: Graph, o: Order, s: SymId)
    requires Layered(g, o) && s < |g.syms|
    ensures Closed(g, Affected(g, o, s))
    decreases o.top - o.sym[s]
  {
    var xs := Affected(g, o, s);
    assert Group(g, s) <= xs;
    hide Dependents;
    forall y | y in xs ensures Dep(g, y) <= xs && Siblings(g, y) <= xs {
      if y in Group(g, s) {
        SiblingGroups(g, o, s, y);
        forall t | t in Dep(g, y) ensures t in xs { ReachIsIncluded(g, o, s, y, t); }
        assert Siblings(g, y) <= Group(g, y);
      } else {
        var _, t := ReachedFrom(g, o, s, y);
        AffectedIsClosed(g, o, t);
      }
    }
  }

  /** Nothing more than needed: every closed set holding s holds all its dependents. */
  lemma {:induction false} DependentsAreLeast(g: Graph, o: Order, s: SymId, xs: set<SymId>)
    requires Layered(g, o) && s < |g.syms| && s in xs && Closed(g, xs)
    ensures Affected(g, o, s) <= xs
    decreases o.top - o.sym[s]
  {
    hide Dependents;
    forall x | x in Dependents(g, o, s) ensures x in xs {
      if x !in Siblings(g, s) {
        var m, t := ReachedFrom(g, o, s, x);
        assert m in xs && Dep(g, m) <= xs;
        DependentsAreLeast(g, o, t, xs);
      }
    }
  }

  // ---------- The dependency sets suffice ----------

  /** The two user states differ at most in symbol x and in the choice holding x. */
  ghost predicate DifferOnlyAt(g: Graph, u: Users, u': Users, x: SymId) {
    && u.seen == u'.seen
    && (forall s: SymId :: s != x ==> UserVal(u, s) == UserVal(u', s))
    && (forall c: ChoiceId :: SymOf(g, x).choice != Some(c) ==>
          UserSel(u, c) == UserSel(u', c) && UserMode(u, c) == UserMode(u', c))
  }

  /** A symbol outside the affected set keeps its value when the user changes x. */
  lemma {:induction false} UnaffectedValue(g: Graph, o: Order, u: Users, u': Users, v: seq<string>, v': seq<string>,
                                           x: SymId, s: SymId)
    requires Layered(g, o) && UsersFit(g, u) && UsersFit(g, u') && x < |g.syms| && s < |g.syms|
    requires IsSolution(g, u, v) && IsSolution(g, u', v') && DifferOnlyAt(g, u, u', x)
    requires s !in Affected(g, o, x)
    ensures v[s] == v'[s]
    decreases o.sym[s]
  {
    hide DirectRefs, Dependents, Calc, Inputs;
    AffectedIsClosed(g, o, x);
    InputsAreLower(g, o, s);
    forall t | t in Inputs(g, s) ensures v[t] == v'[t] {
      InputIsUnaffected(g, o, x, s, t);
      UnaffectedValue(g, o, u, u', v, v', x, t);
    }
    assert WellFormedSym(g, s) && WellFormedSym(g, x);
    assert s !in Siblings(g, x);
    CalcDepends(g, u, u', v, v', s);
  }

  lemma InputIsUnaffected(g: Graph, o: Order, x: SymId, s: SymId, t: SymId)
    requires Layered(g, o) && x < |g.syms| && s < |g.syms| && t in Inputs(g, s) && t < |g.syms|
    requires s !in Affected(g, o, x)
    ensures t !in Affected(g, o, x)
  {
    hide SymRefs, ChoiceRefs, DirectRefs, Dependents;
    AffectedIsClosed(g, o, x);
    if t in DirectRefs(g, s) {
      assert s in Dep(g, t);
    } else {
      var c := g.syms[s].choice.value;
      assert WellFormedSym(g, s) && WellFormedChoice(g, c);
      var m :| m in g.choices[c].members && t in DirectRefs(g, m);
      assert m in Dep(g, t);
      SiblingGroups(g, o, s, m);
      if m in Affected(g, o, x) { assert s in Group(g, m); }
    }
  }

  lemma UnaffectedInputs(g: Graph, o: Order, u: Users, u': Users, v: seq<string>, v': seq<string>, x: SymId, s: SymId)
    requires Layered(g, o) && UsersFit(g, u) && UsersFit(g, u') && x < |g.syms| && s < |g.syms|
    requires IsSolution(g, u, v) && IsSolution(g, u', v') && DifferOnlyAt(g, u, u', x)
    requires s !in Affected(g, o, x)
    ensures Agree(v, v', DirectRefs(g, s))
  {
    hide DirectRefs, Dependents, Calc;
    DirectRefsAreLower(g, o, s);
    assert DirectRefs(g, s) <= Inputs(g, s);
    forall t | t in DirectRefs(g, s) ensures v[t] == v'[t] {
      InputIsUnaffected(g, o, x, s, t);
      UnaffectedValue(g, o, u, u', v, v', x, t);
    }
  }

  /** Nor does its visibility change. */
  lemma UnaffectedVisibility(g: Graph, o: Order, u: Users, u': Users, v: seq<string>, v': seq<string>, x: SymId,
                             s: SymId)
    requires Layered(g, o) && UsersFit(g, u) && UsersFit(g, u') && x < |g.syms| && s < |g.syms|
    requires IsSolution(g, u, v) && IsSolution(g, u', v') && DifferOnlyAt(g, u, u', x)
    requires s !in Affected(g, o, x)
    ensures SymVis(g, v, s) == SymVis(g, v', s)
  {
    UnaffectedInputs(g, o, u, u', v, v', x, s);
    SymVisDepends(g, v, v', s);
  }

  /** A choice with no affected member keeps its visibility, mode and selection. */
  lemma UnaffectedChoice(g: Graph, o: Order, u: Users, u': Users, v: seq<string>, v': seq<string>, x: SymId,
                         c: ChoiceId)
    requires Layered(g, o) && UsersFit(g, u) && UsersFit(g, u') && x < |g.syms| && c < |g.choices|
    requires IsSolution(g, u, v) && IsSolution(g, u', v') && DifferOnlyAt(g, u, u', x)
    requires g.choices[c].members != []
    requires forall m :: m in g.choices[c].members ==> m !in Affected(g, o, x)
    ensures ChoiceVis(g, v, c) == ChoiceVis(g, v', c)
    ensures Mode(g, u, v, c) == Mode(g, u', v', c)
    ensures Selection(g, u, v, c) == Selection(g, u', v', c)
  {
    hide Dependents, Calc, Selection, Mode, ChoiceVis, SymRefs, ChoiceRefs, DirectRefs;
    assert WellFormedChoice(g, c) && WellFormedSym(g, x);
    forall m | m in g.choices[c].members ensures Agree(v, v', DirectRefs(g, m)) {
      UnaffectedInputs(g, o, u, u', v, v', x, m);
    }
    assert g.choices[c].members[0] in g.choices[c].members;
    AgreeOnParts(g, v, v', g.choices[c].members[0]);
    assert g.syms[x].choice != Some(c);
    ChoiceDepends(g, u, u', v, v', c);
  }

  // ---------- Visibilities that were frozen ----------

  /** The same assignments, and every member of a choice that refreshes looks the same. */
  ghost predicate SeesAlike(g: Graph, u: Users, u': Users, v: seq<string>) {
    && u' == u.(seen := u'.seen)
    && forall s :: 0 <= s < |g.syms| && SymOf(g, s).choice.Some? && VisIsKnown(g, s) ==>
         MemberVis(g, u, v, s) == MemberVis(g, u', v, s)
  }

  lemma SameSelection(g: Graph, u: Users, u': Users, v: seq<string>, c: ChoiceId)
    requires WellFormed(g) && UsersFit(g, u) && c < |g.choices| && Refreshes(g, c) && SeesAlike(g, u, u', v)
    ensures Selection(g, u, v, c) == Selection(g, u', v, c) && Mode(g, u, v, c) == Mode(g, u', v, c)
  {
    hide SymVis, ChoiceVis, MemberVis, Refreshes;
    var d := g.choices[c];
    assert WellFormedChoice(g, c);
    forall m | m in d.members ensures MemberVis(g, u, v, m) == MemberVis(g, u', v, m) { assert VisIsKnown(g, m); }
    FirstVisibleDepends(g, u, u', v, v, d.members);
    FirstChoiceDefaultIn(g, v, d.defaults, d.members);
  }

  /** A choice holding a symbol that is not special refreshes. */
  lemma PlainMemberRefreshes(g: Graph, s: SymId)
    requires WellFormed(g) && s < |g.syms| && g.syms[s].special.None?
    ensures VisIsKnown(g, s)
    ensures g.syms[s].choice.Some? ==> g.syms[s].choice.value < |g.choices| && Refreshes(g, g.syms[s].choice.value)
  {
    assert WellFormedSym(g, s);
  }

  /** Frozen visibilities count only where they differ from what they replace. */
  lemma SameSolution(g: Graph, u: Users, u': Users, v: seq<string>)
    requires WellFormed(g) && UsersFit(g, u) && UsersFit(g, u') && SeesAlike(g, u, u', v) && IsSolution(g, u, v)
    ensures IsSolution(g, u', v)
  {
    hide SymVis, Mode, Selection, Refreshes, SeesAlike, WellFormed;
    forall s | 0 <= s < |g.syms| ensures v[s] == Calc(g, u', v, s) {
      assert v[s] == Calc(g, u, v, s);
      if g.syms[s].special.None? {
        PlainMemberRefreshes(g, s);
        if g.syms[s].choice.Some? { SameSelection(g, u, u', v, g.syms[s].choice.value); }
      }
      AlikeParts(g, u, u', v);
      SameCalc(g, u, u', v, s);
    }
  }

  lemma AlikeParts(g: Graph, u: Users, u': Users, v: seq<string>)
    requires SeesAlike(g, u, u', v)
    ensures u' == u.(seen := u'.seen)
  {
  }

  lemma SameCalc(g: Graph, u: Users, u': Users, v: seq<string>, s: SymId)
    requires u' == u.(seen := u'.seen) && s < |g.syms|
    requires g.syms[s].special.None? && g.syms[s].choice.Some? ==>
               var c := g.syms[s].choice.value;
               Selection(g, u, v, c) == Selection(g, u', v, c) && Mode(g, u, v, c) == Mode(g, u', v, c)
    ensures Calc(g, u, v, s) == Calc(g, u', v, s)
  {
    hide SymVis, Mode, Selection;
  }

  /** Every frozen visibility that a choice can see is what it would be now. */
  ghost predicate SeenIsCurrent(g: Graph, u: Users, v: seq<string>) {
    forall s :: 0 <= s < |g.syms| && SymOf(g, s).choice.Some? && VisIsKnown(g, s) && UserSeen(u, s).Some? ==>
      UserSeen(u, s).value == SymVis(g, v, s)
  }

  lemma CurrentSeesAlike(g: Graph, u: Users, v: seq<string>)
    requires SeenIsCurrent(g, u, v)
    ensures SeesAlike(g, u, Assignments(u), v)
  {
    hide SymVis;
  }

  /** Then the values are those of the assignments alone: a value can only be stale
      through the frozen visibility of a special symbol in a choice. */
  lemma CurrentSeenIsHarmless(g: Graph, o: Order, u: Users, v: seq<string>)
    requires Layered(g, o) && UsersFit(g, u) && IsSolution(g, u, v) && SeenIsCurrent(g, u, v)
    ensures UsersFit(g, Assignments(u)) && v == Solution(g, o, Assignments(u))
  {
    hide SymVis, Calc, Selection, Layered, WellFormed, VisIsTracked, VisIsKnown;
    LayeredIsWellFormed(g, o);
    var w := Assignments(u);
    CurrentSeesAlike(g, u, v);
    SameSolution(g, u, w, v);
    SolutionExists(g, o, w);
    SolutionIsUnique(g, o, w, v, Solution(g, o, w));
  }

  lemma LayeredIsWellFormed(g: Graph, o: Order)
    requires Layered(g, o)
    ensures WellFormed(g)
  {
  }

  /** Without special choice members that is always so. */
  lemma NoSpecialsNothingFrozen(g: Graph, u: Users, v: seq<string>)
    requires WellFormed(g) && UsersFit(g, u) && NoSpecialMembers(g)
    ensures SeenIsCurrent(g, u, v)
  {
    hide SymVis, VisIsKnown;
    forall s | 0 <= s < |g.syms| && SymOf(g, s).choice.Some? ensures UserSeen(u, s).None? {
      assert WellFormedSym(g, s);
    }
  }
}
