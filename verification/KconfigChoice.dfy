/** What the values of a configuration promise: choices hold at most one "y",
    selected symbols are at least as high as what selects them. */
module KconfigChoice {
  import opened Options
  import opened KconfigExpr
  import opened KconfigGraph
  import opened KconfigDeps
  import opened KconfigEval

  lemma MemberIsY(g: Graph, u: Users, v: seq<string>, c: ChoiceId, m: SymId)
    requires WellFormed(g) && IsSolution(g, u, v) && c < |g.choices| && m in g.choices[c].members
    requires m < |g.syms| && IsTri(g.syms[m].typ) && g.syms[m].special.None? && Mode(g, u, v, c) == Y
    ensures v[m] == "y" <==> SymVis(g, v, m) != N && Selection(g, u, v, c) == Some(m)
  {
    hide Mode, SymVis, Selection;
    assert WellFormedChoice(g, c) && WellFormedSym(g, m);
    assert v[m] == Calc(g, u, v, m) == TriStr(MemberValue(g, u, v, m, c));
  }

  /** In mode "y" no two members of a choice are both "y", special symbols with their fixed
      values apart. */
  lemma AtMostOneY(g: Graph, u: Users, v: seq<string>, c: ChoiceId, m1: SymId, m2: SymId)
    requires WellFormed(g) && IsSolution(g, u, v) && c < |g.choices| && Mode(g, u, v, c) == Y
    requires m1 in g.choices[c].members && m1 < |g.syms| && IsTri(g.syms[m1].typ) && g.syms[m1].special.None? &&
             v[m1] == "y"
    requires m2 in g.choices[c].members && m2 < |g.syms| && IsTri(g.syms[m2].typ) && g.syms[m2].special.None? &&
             v[m2] == "y"
    ensures m1 == m2
  {
    MemberIsY(g, u, v, c, m1);
    MemberIsY(g, u, v, c, m2);
  }

  lemma {:induction false} FirstVisibleFound(g: Graph, u: Users, v: seq<string>, ms: seq<SymId>)
    ensures FirstVisible(g, u, v, ms).Some? <==> exists m :: m in ms && MemberVis(g, u, v, m) != N
    ensures FirstVisible(g, u, v, ms).Some? ==>
              FirstVisible(g, u, v, ms).value in ms && MemberVis(g, u, v, FirstVisible(g, u, v, ms).value) != N
  {
    hide MemberVis;
    if ms != [] {
      FirstVisibleFound(g, u, v, ms[1..]);
      assert forall m :: m in ms <==> m == ms[0] || m in ms[1..];
    }
  }

  /** A selection is a visible member. */
  lemma SelectionIsVisible(g: Graph, u: Users, v: seq<string>, c: ChoiceId)
    requires WellFormed(g) && UsersFit(g, u) && c < |g.choices|
    ensures Selection(g, u, v, c).Some? ==>
              && Selection(g, u, v, c).value in g.choices[c].members
              && MemberVis(g, u, v, Selection(g, u, v, c).value) != N
  {
    hide SymVis, MemberVis, Mode;
    assert WellFormedChoice(g, c);
    FirstVisibleFound(g, u, v, g.choices[c].members);
    FirstChoiceDefaultIn(g, v, g.choices[c].defaults, g.choices[c].members);
  }

  /** In mode "y" exactly when there is a selection, and there is one exactly when
      the user's pick is fully visible or the choice must have a member and can. */
  lemma SelectionExists(g: Graph, u: Users, v: seq<string>, c: ChoiceId)
    requires WellFormed(g) && UsersFit(g, u) && c < |g.choices|
    ensures Selection(g, u, v, c).Some? <==>
              && Mode(g, u, v, c) == Y
              && (|| (u.sel[c].Some? && MemberVis(g, u, v, u.sel[c].value) == Y)
                  || (!g.choices[c].optional && exists m :: m in g.choices[c].members && MemberVis(g, u, v, m) != N))
  {
    hide SymVis, MemberVis, Mode;
    assert WellFormedChoice(g, c);
    FirstVisibleFound(g, u, v, g.choices[c].members);
    FirstChoiceDefaultIn(g, v, g.choices[c].defaults, g.choices[c].members);
  }

  /** A choice in mode "y" that is not optional and has a visible member has
      exactly one member with value "y". */
  lemma ExactlyOneY(g: Graph, u: Users, v: seq<string>, c: ChoiceId) returns (m: SymId)
    requires WellFormed(g) && UsersFit(g, u) && IsSolution(g, u, v) && c < |g.choices| && Mode(g, u, v, c) == Y
    requires forall k :: k in g.choices[c].members ==> k < |g.syms| && IsTri(g.syms[k].typ) && g.syms[k].special.None?
    requires !g.choices[c].optional && exists k :: k in g.choices[c].members && SymVis(g, v, k) != N
    ensures m in g.choices[c].members && v[m] == "y"
    ensures forall k :: k in g.choices[c].members && v[k] == "y" ==> k == m
  {
    hide SymVis, Mode, Selection, MemberVis;
    forall k | k in g.choices[c].members ensures MemberVis(g, u, v, k) == SymVis(g, v, k) { PlainIsSeen(g, u, v, k); }
    SelectionExists(g, u, v, c);
    SelectionIsVisible(g, u, v, c);
    m := Selection(g, u, v, c).value;
    MemberIsY(g, u, v, c, m);
    forall k | k in g.choices[c].members && v[k] == "y" ensures k == m { MemberIsY(g, u, v, c, k); }
  }

  lemma PlainIsSeen(g: Graph, u: Users, v: seq<string>, s: SymId)
    requires UsersFit(g, u) && s < |g.syms| && g.syms[s].special.None?
    ensures MemberVis(g, u, v, s) == SymVis(g, v, s)
  {
  }

  /** Outside choices a select wins: the value is never below the condition of
      the selecting symbols, whatever the user asked for. */
  lemma SelectWins(g: Graph, u: Users, v: seq<string>, s: SymId)
    requires WellFormed(g) && IsSolution(g, u, v) && s < |g.syms| && IsTri(g.syms[s].typ)
    requires g.syms[s].special.None? && g.syms[s].choice.None?
    ensures Rank(TriOf(v[s])) >= Rank(Cond(g, v, Some(g.syms[s].revDep)))
  {
    hide OwnTri;
    assert v[s] == Calc(g, u, v, s) == TriStr(TriValue(g, u, v, s));
    assert forall t :: TriOf(TriStr(t)) == t;
  }

  // ---------- Where the caches are not kept current ----------

  const VISIBLE_IF_A := Some(Leaf(Sym(0)))

  /** A bool A, and an environment symbol E whose prompt is visible only if A. */
  function EnvGraph(numbers: Numbers): Graph {
    Graph([SymDef("A", Bool, [None], [], [], Leaf(Str("n")), None, None, true),
           SymDef("E", String, [VISIBLE_IF_A], [], [], Leaf(Str("n")), None, Some("x"), true)],
          [], true, numbers)
  }

  const ENV_ORDER := Order([0, 1], [], 1)

  lemma EnvGraphIsLayered(numbers: Numbers)
    ensures Layered(EnvGraph(numbers), ENV_ORDER)
  {
    var g := EnvGraph(numbers);
    assert PromptSyms(g.syms[0].prompts) == {};
    assert PromptSyms(g.syms[1].prompts) <= {0};
    assert SymRefs(g, 0) == {} && SymRefs(g, 1) <= {0};
    assert WellFormedSym(g, 0) && WellFormedSym(g, 1);
  }

  lemma EnvVisibility(numbers: Numbers, v: seq<string>)
    requires |v| == 2
    ensures SymVis(EnvGraph(numbers), v, 0) == Y
    ensures SymVis(EnvGraph(numbers), v, 1) == if v[0] == "y" || v[0] == "m" then Y else N
  {
    var g := EnvGraph(numbers);
    var ps := g.syms[1].prompts;
    assert ps[..0] == [] && PromptVis(g, v, ps[..0]) == N;
    assert 0 in TriSyms(g);
    assert PromptVis(g, v, ps) == MaxTri(N, Cond(g, v, ps[0]));
    var qs := g.syms[0].prompts;
    assert qs[..0] == [] && PromptVis(g, v, qs[..0]) == N;
    assert PromptVis(g, v, qs) == MaxTri(N, Cond(g, v, qs[0]));
  }

  lemma EnvValue(numbers: Numbers, u: Users, v: seq<string>)
    requires IsSolution(EnvGraph(numbers), u, v) && |u.val| == 2
    ensures u.val[0] == None ==> v[0] == "n"
    ensures u.val[0] == Some("y") ==> v[0] == "y"
  {
    var g := EnvGraph(numbers);
    EnvVisibility(numbers, v);
    hide SymVis;
    assert v[0] == Calc(g, u, v, 0) == TriStr(TriValue(g, u, v, 0));
    assert FirstDefault(g, v, g.syms[0].defaults) == None;
    assert Cond(g, v, Some(g.syms[0].revDep)) == N;
  }

  lemma EnvFacts(numbers: Numbers)
    ensures var g := EnvGraph(numbers);
            && |g.syms| == 2 && !VisIsTracked(g, 1) && VisIsKnown(g, 1) && WellFormed(g)
            && UsersFit(g, NoUsers(g)) && |NoUsers(g).val| == 2 && NoUsers(g).val[0] == None
            && (forall u: Users :: MemberVis(g, u, ["", ""], 1) == SymVis(g, ["", ""], 1) || UserSeen(u, 1).Some?)
  {
    EnvGraphIsLayered(numbers);
  }

  lemma EnvAssigned(numbers: Numbers, u: Users)
    requires var g := EnvGraph(numbers); WellFormed(g) && UsersFit(g, u)
    ensures var r := After(EnvGraph(numbers), u, Set(0, "y")); |r.val| == 2 && r.val[0] == Some("y")
  {
  }

  lemma NothingSeen(g: Graph, v: seq<string>, s: SymId)
    ensures MemberVis(g, NoUsers(g), v, s) == SymVis(g, v, s)
  {
    hide SymVis;
  }

  /** The visibility of an environment symbol, once computed, stays what it was:
      after A is set to "y" the symbol is visible, but the cached "n" is returned. */
  method EnvVisibilityGoesStale(numbers: Numbers) returns (before: Tri, after: Tri, ghost current: Tri)
    ensures before == N && after == N && current == Y
  {
    var g := EnvGraph(numbers);
    hide *;
    EnvGraphIsLayered(numbers);
    EnvFacts(numbers);
    var conf := new Config(g, ENV_ORDER);
    conf.ValidParts();
    conf.TracksFacts();
    EnvValue(numbers, conf.users, conf.vals);
    EnvVisibility(numbers, conf.vals);
    NothingSeen(g, conf.vals, 1);
    before := conf.GetVisibility(1);
    conf.BaseFits();
    EnvAssigned(numbers, conf.Base());
    SetFits(g, 0, "y");
    conf.Perform(Set(0, "y"));
    conf.ValidParts();
    conf.TracksFacts();
    EnvValue(numbers, conf.users, conf.vals);
    EnvVisibility(numbers, conf.vals);
    current := SymVis(g, conf.vals, 1);
    after := conf.GetVisibility(1);
  }

  lemma SetFits(g: Graph, s: SymId, text: string)
    requires s < |g.syms|
    ensures OpFits(g, Set(s, text))
  {
  }

  // ---------- A special symbol in a choice ----------

  /** A bool A, and a choice of an environment symbol E, visible only if A, and a bool B. */
  function EnvChoiceGraph(numbers: Numbers): Graph {
    Graph([SymDef("A", Bool, [None], [], [], Leaf(Str("n")), None, None, true),
           SymDef("E", Bool, [VISIBLE_IF_A], [], [], Leaf(Str("n")), Some(0), Some("y"), true),
           SymDef("B", Bool, [None], [], [], Leaf(Str("n")), Some(0), None, true)],
          [ChoiceDef(Bool, [None], [], [1, 2], false)], true, numbers)
  }

  const ENV_CHOICE_ORDER := Order([0, 1, 1], [1], 1)

  lemma EnvChoiceRefs(numbers: Numbers)
    ensures var g := EnvChoiceGraph(numbers);
            && SymRefs(g, 0) == {} && SymRefs(g, 1) <= {0} && SymRefs(g, 2) == {} && ChoiceRefs(g, 0) == {}
  {
    hide PromptSyms;
    NoPromptSyms();
  }

  lemma EnvChoiceIsLayered(numbers: Numbers)
    ensures Layered(EnvChoiceGraph(numbers), ENV_CHOICE_ORDER)
  {
    hide SymRefs, ChoiceRefs;
    var g := EnvChoiceGraph(numbers);
    EnvChoiceRefs(numbers);
    assert WellFormedSym(g, 0) && WellFormedSym(g, 1) && WellFormedSym(g, 2) && WellFormedChoice(g, 0);
  }

  lemma NoPromptSyms()
    ensures PromptSyms([None]) == {} && PromptSyms([VISIBLE_IF_A]) <= {0}
  {
    assert OptSyms(VISIBLE_IF_A) == {0};
  }

  lemma AlwaysPrompt(g: Graph, v: seq<string>)
    ensures PromptVis(g, v, [None]) == Y
  {
    var ps: seq<Option<Expr>> := [None];
    assert ps[..0] == [] && PromptVis(g, v, ps[..0]) == N;
    assert PromptVis(g, v, ps) == MaxTri(Promote(g, PromptVis(g, v, ps[..0])), Cond(g, v, ps[0]));
  }

  lemma PromptIfA(g: Graph, v: seq<string>)
    requires g.modules && 0 in TriSyms(g) && |v| > 0
    ensures PromptVis(g, v, [VISIBLE_IF_A]) == TriOf(v[0])
  {
    var ps := [VISIBLE_IF_A];
    assert ps[..0] == [] && PromptVis(g, v, ps[..0]) == N;
    assert PromptVis(g, v, ps) == MaxTri(N, Cond(g, v, ps[0]));
  }

  lemma EnvChoiceVisibility(numbers: Numbers, v: seq<string>)
    requires |v| == 3
    ensures var g := EnvChoiceGraph(numbers);
            && SymVis(g, v, 0) == Y && SymVis(g, v, 2) == Y && ChoiceVis(g, v, 0) == Y
            && (SymVis(g, v, 1) == N <==> TriOf(v[0]) == N)
  {
    var g := EnvChoiceGraph(numbers);
    hide PromptVis;
    AlwaysPrompt(g, v);
    PromptIfA(g, v);
  }

  lemma EnvChoiceSelection(numbers: Numbers, u: Users, v: seq<string>)
    requires |v| == 3 && UserSel(u, 0) == None && UserMode(u, 0) == None && UserSeen(u, 2) == None
    ensures var g := EnvChoiceGraph(numbers);
            Mode(g, u, v, 0) == Y && Selection(g, u, v, 0) == Some(if MemberVis(g, u, v, 1) != N then 1 else 2)
  {
    var g := EnvChoiceGraph(numbers);
    hide SymVis, ChoiceVis;
    EnvChoiceVisibility(numbers, v);
    assert ChoiceOf(g, 0).members == [1, 2];
    assert FirstVisible(g, u, v, [1, 2]) ==
           if MemberVis(g, u, v, 1) != N then Some(1) else FirstVisible(g, u, v, [1, 2][1..]);
    assert [1, 2][1..] == [2];
    assert FirstVisible(g, u, v, [2]) == Some(2);
  }

  lemma EnvChoiceValues(numbers: Numbers, u: Users, v: seq<string>)
    requires IsSolution(EnvChoiceGraph(numbers), u, v) && |u.val| == 3
    requires UserSel(u, 0) == None && UserMode(u, 0) == None && UserSeen(u, 2) == None
    ensures |v| == 3 && v[1] == "y"
    ensures u.val[0] == None ==> v[0] == "n"
    ensures u.val[0] == Some("y") ==> v[0] == "y"
    ensures v[2] == if MemberVis(EnvChoiceGraph(numbers), u, v, 1) != N then "n" else "y"
  {
    var g := EnvChoiceGraph(numbers);
    hide SymVis, Mode, Selection, MemberVis;
    EnvChoiceVisibility(numbers, v);
    EnvChoiceSelection(numbers, u, v);
    assert v[0] == Calc(g, u, v, 0) == TriStr(TriValue(g, u, v, 0));
    assert FirstDefault(g, v, g.syms[0].defaults) == None;
    assert Cond(g, v, Some(g.syms[0].revDep)) == N;
    assert v[1] == Calc(g, u, v, 1);
    assert v[2] == Calc(g, u, v, 2) == TriStr(MemberValue(g, u, v, 2, 0));
  }

  lemma EnvChoiceFacts(numbers: Numbers)
    ensures var g := EnvChoiceGraph(numbers);
            && |g.syms| == 3 && !VisIsTracked(g, 1) && VisIsKnown(g, 1) && WellFormed(g)
            && UsersFit(g, NoUsers(g)) && |NoUsers(g).val| == 3 && NoUsers(g).val[0] == None
            && UserSel(NoUsers(g), 0) == None && UserMode(NoUsers(g), 0) == None
            && (forall u :: UsersFit(g, u) ==> UserSeen(u, 2) == None)
  {
    EnvChoiceIsLayered(numbers);
    var g := EnvChoiceGraph(numbers);
    assert 2 in g.choices[0].members && VisIsTracked(g, 2);
  }

  lemma EnvChoiceAssigned(numbers: Numbers, u: Users)
    requires var g := EnvChoiceGraph(numbers);
             WellFormed(g) && UsersFit(g, u) && Assignments(u) == Assignments(NoUsers(g))
    ensures var r := After(EnvChoiceGraph(numbers), u, Set(0, "y"));
            |r.val| == 3 && r.val[0] == Some("y") && UserSel(r, 0) == None && UserMode(r, 0) == None
  {
  }

  /** A value goes stale: E's visibility was read while A was "n", so the choice goes on
      passing E over after A is set to "y", and B stays "y" where E should be selected. B and
      E, whose value is fixed, are then both "y". */
  method EnvChoiceGoesStale(numbers: Numbers)
      returns (vis: Tri, before: string, after: string, fixed: string, ghost current: string)
    ensures vis == N && before == "y" && after == "y" && fixed == "y" && current == "n"
  {
    var g := EnvChoiceGraph(numbers);
    hide *;
    EnvChoiceIsLayered(numbers);
    EnvChoiceFacts(numbers);
    var conf := new Config(g, ENV_CHOICE_ORDER);
    conf.ValidParts();
    conf.TracksFacts();
    EnvChoiceValues(numbers, conf.users, conf.vals);
    EnvChoiceVisibility(numbers, conf.vals);
    NothingSeen(g, conf.vals, 1);
    NotSet();
    before := conf.GetValue(2);
    vis := conf.GetVisibility(1);
    conf.BaseFits();
    EnvChoiceAssigned(numbers, conf.Base());
    SetFits(g, 0, "y");
    conf.FrozenNow();
    ghost var base := conf.Base();
    conf.Perform(Set(0, "y"));
    AfterIs(g, base, Set(0, "y"));
    SameSeen(base, conf.users);
    conf.ValidParts();
    conf.TracksFacts();
    SeenIsMemberVis(g, conf.users, conf.vals, 1);
    EnvChoiceValues(numbers, conf.users, conf.vals);
    after := conf.GetValue(2);
    fixed := conf.GetValue(1);
    ghost var v := Solution(g, ENV_CHOICE_ORDER, Assignments(conf.users));
    AssignmentsFit(g, conf.users);
    SolutionExists(g, ENV_CHOICE_ORDER, Assignments(conf.users));
    NothingFrozen(conf.users);
    EnvChoiceValues(numbers, Assignments(conf.users), v);
    EnvChoiceVisibility(numbers, v);
    PlainVisibility(g, conf.users, v, 1);
    IsSet();
    current := v[2];
  }

  lemma NotSet()
    ensures TriOf("n") == N
  {
  }

  lemma IsSet()
    ensures TriOf("y") == Y
  {
  }

  lemma SeenIsMemberVis(g: Graph, u: Users, v: seq<string>, s: SymId)
    ensures UserSeen(u, s).Some? ==> MemberVis(g, u, v, s) == UserSeen(u, s).value
  {
  }

  lemma NothingFrozen(u: Users)
    ensures forall c: ChoiceId ::
              UserSel(Assignments(u), c) == UserSel(u, c) && UserMode(Assignments(u), c) == UserMode(u, c)
    ensures forall s: SymId :: UserSeen(Assignments(u), s) == None
    ensures Assignments(u).val == u.val
  {
  }

  lemma PlainVisibility(g: Graph, u: Users, v: seq<string>, s: SymId)
    ensures MemberVis(g, Assignments(u), v, s) == SymVis(g, v, s)
  {
    hide SymVis;
  }

  // ---------- What frozen visibilities do to a selection ----------

  /** A place in the search for a selection: the user's pick must be fully visible there, any
      other member only visible. */
  datatype Candidate = Candidate(m: SymId, full: bool)

  function InOrder(ms: seq<SymId>): seq<Candidate> {
    if ms == [] then [] else [Candidate(ms[0], false)] + InOrder(ms[1..])
  }

  /** The candidates after the user's pick. */
  function Defaults(g: Graph, v: seq<string>, c: ChoiceId): seq<Candidate> {
    var d := ChoiceOf(g, c);
    if d.optional || d.members == [] then [] else [Candidate(Preferred(g, v, c), false)] + InOrder(d.members)
  }

  function Candidates(g: Graph, u: Users, v: seq<string>, c: ChoiceId): seq<Candidate> {
    if UserSel(u, c).Some? then [Candidate(UserSel(u, c).value, true)] + Defaults(g, v, c) else Defaults(g, v, c)
  }

  predicate Takes(g: Graph, u: Users, v: seq<string>, k: Candidate) {
    if k.full then MemberVis(g, u, v, k.m) == Y else MemberVis(g, u, v, k.m) != N
  }

  function Picked(g: Graph, u: Users, v: seq<string>, ks: seq<Candidate>): Option<SymId> {
    if ks == [] then None else if Takes(g, u, v, ks[0]) then Some(ks[0].m) else Picked(g, u, v, ks[1..])
  }

  lemma {:induction false} PickedInOrder(g: Graph, u: Users, v: seq<string>, ms: seq<SymId>)
    ensures Picked(g, u, v, InOrder(ms)) == FirstVisible(g, u, v, ms)
    ensures forall k <- InOrder(ms) :: !k.full
  {
    hide MemberVis;
    if ms != [] { PickedInOrder(g, u, v, ms[1..]); }
  }

  lemma PickedNext(g: Graph, u: Users, v: seq<string>, k: Candidate, ks: seq<Candidate>)
    ensures Picked(g, u, v, [k] + ks) == if Takes(g, u, v, k) then Some(k.m) else Picked(g, u, v, ks)
  {
    assert ([k] + ks)[1..] == ks;
  }

  lemma PickedDefaults(g: Graph, u: Users, v: seq<string>, c: ChoiceId)
    ensures Picked(g, u, v, Defaults(g, v, c)) ==
              if ChoiceOf(g, c).optional then None else SelectionFromDefaults(g, u, v, c)
    ensures forall k <- Defaults(g, v, c) :: !k.full
  {
    hide MemberVis, Preferred;
    var ms := ChoiceOf(g, c).members;
    PickedInOrder(g, u, v, ms);
    if ms != [] { PickedNext(g, u, v, Candidate(Preferred(g, v, c), false), InOrder(ms)); }
  }

  /** The selection is the first candidate taken. */
  lemma SelectionIsPicked(g: Graph, u: Users, v: seq<string>, c: ChoiceId)
    requires Mode(g, u, v, c) == Y
    ensures Selection(g, u, v, c) == Picked(g, u, v, Candidates(g, u, v, c))
  {
    hide MemberVis, Mode, Preferred;
    PickedDefaults(g, u, v, c);
    if UserSel(u, c).Some? { PickedNext(g, u, v, Candidate(UserSel(u, c).value, true), Defaults(g, v, c)); }
  }

  /** The first place that one of the two states takes, or both. */
  ghost predicate Decides(g: Graph, u: Users, w: Users, v: seq<string>, ks: seq<Candidate>, i: int) {
    && 0 <= i < |ks| && (Takes(g, u, v, ks[i]) || Takes(g, w, v, ks[i]))
    && forall j :: 0 <= j < i ==> !Takes(g, u, v, ks[j]) && !Takes(g, w, v, ks[j])
  }

  ghost predicate SameDecision(g: Graph, u: Users, w: Users, v: seq<string>, ks: seq<Candidate>) {
    forall i :: Decides(g, u, w, v, ks, i) ==> Takes(g, u, v, ks[i]) && Takes(g, w, v, ks[i])
  }

  lemma SameDecisionNext(g: Graph, u: Users, w: Users, v: seq<string>, ks: seq<Candidate>)
    requires ks != []
    ensures SameDecision(g, u, w, v, ks) <==>
              if Takes(g, u, v, ks[0]) || Takes(g, w, v, ks[0]) then Takes(g, u, v, ks[0]) && Takes(g, w, v, ks[0])
              else SameDecision(g, u, w, v, ks[1..])
  {
    hide Takes;
    if Takes(g, u, v, ks[0]) || Takes(g, w, v, ks[0]) {
      assert Decides(g, u, w, v, ks, 0);
    } else {
      forall i: nat ensures Decides(g, u, w, v, ks, i + 1) <==> Decides(g, u, w, v, ks[1..], i) {
        DecidesNext(g, u, w, v, ks, i);
      }
      forall i | Decides(g, u, w, v, ks, i)
        ensures i > 0 && ks[i] == ks[1..][i - 1] && Decides(g, u, w, v, ks[1..], i - 1)
      {
        assert i == i - 1 + 1;
      }
    }
  }

  lemma DecidesNext(g: Graph, u: Users, w: Users, v: seq<string>, ks: seq<Candidate>, i: nat)
    requires ks != [] && !Takes(g, u, v, ks[0]) && !Takes(g, w, v, ks[0])
    ensures Decides(g, u, w, v, ks, i + 1) <==> Decides(g, u, w, v, ks[1..], i)
  {
    hide Takes;
    if Decides(g, u, w, v, ks, i + 1) {
      forall j | 0 <= j < i ensures !Takes(g, u, v, ks[1..][j]) && !Takes(g, w, v, ks[1..][j]) {
        assert ks[1..][j] == ks[j + 1];
      }
    }
    if Decides(g, u, w, v, ks[1..], i) {
      forall j | 0 <= j < i + 1 ensures !Takes(g, u, v, ks[j]) && !Takes(g, w, v, ks[j]) {
        if j > 0 { assert ks[1..][j - 1] == ks[j]; }
      }
    }
  }

  lemma {:induction false} PickedIsSeen(g: Graph, u: Users, v: seq<string>, ks: seq<Candidate>, m: SymId)
    requires Picked(g, u, v, ks) == Some(m)
    ensures MemberVis(g, u, v, m) != N
  {
    hide MemberVis;
    if !Takes(g, u, v, ks[0]) { PickedIsSeen(g, u, v, ks[1..], m); }
  }

  lemma {:induction false} SamePicked(g: Graph, u: Users, w: Users, v: seq<string>, ks: seq<Candidate>)
    requires forall k <- ks :: !k.full
    ensures Picked(g, u, v, ks) == Picked(g, w, v, ks) <==> SameDecision(g, u, w, v, ks)
    decreases |ks|
  {
    hide MemberVis, SameDecision;
    if ks == [] {
      NoDecision(g, u, w, v);
    } else {
      var m, rest := ks[0].m, ks[1..];
      SameDecisionNext(g, u, w, v, ks);
      SamePicked(g, u, w, v, rest);
      if Picked(g, u, v, rest) == Some(m) { PickedIsSeen(g, u, v, rest, m); }
      if Picked(g, w, v, rest) == Some(m) { PickedIsSeen(g, w, v, rest, m); }
    }
  }

  lemma NoDecision(g: Graph, u: Users, w: Users, v: seq<string>)
    ensures SameDecision(g, u, w, v, [])
  {
  }

  /** Whatever members are special: without a pick, or with one that is fully visible neither
      as read nor now, the selection is the right one exactly when the first member that
      either the frozen or the current visibilities would take is taken by both. */
  lemma FrozenDefaultsDecide(g: Graph, u: Users, v: seq<string>, c: ChoiceId)
    requires Mode(g, u, v, c) == Y
    requires UserSel(u, c).Some? ==>
               MemberVis(g, u, v, UserSel(u, c).value) != Y && SymVis(g, v, UserSel(u, c).value) != Y
    ensures Selection(g, u, v, c) == Selection(g, Assignments(u), v, c) <==>
              SameDecision(g, u, Assignments(u), v, Defaults(g, v, c))
  {
    hide SymVis, MemberVis, Picked, SameDecision, SelectionFromDefaults;
    var w := Assignments(u);
    NothingFrozen(u);
    if UserSel(u, c).Some? { PlainVisibility(g, u, v, UserSel(u, c).value); }
    PickedDefaults(g, u, v, c);
    PickedDefaults(g, w, v, c);
    SamePicked(g, u, w, v, Defaults(g, v, c));
  }

  /** With a pick that is fully visible in just one of the two views, it is the right one
      exactly when the other view comes upon the same member among the defaults. */
  lemma FrozenPickDecides(g: Graph, u: Users, v: seq<string>, c: ChoiceId)
    requires Mode(g, u, v, c) == Y && UserSel(u, c).Some?
    ensures var (w, p) := (Assignments(u), UserSel(u, c).value);
            && (MemberVis(g, u, v, p) == Y == SymVis(g, v, p) ==>
                  Selection(g, u, v, c) == Selection(g, w, v, c) == Some(p))
            && (MemberVis(g, u, v, p) == Y != SymVis(g, v, p) ==>
                  (Selection(g, u, v, c) == Selection(g, w, v, c) <==> Picked(g, w, v, Defaults(g, v, c)) == Some(p)))
            && (MemberVis(g, u, v, p) != Y == SymVis(g, v, p) ==>
                  (Selection(g, u, v, c) == Selection(g, w, v, c) <==> Picked(g, u, v, Defaults(g, v, c)) == Some(p)))
  {
    hide SymVis, MemberVis, Picked, SelectionFromDefaults;
    var w := Assignments(u);
    NothingFrozen(u);
    PlainVisibility(g, u, v, UserSel(u, c).value);
    PickedDefaults(g, u, v, c);
    PickedDefaults(g, w, v, c);
  }

  /** Only special members can be at stake. */
  lemma OnlyFrozenDiffer(g: Graph, u: Users, v: seq<string>, k: Candidate)
    requires UsersFit(g, u) && k.m < |g.syms| && Takes(g, u, v, k) != Takes(g, Assignments(u), v, k)
    ensures g.syms[k.m].special.Some? && UserSeen(u, k.m).Some? && UserSeen(u, k.m).value != SymVis(g, v, k.m)
  {
    hide SymVis;
    PlainVisibility(g, u, v, k.m);
    if g.syms[k.m].special.None? { PlainIsSeen(g, u, v, k.m); }
  }
}
