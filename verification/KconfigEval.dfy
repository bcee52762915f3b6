/** The evaluator: symbols and choices that cache what they compute, and drop
    the caches that a user assignment may have made stale. */
module KconfigEval {
  import opened Options
  import opened KconfigExpr
  import opened KconfigGraph
  import opened KconfigDeps

  class Symbol {
    var userVal: Option<string>
    var cachedVal: Option<string>
    var cachedVis: Option<Tri>
    var dep: set<SymId>
    var cachedDeps: Option<set<SymId>>

    constructor (special: Option<string>)
      ensures userVal == None && cachedVal == special && cachedVis == None && dep == {} && cachedDeps == None
    {
      userVal, cachedVal, cachedVis, dep, cachedDeps := None, special, None, {}, None;
    }
  }

  /** A cached selection of Some(None) records that nothing is selected. */
  class Choice {
    var userSel: Option<SymId>
    var userMode: Option<Tri>
    var cachedSel: Option<Option<SymId>>
    var cachedVis: Option<Tri>

    constructor ()
      ensures userSel == None && userMode == None && cachedSel == None && cachedVis == None
    {
      userSel, userMode, cachedSel, cachedVis := None, None, None, None;
    }
  }

  ghost predicate IsNew(x: Symbol, special: Option<string>)
    reads x
  {
    x.userVal == None && x.cachedVal == special && x.cachedVis == None && x.dep == {} && x.cachedDeps == None
  }

  ghost predicate IsNewChoice(x: Choice)
    reads x
  {
    x.userSel == None && x.userMode == None && x.cachedSel == None && x.cachedVis == None
  }

  method MakeSymbols(g: Graph) returns (ss: seq<Symbol>)
    ensures |ss| == |g.syms| && forall k :: 0 <= k < |ss| ==> fresh(ss[k]) && IsNew(ss[k], g.syms[k].special)
    ensures forall j, k :: 0 <= j < k < |ss| ==> ss[j] != ss[k]
  {
    ss := [];
    for i := 0 to |g.syms|
      invariant |ss| == i && forall k :: 0 <= k < i ==> fresh(ss[k]) && IsNew(ss[k], g.syms[k].special)
      invariant forall j, k :: 0 <= j < k < i ==> ss[j] != ss[k]
    {
      var x := new Symbol(g.syms[i].special);
      ss := ss + [x];
    }
  }

  method MakeChoices(g: Graph) returns (cs: seq<Choice>)
    ensures |cs| == |g.choices| && forall k :: 0 <= k < |cs| ==> fresh(cs[k]) && IsNewChoice(cs[k])
    ensures forall j, k :: 0 <= j < k < |cs| ==> cs[j] != cs[k]
  {
    cs := [];
    for i := 0 to |g.choices|
      invariant |cs| == i && forall k :: 0 <= k < i ==> fresh(cs[k]) && IsNewChoice(cs[k])
      invariant forall j, k :: 0 <= j < k < i ==> cs[j] != cs[k]
    {
      var x := new Choice();
      cs := cs + [x];
    }
  }

  function NoUsers(g: Graph): (u: Users)
    ensures UsersFit(g, u)
  {
    Users(seq(|g.syms|, _ => None), seq(|g.choices|, _ => None), seq(|g.choices|, _ => None), seq(|g.syms|, _ => None))
  }

  /** Whether the text is a legal value for the type. */
  predicate ValidFor(g: Graph, typ: SymType, text: string) {
    match typ
    case Bool => text == "y" || text == "n"
    case Tristate => text == "y" || text == "m" || text == "n"
    case String => true
    case Int => g.numbers.parse(text, 10).Some?
    case Hex => g.numbers.parse(text, 16).Some?
    case Unknown => false
  }

  /** The user state after assigning text to s; illegal assignments are ignored. */
  function Assign(g: Graph, u: Users, s: SymId, text: string): (r: Users)
    requires UsersFit(g, u) && s < |g.syms| && WellFormed(g)
    ensures r.seen == u.seen
  {
    var d := g.syms[s];
    if d.special.Some? || !d.defined || !ValidFor(g, d.typ, text) then u
    else
      var u1 := u.(val := u.val[s := Some(text)]);
      if d.choice.Some? && IsTri(d.typ) then
        ChoiceInRange(g, s);
        var c := d.choice.value;
        if text == "y" then u1.(sel := u.sel[c := Some(s)], mode := u.mode[c := Some(Y)])
        else if text == "m" then u1.(sel := u.sel[c := None], mode := u.mode[c := Some(M)])
        else u1
      else u1
  }

  function Unassign(g: Graph, u: Users, s: SymId): (r: Users)
    requires UsersFit(g, u) && s < |g.syms| && WellFormed(g)
    ensures r.seen == u.seen
  {
    var u1 := u.(val := u.val[s := None]);
    if g.syms[s].choice.Some? then
      ChoiceInRange(g, s);
      var c := g.syms[s].choice.value;
      u1.(sel := u.sel[c := None], mode := u.mode[c := None])
    else u1
  }

  lemma ChoiceInRange(g: Graph, s: SymId)
    requires WellFormed(g) && s < |g.syms|
    ensures g.syms[s].choice.Some? ==>
              g.syms[s].choice.value < |g.choices| && s in g.choices[g.syms[s].choice.value].members
  {
    assert WellFormedSym(g, s);
  }

  lemma AssignFits(g: Graph, u: Users, s: SymId, text: string)
    requires UsersFit(g, u) && s < |g.syms| && WellFormed(g)
    ensures UsersFit(g, Assign(g, u, s, text)) && DifferOnlyAt(g, u, Assign(g, u, s, text), s)
    ensures UsersFit(g, Unassign(g, u, s)) && DifferOnlyAt(g, u, Unassign(g, u, s), s)
  {
    ChoiceInRange(g, s);
  }

  /** What every cache held at some moment. */
  datatype Caches = Caches(
    val: seq<Option<string>>, vis: seq<Option<Tri>>, sel: seq<Option<Option<SymId>>>, choiceVis: seq<Option<Tri>>)

  class Config {
    const g: Graph
    const syms: seq<Symbol>
    const choices: seq<Choice>
    ghost const order: Order
    ghost var users: Users
    ghost var vals: seq<string>

    /** The objects are the graph's, each its own. */
    ghost predicate Wired() {
      && Layered(g, order)
      && |syms| == |g.syms| && |choices| == |g.choices|
      && (forall i, j :: 0 <= i < j < |syms| ==> syms[i] != syms[j])
      && (forall i, j :: 0 <= i < j < |choices| ==> choices[i] != choices[j])
    }

    /** users is what the objects record; vals is every value computed from it afresh. */
    ghost predicate Tracks()
      reads this`users, this`vals, syms`userVal, choices`userSel, choices`userMode
    {
      Wired() && UsersFit(g, users) && Records(users) && IsSolution(g, users, vals)
    }

    ghost predicate Records(u: Users)
      reads syms`userVal, choices`userSel, choices`userMode
    {
      && |u.val| == |syms| && |u.sel| == |u.mode| == |choices|
      && (forall i :: 0 <= i < |syms| ==> syms[i].userVal == u.val[i])
      && (forall c :: 0 <= c < |choices| ==> choices[c].userSel == u.sel[c])
      && (forall c :: 0 <= c < |choices| ==> choices[c].userMode == u.mode[c])
    }

    /** Every cache that is filled holds what a fresh computation would give, where a
        visibility that is frozen stays what it was. Left out are choices that nothing
        refreshes, and the visibilities of their members. */
    ghost predicate SymHolds(u: Users, i: SymId)
      requires Wired() && i < |syms|
      reads this`vals, syms`cachedVal, syms`cachedVis
    {
      && (syms[i].cachedVal.Some? ==> |vals| == |syms| && syms[i].cachedVal.value == vals[i])
      && (g.syms[i].special.Some? ==> syms[i].cachedVal == g.syms[i].special)
      && (VisIsKnown(g, i) && syms[i].cachedVis.Some? ==> syms[i].cachedVis.value == MemberVis(g, u, vals, i))
      && (UserSeen(u, i).Some? ==> syms[i].cachedVis == UserSeen(u, i))
    }

    ghost predicate ChoiceHolds(u: Users, c: ChoiceId)
      requires Wired() && c < |choices|
      reads this`vals, choices`cachedSel, choices`cachedVis
    {
      Refreshes(g, c) ==>
        && (choices[c].cachedVis.Some? ==> choices[c].cachedVis.value == ChoiceVis(g, vals, c))
        && (choices[c].cachedSel.Some? ==> choices[c].cachedSel.value == Selection(g, u, vals, c))
    }

    ghost predicate SymCoherent(i: SymId)
      requires Wired() && i < |syms|
      reads this`users, this`vals, syms`cachedVal, syms`cachedVis
    {
      SymHolds(users, i)
    }

    ghost predicate ChoiceCoherent(c: ChoiceId)
      requires Wired() && c < |choices|
      reads this`users, this`vals, choices`cachedSel, choices`cachedVis
    {
      ChoiceHolds(users, c)
    }

    ghost predicate Coherent()
      requires Wired()
      reads this`users, this`vals, syms`cachedVal, syms`cachedVis, choices`cachedSel, choices`cachedVis
    {
      && (forall i :: 0 <= i < |syms| ==> SymCoherent(i))
      && (forall c :: 0 <= c < |choices| ==> ChoiceCoherent(c))
    }

    ghost predicate Valid()
      reads this`users, this`vals, syms`userVal, syms`cachedVal, syms`cachedVis
      reads choices`userSel, choices`userMode, choices`cachedSel, choices`cachedVis
    {
      Tracks() && Coherent()
    }

    constructor (g: Graph, ghost order: Order)
      requires Layered(g, order)
      ensures this.g == g && this.order == order
      ensures Valid() && DepsReady()
      ensures users == NoUsers(g) && |syms| == |g.syms|
      ensures forall i :: 0 <= i < |syms| ==> syms[i].cachedVis == None
      ensures forall i :: 0 <= i < |syms| ==> fresh(syms[i])
      ensures forall i :: 0 <= i < |choices| ==> fresh(choices[i])
    {
      hide *;
      var ss := MakeSymbols(g);
      var cs := MakeChoices(g);
      this.g, this.order, syms, choices := g, order, ss, cs;
      users := NoUsers(g);
      vals := Solution(g, order, NoUsers(g));
      new;
      NewIsWired();
      NewIsValid();
      BuildDep();
      NewDepsReady();
    }

    lemma NewIsWired()
      requires Layered(g, order) && |syms| == |g.syms| && |choices| == |g.choices|
      requires forall j, k :: 0 <= j < k < |syms| ==> syms[j] != syms[k]
      requires forall j, k :: 0 <= j < k < |choices| ==> choices[j] != choices[k]
      requires forall i :: 0 <= i < |syms| ==> IsNew(syms[i], g.syms[i].special)
      ensures Wired() && forall t :: 0 <= t < |syms| ==> syms[t].cachedDeps == None && syms[t].cachedVis == None
    {
      hide Layered;
    }

    lemma NewDepsReady()
      requires Wired() && forall t :: 0 <= t < |syms| ==> syms[t].dep == Dep(g, t)
      requires forall t :: 0 <= t < |syms| ==> syms[t].cachedDeps == None
      ensures DepsReady()
    {
    }

    lemma NewIsValid()
      requires Wired() && users == NoUsers(g) && vals == Solution(g, order, users)
      requires forall i :: 0 <= i < |syms| ==> IsNew(syms[i], g.syms[i].special)
      requires forall c :: 0 <= c < |choices| ==> IsNewChoice(choices[c])
      ensures Valid() && DepsUpTo(0, {})
    {
      WiredFacts();
      hide Layered, Solution, Calc, SymVis, Selection;
      SolutionExists(g, order, users);
      assert Records(users);
      forall i | 0 <= i < |syms| ensures SymCoherent(i) {
        assert IsNew(syms[i], g.syms[i].special);
        if g.syms[i].special.Some? { SpecialIsFixed(g, users, vals, i); }
      }
      forall c | 0 <= c < |choices| ensures ChoiceCoherent(c) { assert IsNewChoice(choices[c]); }
      forall t | 0 <= t < |syms| ensures syms[t].dep == (set x | x in Dep(g, t) && x < 0) {
        assert IsNew(syms[t], g.syms[t].special);
      }
    }

    // ---------- Filling a cache ----------

    method CacheValue(s: SymId, text: string)
      requires Valid() && s < |syms| && text == vals[s]
      modifies {syms[s]}`cachedVal
      ensures Valid() && syms[s].cachedVal == Some(text)
    {
      hide Calc, Layered, UsersFit, SymVis, Selection, ChoiceVis;
      syms[s].cachedVal := Some(text);
      forall i | 0 <= i < |syms| ensures SymCoherent(i) { assert old(SymCoherent(i)); }
    }

    method CacheVisibility(s: SymId, vis: Tri)
      requires Valid() && s < |syms| && UserSeen(users, s).None?
      requires VisIsKnown(g, s) ==> vis == MemberVis(g, users, vals, s)
      modifies {syms[s]}`cachedVis
      ensures Valid() && syms[s].cachedVis == Some(vis)
    {
      hide IsSolution, Layered, UsersFit, SymVis, MemberVis, VisIsKnown, Selection, ChoiceVis;
      syms[s].cachedVis := Some(vis);
      forall i | 0 <= i < |syms| ensures SymCoherent(i) { assert old(SymCoherent(i)); }
    }

    method CacheChoiceVisibility(c: ChoiceId, vis: Tri)
      requires Valid() && c < |choices| && (Refreshes(g, c) ==> vis == ChoiceVis(g, vals, c))
      modifies {choices[c]}`cachedVis
      ensures Valid() && choices[c].cachedVis == Some(vis)
    {
      hide IsSolution, Layered, UsersFit, SymVis, Refreshes, Selection, ChoiceVis;
      choices[c].cachedVis := Some(vis);
      forall i | 0 <= i < |choices| ensures ChoiceCoherent(i) { assert old(ChoiceCoherent(i)); }
    }

    method CacheSelection(c: ChoiceId, sel: Option<SymId>)
      requires Valid() && c < |choices| && (Refreshes(g, c) ==> sel == Selection(g, users, vals, c))
      modifies {choices[c]}`cachedSel
      ensures Valid() && choices[c].cachedSel == Some(sel)
    {
      hide IsSolution, Layered, UsersFit, SymVis, Refreshes, Selection, ChoiceVis;
      choices[c].cachedSel := Some(sel);
      forall i | 0 <= i < |choices| ensures ChoiceCoherent(i) { assert old(ChoiceCoherent(i)); }
    }

    // ---------- What Valid gives the readers ----------

    lemma SymFacts(s: SymId)
      requires Valid() && s < |syms|
      ensures |syms| == |g.syms| == |order.sym| && |choices| == |g.choices| == |order.choice|
      ensures Below(order, SymRefs(g, s), order.sym[s]) && WellFormedSym(g, s)
      ensures Below(order, OptSyms(Some(g.syms[s].revDep)), order.sym[s])
      ensures syms[s].userVal == UserVal(users, s)
      ensures VisIsKnown(g, s) && syms[s].cachedVis.Some? ==> syms[s].cachedVis.value == MemberVis(g, users, vals, s)
      ensures UserSeen(users, s).Some? ==> syms[s].cachedVis == UserSeen(users, s) && !VisIsTracked(g, s)
      ensures g.syms[s].special.None? ==> VisIsKnown(g, s)
      ensures g.syms[s].choice.Some? ==>
                var c := g.syms[s].choice.value;
                c < |choices| && order.choice[c] == order.sym[s] && s in g.choices[c].members
    {
      hide SymVis, Selection, Calc, VisIsKnown, MemberVis;
      PlainKnown(s);
      assert WellFormedSym(g, s) && SymCoherent(s);
      if g.syms[s].choice.Some? { assert InLayerOfChoice(order, s, g.syms[s].choice.value); }
    }

    lemma PlainKnown(s: SymId)
      requires Wired() && s < |syms|
      ensures g.syms[s].special.None? ==> VisIsKnown(g, s)
    {
      if g.syms[s].special.None? { PlainMemberRefreshes(g, s); }
    }

    lemma ChoiceFacts(c: ChoiceId)
      requires Valid() && c < |choices|
      ensures |syms| == |g.syms| == |order.sym| && |choices| == |g.choices| == |order.choice|
      ensures forall m :: m in g.choices[c].members ==>
                m < |syms| && order.sym[m] == order.choice[c] && g.syms[m].choice == Some(c)
      ensures forall m :: m in g.choices[c].members ==> (VisIsKnown(g, m) <==> Refreshes(g, c))
      ensures Below(order, ChoiceRefs(g, c), order.choice[c])
      ensures forall i :: 0 <= i < |g.choices[c].defaults| ==> g.choices[c].defaults[i].sym in g.choices[c].members
      ensures Refreshes(g, c) && choices[c].cachedVis.Some? ==>
                choices[c].cachedVis.value == ChoiceVis(g, vals, c)
      ensures Refreshes(g, c) && choices[c].cachedSel.Some? ==>
                choices[c].cachedSel.value == Selection(g, users, vals, c)
      ensures choices[c].userSel == UserSel(users, c) && choices[c].userMode == UserMode(users, c)
      ensures choices[c].userSel.Some? ==> choices[c].userSel.value in g.choices[c].members
    {
      hide SymVis, Selection, ChoiceVis, Calc, Refreshes;
      assert WellFormedChoice(g, c) && ChoiceCoherent(c);
      forall m | m in g.choices[c].members
        ensures m < |syms| && order.sym[m] == order.choice[c] && g.syms[m].choice == Some(c)
      {
        assert WellFormedSym(g, m) && InLayerOfChoice(order, m, c);
      }
    }

    // ---------- Reading values ----------

    method EvalExpr(e: Option<Expr>, ghost layer: nat) returns (r: Tri)
      requires Valid() && Below(order, OptSyms(e), layer)
      modifies syms`cachedVal, syms`cachedVis, choices`cachedSel, choices`cachedVis
      ensures Valid()
      ensures r == Cond(g, vals, e)
      decreases layer, 1
    {
      if e.None? { return Y; }
      var res := EvalExprRec(e.value, layer);
      r := if res == M && !g.modules then Y else res;
    }

    method EvalExprRec(e: Expr, ghost layer: nat) returns (r: Tri)
      requires Valid() && Below(order, Syms(e), layer)
      modifies syms`cachedVal, syms`cachedVis, choices`cachedSel, choices`cachedVis
      ensures Valid()
      ensures r == Eval(Env(TriSyms(g), vals), e)
      decreases layer, 1, e
    {
      hide Tracks, Coherent, TriSyms;
      match e {
        case Leaf(a) =>
          r := EvalAtom(a, layer);
        case Not(f) =>
          var ev := EvalExprRec(f, layer);
          r := NotTri(ev);
        case Rel(equal, l, right) =>
          var a := StrVal(l, layer);
          var b := StrVal(right, layer);
          r := if (a == b) == equal then Y else N;
        case And(es) =>
          r := EvalAllRec(es, layer);
        case Or(es) =>
          r := EvalAnyRec(es, layer);
      }
    }

    /** A symbol that is neither bool nor tristate counts as "n". */
    method EvalAtom(a: Atom, ghost layer: nat) returns (r: Tri)
      requires Valid() && Below(order, AtomSyms(a), layer)
      modifies syms`cachedVal, syms`cachedVis, choices`cachedSel, choices`cachedVis
      ensures Valid()
      ensures r == AtomTri(Env(TriSyms(g), vals), a)
      decreases layer, 0
    {
      hide Coherent, Calc;
      if a.Sym? {
        if !IsTri(g.syms[a.id].typ) { return N; }
        var text := GetValue(a.id);
        r := TriOf(text);
      } else {
        r := TriOf(a.s);
      }
    }

    /** Stops at the first "n". */
    method EvalAllRec(es: seq<Expr>, ghost layer: nat) returns (r: Tri)
      requires Valid() && Below(order, SymsOfAll(es), layer)
      modifies syms`cachedVal, syms`cachedVis, choices`cachedSel, choices`cachedVis
      ensures Valid()
      ensures r == EvalAll(Env(TriSyms(g), vals), es)
      decreases layer, 1, es
    {
      r := Y;
      for i := 0 to |es|
        invariant Valid() && r != N
        invariant EvalAll(Env(TriSyms(g), vals), es) == MinTri(r, EvalAll(Env(TriSyms(g), vals), es[i..]))
      {
        SymsOfElement(es, i);
        assert es[i..][1..] == es[i + 1..];
        var ev := EvalExprRec(es[i], layer);
        if ev == N { return N; }
        if ev == M { r := M; }
      }
      assert es[|es|..] == [];
    }

    /** Stops at the first "y". */
    method EvalAnyRec(es: seq<Expr>, ghost layer: nat) returns (r: Tri)
      requires Valid() && Below(order, SymsOfAll(es), layer)
      modifies syms`cachedVal, syms`cachedVis, choices`cachedSel, choices`cachedVis
      ensures Valid()
      ensures r == EvalAny(Env(TriSyms(g), vals), es)
      decreases layer, 1, es
    {
      r := N;
      for i := 0 to |es|
        invariant Valid() && r != Y
        invariant EvalAny(Env(TriSyms(g), vals), es) == MaxTri(r, EvalAny(Env(TriSyms(g), vals), es[i..]))
      {
        SymsOfElement(es, i);
        assert es[i..][1..] == es[i + 1..];
        var ev := EvalExprRec(es[i], layer);
        if ev == Y { return Y; }
        if ev == M { r := M; }
      }
      assert es[|es|..] == [];
    }

    method StrVal(a: Atom, ghost layer: nat) returns (text: string)
      requires Valid() && Below(order, AtomSyms(a), layer)
      modifies syms`cachedVal, syms`cachedVis, choices`cachedSel, choices`cachedVis
      ensures Valid()
      ensures text == AtomStr(Env(TriSyms(g), vals), a)
      decreases layer, 0
    {
      if a.Str? { return a.s; }
      text := GetValue(a.id);
    }

    method GetPromptVis(prompts: seq<Option<Expr>>, ghost layer: nat) returns (vis: Tri)
      requires Valid() && Below(order, PromptSyms(prompts), layer)
      modifies syms`cachedVal, syms`cachedVis, choices`cachedSel, choices`cachedVis
      ensures Valid()
      ensures vis == PromptVis(g, vals, prompts)
      decreases layer, 2
    {
      vis := N;
      for i := 0 to |prompts|
        invariant Valid()
        invariant vis == PromptVis(g, vals, prompts[..i])
      {
        assert OptSyms(prompts[i]) <= PromptSyms(prompts);
        assert prompts[..i + 1][..i] == prompts[..i];
        var ev := EvalExpr(prompts[i], layer);
        vis := MaxTri(Promote(g, vis), ev);
      }
      assert prompts[..|prompts|] == prompts;
    }

    method GetChoiceVisibility(c: ChoiceId) returns (vis: Tri)
      requires Valid() && c < |choices|
      modifies syms`cachedVal, syms`cachedVis, choices`cachedSel, choices`cachedVis
      ensures Valid()
      ensures Refreshes(g, c) ==> vis == ChoiceVis(g, vals, c)
      decreases order.choice[c], 3
    {
      hide Valid, PromptVis, Selection, SymVis, Refreshes;
      ChoiceFacts(c);
      if choices[c].cachedVis.Some? { return choices[c].cachedVis.value; }
      vis := GetPromptVis(g.choices[c].prompts, order.choice[c]);
      if vis == M && g.choices[c].typ != Tristate { vis := Y; }
      CacheChoiceVisibility(c, vis);
    }

    method GetVisibility(s: SymId) returns (vis: Tri)
      requires Valid() && s < |syms|
      modifies syms`cachedVal, syms`cachedVis, choices`cachedSel, choices`cachedVis
      ensures Valid()
      ensures VisIsKnown(g, s) ==> vis == MemberVis(g, users, vals, s)
      ensures g.syms[s].special.None? ==> vis == SymVis(g, vals, s)
      ensures syms[s].cachedVis == Some(vis)
      ensures old(syms[s].cachedVis).Some? ==> vis == old(syms[s].cachedVis).value
      decreases order.sym[s], 4
    {
      hide Valid, PromptVis, Selection;
      SymFacts(s);
      if syms[s].cachedVis.Some? { return syms[s].cachedVis.value; }
      vis := GetPromptVis(g.syms[s].prompts, order.sym[s]);
      if g.syms[s].choice.Some? {
        var outer := GetChoiceVisibility(g.syms[s].choice.value);
        vis := MinTri(Promote(g, vis), Promote(g, outer));
      }
      if vis == M && g.syms[s].typ != Tristate { vis := Y; }
      CacheVisibility(s, vis);
    }

    method GetMode(c: ChoiceId) returns (mode: Tri)
      requires Valid() && c < |choices|
      modifies syms`cachedVal, syms`cachedVis, choices`cachedSel, choices`cachedVis
      ensures Valid()
      ensures Refreshes(g, c) ==> mode == Mode(g, users, vals, c)
      decreases order.choice[c], 5
    {
      hide Valid, ChoiceVis;
      ChoiceFacts(c);
      var minimumMode := if g.choices[c].optional then N else M;
      mode := if choices[c].userMode.Some? then choices[c].userMode.value else minimumMode;
      var vis := GetChoiceVisibility(c);
      mode := MinTri(Promote(g, mode), Promote(g, vis));
      if mode == M && g.choices[c].typ == Bool { mode := Y; }
    }

    method GetSelection(c: ChoiceId) returns (sel: Option<SymId>)
      requires Valid() && c < |choices|
      modifies syms`cachedVal, syms`cachedVis, choices`cachedSel, choices`cachedVis
      ensures Valid()
      ensures Refreshes(g, c) ==> sel == Selection(g, users, vals, c)
      decreases order.choice[c], 6
    {
      hide Valid, SymVis, MemberVis, VisIsKnown, Refreshes, Mode, SelectionFromDefaults, ChoiceVis;
      ChoiceFacts(c);
      if choices[c].cachedSel.Some? { return choices[c].cachedSel.value; }
      var mode := GetMode(c);
      if mode != Y {
        CacheSelection(c, None);
        return None;
      }
      if choices[c].userSel.Some? {
        var vis := GetVisibility(choices[c].userSel.value);
        if vis == Y {
          sel := choices[c].userSel;
          CacheSelection(c, sel);
          return;
        }
      }
      if g.choices[c].optional {
        CacheSelection(c, None);
        return None;
      }
      sel := GetSelectionFromDefaults(c);
      CacheSelection(c, sel);
    }

    method GetSelectionFromDefaults(c: ChoiceId) returns (sel: Option<SymId>)
      requires Valid() && c < |choices|
      modifies syms`cachedVal, syms`cachedVis, choices`cachedSel, choices`cachedVis
      ensures Valid()
      ensures Refreshes(g, c) ==> sel == SelectionFromDefaults(g, users, vals, c)
      decreases order.choice[c], 5
    {
      hide Valid, SymVis, Cond, MemberVis, VisIsKnown, Refreshes;
      ChoiceFacts(c);
      var d := g.choices[c];
      if d.members == [] { return None; }
      var chosen := d.members[0];
      var i := 0;
      while i < |d.defaults|
        invariant 0 <= i <= |d.defaults| && Valid() && chosen == d.members[0]
        invariant FirstChoiceDefault(g, vals, d.defaults) == FirstChoiceDefault(g, vals, d.defaults[i..])
      {
        assert OptSyms(d.defaults[i].cond) <= ChoiceRefs(g, c);
        assert d.defaults[i..][1..] == d.defaults[i + 1..];
        var ev := EvalExpr(d.defaults[i].cond, order.choice[c]);
        if ev != N {
          chosen := d.defaults[i].sym;
          break;
        }
        i := i + 1;
      }
      var vis := GetVisibility(chosen);
      if vis != N { return Some(chosen); }
      for k := 0 to |d.members|
        invariant Valid()
        invariant Refreshes(g, c) ==>
                    FirstVisible(g, users, vals, d.members) == FirstVisible(g, users, vals, d.members[k..])
      {
        assert d.members[k..][1..] == d.members[k + 1..];
        vis := GetVisibility(d.members[k]);
        if vis != N { return Some(d.members[k]); }
      }
      return None;
    }

    method GetValue(s: SymId) returns (text: string)
      requires Valid() && s < |syms|
      modifies syms`cachedVal, syms`cachedVis, choices`cachedSel, choices`cachedVis
      ensures Valid()
      ensures text == vals[s]
      decreases order.sym[s], 9
    {
      hide MemberValue, TriValue, NumberValue, StringValue, SymVis, ChoiceVis, Selection;
      assert SymCoherent(s);
      if syms[s].cachedVal.Some? { return syms[s].cachedVal.value; }
      var d := g.syms[s];
      assert vals[s] == Calc(g, users, vals, s);
      if d.typ == Unknown {
        text := d.name;
      } else if IsTri(d.typ) {
        var t;
        if d.choice.Some? {
          t := GetMemberValue(s);
        } else {
          t := GetTriValue(s);
        }
        text := TriStr(t);
      } else if d.typ == String {
        text := GetStringValue(s);
      } else {
        text := GetNumberValue(s);
      }
      CacheValue(s, text);
    }

    method GetMemberValue(s: SymId) returns (t: Tri)
      requires Valid() && s < |syms| && g.syms[s].special.None? && g.syms[s].choice.Some?
      modifies syms`cachedVal, syms`cachedVis, choices`cachedSel, choices`cachedVis
      ensures Valid()
      ensures t == MemberValue(g, users, vals, s, g.syms[s].choice.value)
      decreases order.sym[s], 8
    {
      hide Valid, SymVis, MemberVis, VisIsKnown, Mode, Selection;
      SymFacts(s);
      ChoiceFacts(g.syms[s].choice.value);
      var c := g.syms[s].choice.value;
      t := N;
      var vis := GetVisibility(s);
      if vis != N {
        var mode := GetMode(c);
        if mode == Y {
          var sel := GetSelection(c);
          t := if sel == Some(s) then Y else N;
        } else if mode == M {
          if syms[s].userVal == Some("m") || syms[s].userVal == Some("y") { t := M; }
        }
      }
      if t == M && g.syms[s].typ == Bool { t := Y; }
    }

    method GetTriValue(s: SymId) returns (t: Tri)
      requires Valid() && s < |syms| && g.syms[s].special.None?
      modifies syms`cachedVal, syms`cachedVis, choices`cachedSel, choices`cachedVis
      ensures Valid()
      ensures t == TriValue(g, users, vals, s)
      decreases order.sym[s], 8, 1
    {
      hide Valid, SymVis, OwnTri, SymRefs, Syms, Below, WellFormedSym, Cond, VisIsKnown, MemberVis;
      SymFacts(s);
      t := GetOwnTri(s);
      var selected := EvalExpr(Some(g.syms[s].revDep), order.sym[s]);
      PromotedCond(g, vals, Some(g.syms[s].revDep));
      if selected != N { t := MaxTri(Promote(g, t), Promote(g, selected)); }
      if t == M && g.syms[s].typ == Bool { t := Y; }
    }

    method GetOwnTri(s: SymId) returns (t: Tri)
      requires Valid() && s < |syms| && g.syms[s].special.None?
      modifies syms`cachedVal, syms`cachedVis, choices`cachedSel, choices`cachedVis
      ensures Valid()
      ensures t == OwnTri(g, users, vals, s)
      decreases order.sym[s], 8, 0
    {
      hide Valid, SymVis, FirstDefault, SymRefs, Syms, Below, WellFormedSym, VisIsKnown, MemberVis, Cond;
      SymFacts(s);
      t := N;
      var vis := GetVisibility(s);
      if vis != N && syms[s].userVal.Some? {
        return MinTri(Promote(g, TriOf(syms[s].userVal.value)), Promote(g, vis));
      }
      var def, cond := FindDefault(s);
      if def.Some? {
        var ev := EvalExpr(Some(def.value.value), order.sym[s]);
        PromotedCond(g, vals, def.value.cond);
        t := MinTri(ev, Promote(g, cond));
      }
    }

    /** The first default whose condition is not "n", with that condition's value. */
    method FindDefault(s: SymId) returns (def: Option<Default>, cond: Tri)
      requires Valid() && s < |syms|
      modifies syms`cachedVal, syms`cachedVis, choices`cachedSel, choices`cachedVis
      ensures Valid()
      ensures def == FirstDefault(g, vals, g.syms[s].defaults)
      ensures def.Some? ==> cond == Cond(g, vals, def.value.cond)
      ensures def.Some? ==> def.value in g.syms[s].defaults && Below(order, Syms(def.value.value), order.sym[s])
      ensures def.Some? ==> Below(order, OptSyms(Some(def.value.value)), order.sym[s])
      decreases order.sym[s], 7
    {
      hide Valid, Cond;
      SymFacts(s);
      var ds := g.syms[s].defaults;
      cond := N;
      for i := 0 to |ds|
        invariant Valid()
        invariant FirstDefault(g, vals, ds) == FirstDefault(g, vals, ds[i..])
      {
        assert Syms(ds[i].value) + OptSyms(ds[i].cond) <= DefaultSyms(ds);
        assert ds[i..][1..] == ds[i + 1..];
        cond := EvalExpr(ds[i].cond, order.sym[s]);
        if cond != N { return Some(ds[i]), cond; }
      }
      return None, cond;
    }

    method GetStringValue(s: SymId) returns (text: string)
      requires Valid() && s < |syms| && !IsTri(g.syms[s].typ) && g.syms[s].special.None?
      modifies syms`cachedVal, syms`cachedVis, choices`cachedSel, choices`cachedVis
      ensures Valid()
      ensures text == StringValue(g, users, vals, s)
      decreases order.sym[s], 8
    {
      hide Valid, SymVis, MemberVis, VisIsKnown, FirstDefault;
      SymFacts(s);
      text := "";
      var vis := GetVisibility(s);
      if vis != N && syms[s].userVal.Some? { return syms[s].userVal.value; }
      var def, _ := FindDefault(s);
      if def.Some? {
        text := StrVal(def.value.value.a, order.sym[s]);
      }
    }

    /** The first range whose condition is not "n", its ends read as numbers. */
    method FindRange(s: SymId) returns (active: bool, low: int, high: int)
      requires Valid() && s < |syms|
      modifies syms`cachedVal, syms`cachedVis, choices`cachedSel, choices`cachedVis
      ensures Valid()
      ensures var range := FirstRange(g, vals, g.syms[s].ranges);
              && active == range.Some?
              && (active ==> low == Bound(g, vals, range.value.low, NumberBase(g.syms[s].typ)))
              && (active ==> high == Bound(g, vals, range.value.high, NumberBase(g.syms[s].typ)))
      decreases order.sym[s], 7
    {
      hide Valid, Cond;
      SymFacts(s);
      var rs := g.syms[s].ranges;
      var base := NumberBase(g.syms[s].typ);
      for i := 0 to |rs|
        invariant Valid()
        invariant FirstRange(g, vals, rs) == FirstRange(g, vals, rs[i..])
      {
        assert AtomSyms(rs[i].low) + AtomSyms(rs[i].high) + OptSyms(rs[i].cond) <= RangeSyms(rs);
        assert rs[i..][1..] == rs[i + 1..];
        var cond := EvalExpr(rs[i].cond, order.sym[s]);
        if cond != N {
          var lowStr := StrVal(rs[i].low, order.sym[s]);
          var highStr := StrVal(rs[i].high, order.sym[s]);
          var l := g.numbers.parse(lowStr, base);
          var h := g.numbers.parse(highStr, base);
          return true, if l.Some? then l.value else 0, if h.Some? then h.value else 0;
        }
      }
      return false, 0, 0;
    }

    method GetNumberValue(s: SymId) returns (text: string)
      requires Valid() && s < |syms| && !IsTri(g.syms[s].typ) && g.syms[s].special.None?
      modifies syms`cachedVal, syms`cachedVis, choices`cachedSel, choices`cachedVis
      ensures Valid()
      ensures text == NumberValue(g, users, vals, s)
      decreases order.sym[s], 8
    {
      hide Valid, SymVis, MemberVis, VisIsKnown, NumberDefault, FirstRange, Bound, Shown;
      SymFacts(s);
      var d := g.syms[s];
      var base := NumberBase(d.typ);
      text := "";
      var vis := GetVisibility(s);
      var active, low, high := FindRange(s);
      if vis != N && syms[s].userVal.Some? {
        var n := g.numbers.parse(syms[s].userVal.value, base);
        if n.Some? && (!active || low <= n.value <= high) { return syms[s].userVal.value; }
      }
      var isNumber;
      isNumber, text := FindNumberDefault(s);
      if isNumber {
        var n := g.numbers.parse(text, base);
        if n.Some? && active {
          if n.value < low {
            text := Shown(g, d.typ, low);
          } else if n.value > high {
            text := Shown(g, d.typ, high);
          }
        }
      } else if active && low > 0 {
        text := Shown(g, d.typ, low);
      }
    }

    /** The first enabled default that is a number ends the search; others only leave their text. */
    method FindNumberDefault(s: SymId) returns (isNumber: bool, text: string)
      requires Valid() && s < |syms| && !IsTri(g.syms[s].typ)
      modifies syms`cachedVal, syms`cachedVis, choices`cachedSel, choices`cachedVis
      ensures Valid()
      ensures (isNumber, text) == NumberDefault(g, vals, g.syms[s].defaults, NumberBase(g.syms[s].typ), "")
      decreases order.sym[s], 7
    {
      hide Valid, Cond;
      SymFacts(s);
      var ds := g.syms[s].defaults;
      var base := NumberBase(g.syms[s].typ);
      text := "";
      assert ds[0..] == ds;
      for i := 0 to |ds|
        invariant Valid()
        invariant NumberDefault(g, vals, ds, base, "") == NumberDefault(g, vals, ds[i..], base, text)
      {
        assert Syms(ds[i].value) + OptSyms(ds[i].cond) <= DefaultSyms(ds);
        assert ds[i..][1..] == ds[i + 1..];
        var cond := EvalExpr(ds[i].cond, order.sym[s]);
        if cond != N {
          text := StrVal(ds[i].value.a, order.sym[s]);
          if g.numbers.parse(text, base).Some? { return true, text; }
        }
      }
      return false, text;
    }

    // ---------- Dependency sets ----------

    /** Each symbol's direct dependents are recorded, and so are the closures computed so far. */
    ghost predicate DepsReady()
      requires Wired()
      reads syms`dep, syms`cachedDeps
    {
      forall t :: 0 <= t < |syms| ==>
        && syms[t].dep == Dep(g, t)
        && (syms[t].cachedDeps.Some? ==> syms[t].cachedDeps.value == Dependents(g, order, t))
    }

    /** All symbols below s are recorded where they are mentioned; s itself only for done. */
    ghost predicate DepsUpTo(s: SymId, done: set<SymId>)
      requires Wired()
      reads syms`dep
    {
      forall t :: 0 <= t < |syms| ==>
        syms[t].dep == (set x | x in Dep(g, t) && x < s) + (if t in done then {s} else {})
    }

    method AddExprDeps(refs: set<SymId>, s: SymId, ghost done: set<SymId>)
      requires Wired() && s < |syms| && DepsUpTo(s, done) && forall t :: t in refs ==> t < |syms|
      modifies syms`dep
      ensures DepsUpTo(s, done + refs)
    {
      hide Dep, Layered, UsersFit, WellFormed;
      var todo := refs;
      while todo != {}
        invariant todo <= refs
        invariant DepsUpTo(s, done + (refs - todo))
      {
        var t :| t in todo;
        todo := todo - {t};
        syms[t].dep := syms[t].dep + {s};
      }
      assert refs - todo == refs;
    }

    method BuildDep()
      requires Wired() && DepsUpTo(0, {})
      modifies syms`dep
      ensures forall t :: 0 <= t < |syms| ==> syms[t].dep == Dep(g, t)
    {
      for s := 0 to |syms|
        invariant DepsUpTo(s, {})
      {
        BuildDepOf(s);
      }
      forall t | 0 <= t < |syms| ensures syms[t].dep == Dep(g, t) {
        assert (set x | x in Dep(g, t) && x < |syms|) == Dep(g, t);
      }
    }

    method BuildDepOf(s: SymId)
      requires Wired() && s < |syms| && DepsUpTo(s, {})
      modifies syms`dep
      ensures DepsUpTo(s + 1, {})
    {
      var d := g.syms[s];
      RefsInRange(g, s);
      hide PromptSyms, DefaultSyms, RangeSyms, ChoiceDefaultSyms, DepsUpTo, Layered;
      AddPromptDeps(d.prompts, s, {});
      AddDefaultDeps(d.defaults, s, {} + PromptSyms(d.prompts));
      ghost var done := {} + PromptSyms(d.prompts) + DefaultSyms(d.defaults);
      AddExprDeps(Syms(d.revDep), s, done);
      AddRangeDeps(d.ranges, s, done + Syms(d.revDep));
      done := done + Syms(d.revDep) + RangeSyms(d.ranges);
      assert done == SymRefs(g, s);
      if d.choice.Some? {
        var c := d.choice.value;
        AddPromptDeps(g.choices[c].prompts, s, done);
        AddChoiceDefaultDeps(g.choices[c].defaults, s, done + PromptSyms(g.choices[c].prompts));
        done := done + PromptSyms(g.choices[c].prompts) + ChoiceDefaultSyms(g.choices[c].defaults);
      }
      assert done == DirectRefs(g, s);
      DepsOfNext(s, done);
    }

    method AddDefaultDeps(ds: seq<Default>, s: SymId, ghost done: set<SymId>)
      requires Wired() && s < |syms| && DepsUpTo(s, done) && forall t :: t in DefaultSyms(ds) ==> t < |syms|
      modifies syms`dep
      ensures DepsUpTo(s, done + DefaultSyms(ds))
    {
      hide DepsUpTo;
      assert done + DefaultSyms(ds[..0]) == done;
      for i := 0 to |ds|
        invariant DepsUpTo(s, done + DefaultSyms(ds[..i]))
      {
        DefaultSymsStep(ds, i);
        ghost var before := done + DefaultSyms(ds[..i]);
        AddExprDeps(Syms(ds[i].value), s, before);
        AddExprDeps(OptSyms(ds[i].cond), s, before + Syms(ds[i].value));
        assert before + Syms(ds[i].value) + OptSyms(ds[i].cond) == done + DefaultSyms(ds[..i + 1]);
      }
      assert ds[..|ds|] == ds;
    }

    method AddRangeDeps(rs: seq<Range>, s: SymId, ghost done: set<SymId>)
      requires Wired() && s < |syms| && DepsUpTo(s, done) && forall t :: t in RangeSyms(rs) ==> t < |syms|
      modifies syms`dep
      ensures DepsUpTo(s, done + RangeSyms(rs))
    {
      hide DepsUpTo;
      assert done + RangeSyms(rs[..0]) == done;
      for i := 0 to |rs|
        invariant DepsUpTo(s, done + RangeSyms(rs[..i]))
      {
        RangeSymsStep(rs, i);
        ghost var before := done + RangeSyms(rs[..i]);
        var r := rs[i];
        AddExprDeps(AtomSyms(r.low), s, before);
        AddExprDeps(AtomSyms(r.high), s, before + AtomSyms(r.low));
        AddExprDeps(OptSyms(r.cond), s, before + AtomSyms(r.low) + AtomSyms(r.high));
        assert before + AtomSyms(r.low) + AtomSyms(r.high) + OptSyms(r.cond) == done + RangeSyms(rs[..i + 1]);
      }
      assert rs[..|rs|] == rs;
    }

    method AddChoiceDefaultDeps(ds: seq<ChoiceDefault>, s: SymId, ghost done: set<SymId>)
      requires Wired() && s < |syms| && DepsUpTo(s, done) && forall t :: t in ChoiceDefaultSyms(ds) ==> t < |syms|
      modifies syms`dep
      ensures DepsUpTo(s, done + ChoiceDefaultSyms(ds))
    {
      hide DepsUpTo;
      assert done + ChoiceDefaultSyms(ds[..0]) == done;
      for i := 0 to |ds|
        invariant DepsUpTo(s, done + ChoiceDefaultSyms(ds[..i]))
      {
        ChoiceDefaultSymsStep(ds, i);
        ghost var before := done + ChoiceDefaultSyms(ds[..i]);
        AddExprDeps(OptSyms(ds[i].cond), s, before);
        assert before + OptSyms(ds[i].cond) == done + ChoiceDefaultSyms(ds[..i + 1]);
      }
      assert ds[..|ds|] == ds;
    }

    method AddPromptDeps(ps: seq<Option<Expr>>, s: SymId, ghost done: set<SymId>)
      requires Wired() && s < |syms| && DepsUpTo(s, done) && forall t :: t in PromptSyms(ps) ==> t < |syms|
      modifies syms`dep
      ensures DepsUpTo(s, done + PromptSyms(ps))
    {
      hide DepsUpTo;
      assert done + PromptSyms(ps[..0]) == done;
      for i := 0 to |ps|
        invariant DepsUpTo(s, done + PromptSyms(ps[..i]))
      {
        PromptSymsStep(ps, i);
        ghost var before := done + PromptSyms(ps[..i]);
        AddExprDeps(OptSyms(ps[i]), s, before);
        assert before + OptSyms(ps[i]) == done + PromptSyms(ps[..i + 1]);
      }
      assert ps[..|ps|] == ps;
    }

    lemma DepsOfNext(s: SymId, done: set<SymId>)
      requires Wired() && s < |syms| && DepsUpTo(s, done) && done == DirectRefs(g, s)
      ensures DepsUpTo(s + 1, {})
    {
      forall t | 0 <= t < |syms|
        ensures syms[t].dep == set x | x in Dep(g, t) && x < s + 1
      {
        assert t in done <==> s in Dep(g, t);
      }
    }

    lemma WiredFacts()
      requires Wired()
      ensures Layered(g, order) && WellFormed(g)
      ensures |syms| == |g.syms| == |order.sym| && |choices| == |g.choices| == |order.choice|
    {
    }

    method GetDependent(s: SymId) returns (res: set<SymId>)
      requires Wired() && DepsReady() && s < |syms|
      modifies syms`cachedDeps
      ensures DepsReady()
      ensures res == Dependents(g, order, s)
      decreases order.top - order.sym[s], 3
    {
      WiredFacts();
      hide OwnReach, Dep, DepsReady, Wired, Layered;
      RecordedDeps(s);
      if syms[s].cachedDeps.Some? { return syms[s].cachedDeps.value; }
      SameLayer(g, order, s);
      res := UnionOfDependents(s);
      if g.syms[s].choice.Some? {
        var more := SiblingDependents(s);
        res := res + more;
      } else {
        NoSiblings(g, order, s);
      }
      StoreDeps(s, res);
    }

    /** Choice members also reach their siblings and what these reach. */
    method SiblingDependents(s: SymId) returns (res: set<SymId>)
      requires Wired() && DepsReady() && s < |syms| && g.syms[s].choice.Some?
      requires forall m :: m in Siblings(g, s) ==> m < |syms| && order.sym[m] == order.sym[s]
      modifies syms`cachedDeps
      ensures DepsReady()
      ensures res == Siblings(g, s) + GroupReach(g, order, s, Siblings(g, s))
      decreases order.top - order.sym[s], 2
    {
      hide *;
      WiredFacts();
      SiblingsAreMembers(g, s);
      var members := g.choices[g.syms[s].choice.value].members;
      res := {};
      ghost var done := {};
      NoGroupReach(g, order, s);
      for i := 0 to |members|
        invariant DepsReady() && done <= Siblings(g, s)
        invariant forall k :: 0 <= k < i && members[k] != s ==> members[k] in done
        invariant res == done + GroupReach(g, order, s, done)
      {
        assert members[i] in members;
        if members[i] != s {
          var m := members[i];
          var more := UnionOfDependents(m);
          GroupReachStep(g, order, s, done, m);
          done := done + {m};
          res := res + {m} + more;
        }
      }
      assert done == Siblings(g, s);
    }

    method StoreDeps(s: SymId, res: set<SymId>)
      requires Wired() && DepsReady() && s < |syms| && res == Dependents(g, order, s)
      modifies {syms[s]}`cachedDeps
      ensures DepsReady()
    {
      hide Dependents, Dep;
      syms[s].cachedDeps := Some(res);
    }

    lemma RecordedDeps(m: SymId)
      requires Wired() && DepsReady() && m < |syms|
      ensures |syms| == |g.syms| && syms[m].dep == Dep(g, m)
      ensures syms[m].cachedDeps.Some? ==> syms[m].cachedDeps.value == Dependents(g, order, m)
    {
      hide Dependents, Dep;
    }

    /** The direct dependents of m, and all of theirs. */
    method UnionOfDependents(m: SymId) returns (res: set<SymId>)
      requires Wired() && DepsReady() && m < |syms|
      modifies syms`cachedDeps
      ensures DepsReady()
      ensures res == OwnReach(g, order, m)
      decreases order.top - order.sym[m], 1
    {
      hide *;
      WiredFacts();
      RecordedDeps(m);
      NoDeepReach(g, order, m);
      res := syms[m].dep;
      var todo := syms[m].dep;
      assert Dep(g, m) - todo == {};
      while todo != {}
        invariant DepsReady() && todo <= Dep(g, m)
        invariant res == Dep(g, m) + DeepReach(g, order, m, Dep(g, m) - todo)
      {
        var t :| t in todo;
        var more := GetDependent(t);
        DeepReachStep(g, order, m, Dep(g, m) - todo, t);
        assert (Dep(g, m) - todo) + {t} == Dep(g, m) - (todo - {t});
        res := res + more;
        todo := todo - {t};
      }
      assert Dep(g, m) - todo == Dep(g, m);
    }

    // ---------- Dropping caches ----------

    /** The caches of symbol i, and those of its choice, are empty. */
    ghost predicate Dropped(i: SymId)
      requires Wired() && i < |syms|
      reads syms`cachedVal, syms`cachedVis, choices`cachedSel, choices`cachedVis
    {
      g.syms[i].special.None? ==>
        && syms[i].cachedVal == None && syms[i].cachedVis == None
        && (g.syms[i].choice.Some? && g.syms[i].choice.value < |choices| ==>
              ChoiceDropped(g.syms[i].choice.value))
    }

    ghost predicate ChoiceDropped(c: ChoiceId)
      requires c < |choices|
      reads choices`cachedSel, choices`cachedVis
    {
      choices[c].cachedSel == None && choices[c].cachedVis == None
    }

    /** The visibilities that nothing will refresh, as far as they have been read. */
    ghost function Frozen(): (z: seq<Option<Tri>>)
      reads syms
      ensures |z| == |syms|
      ensures forall i :: 0 <= i < |syms| ==> z[i] == if VisIsTracked(g, i) then None else syms[i].cachedVis
    {
      seq(|syms|, i requires 0 <= i < |syms| reads syms => if VisIsTracked(g, i) then None else syms[i].cachedVis)
    }

    /** What was read for the first time since the last assignment counts as frozen from
        now on. It holds what a fresh computation still gives, so no value changes. */
    ghost method Rebase()
      requires Valid()
      modifies this`users
      ensures Valid()
      ensures users == old(Base()) && users.seen == Frozen() && Base() == users
    {
      ghost var u := users;
      ValidParts();
      TracksFacts();
      assert forall i :: 0 <= i < |syms| ==> SymCoherent(i) && SymHolds(u, i);
      assert forall c :: 0 <= c < |choices| ==> ChoiceCoherent(c) && ChoiceHolds(u, c);
      users := u.(seen := Frozen());
      RebaseKeeps(u);
    }

    lemma RebaseKeeps(u: Users)
      requires Wired() && UsersFit(g, u) && Records(u) && IsSolution(g, u, vals) && users == u.(seen := Frozen())
      requires forall i :: 0 <= i < |syms| ==> SymHolds(u, i)
      requires forall c :: 0 <= c < |choices| ==> ChoiceHolds(u, c)
      ensures Valid()
    {
      hide Layered, SymVis, Selection, ChoiceVis, Calc, VisIsKnown, VisIsTracked, Refreshes, IsSolution;
      WiredFacts();
      RebasedFits(u);
      forall i | 0 <= i < |syms| && VisIsKnown(g, i) ensures MemberVis(g, u, vals, i) == MemberVis(g, users, vals, i) {
        assert SymHolds(u, i);
      }
      assert SeesAlike(g, u, users, vals);
      SameSolution(g, u, users, vals);
      forall i | 0 <= i < |syms| ensures SymCoherent(i) { assert SymHolds(u, i); }
      forall c | 0 <= c < |choices| ensures ChoiceCoherent(c) {
        assert ChoiceHolds(u, c);
        if Refreshes(g, c) { SameSelection(g, u, users, vals, c); }
      }
      ValidParts();
    }

    lemma RebasedFits(u: Users)
      requires Wired() && UsersFit(g, u) && Records(u) && users == u.(seen := Frozen())
      ensures UsersFit(g, users) && Records(users)
    {
      hide VisIsTracked;
    }

    /** What the evaluator goes by: the assignments, and what is frozen now. */
    ghost function Base(): Users
      reads this`users, syms
    {
      users.(seen := Frozen())
    }

    ghost function Snapshot(): (c: Caches)
      reads syms, choices
      ensures OnlyDropped(c)
    {
      Caches(seq(|syms|, i requires 0 <= i < |syms| reads syms => syms[i].cachedVal),
             seq(|syms|, i requires 0 <= i < |syms| reads syms => syms[i].cachedVis),
             seq(|choices|, i requires 0 <= i < |choices| reads choices => choices[i].cachedSel),
             seq(|choices|, i requires 0 <= i < |choices| reads choices => choices[i].cachedVis))
    }

    /** Since the snapshot caches were emptied, never filled, and special symbols kept theirs. */
    ghost predicate OnlyDropped(c: Caches)
      reads syms`cachedVal, syms`cachedVis, choices`cachedSel, choices`cachedVis
    {
      && |c.val| == |c.vis| == |syms| && |c.sel| == |c.choiceVis| == |choices|
      && (forall i :: 0 <= i < |syms| ==> SymOnlyDropped(c, i))
      && (forall k :: 0 <= k < |choices| ==> ChoiceOnlyDropped(c, k))
    }

    ghost predicate SymOnlyDropped(c: Caches, i: SymId)
      requires |c.val| == |c.vis| == |syms| && i < |syms|
      reads syms`cachedVal, syms`cachedVis
    {
      && (syms[i].cachedVal == c.val[i] || (syms[i].cachedVal == None && SymOf(g, i).special.None?))
      && (syms[i].cachedVis == c.vis[i] || (syms[i].cachedVis == None && SymOf(g, i).special.None?))
    }

    ghost predicate ChoiceOnlyDropped(c: Caches, k: ChoiceId)
      requires |c.sel| == |c.choiceVis| == |choices| && k < |choices|
      reads choices`cachedSel, choices`cachedVis
    {
      && (choices[k].cachedSel == c.sel[k] || choices[k].cachedSel == None)
      && (choices[k].cachedVis == c.choiceVis[k] || choices[k].cachedVis == None)
    }

    method Invalidate(s: SymId, ghost c: Caches)
      requires Wired() && s < |syms| && OnlyDropped(c)
      modifies syms`cachedVal, syms`cachedVis, choices`cachedSel, choices`cachedVis
      ensures OnlyDropped(c) && Dropped(s)
      ensures forall i :: 0 <= i < |syms| && old(Dropped(i)) ==> Dropped(i)
    {
      WiredFacts();
      hide Wired, Layered, OnlyDropped;
      if g.syms[s].special.Some? { return; }
      ChoiceInRange(g, s);
      if g.syms[s].choice.Some? {
        InvalidateChoice(g.syms[s].choice.value, c);
      }
      DropSym(s, c);
    }

    method DropSym(s: SymId, ghost c: Caches)
      requires Wired() && s < |syms| && OnlyDropped(c) && g.syms[s].special.None?
      modifies {syms[s]}`cachedVal, {syms[s]}`cachedVis
      ensures OnlyDropped(c) && syms[s].cachedVal == None && syms[s].cachedVis == None
      ensures forall i :: 0 <= i < |syms| && old(Dropped(i)) ==> Dropped(i)
    {
      WiredFacts();
      hide Layered;
      syms[s].cachedVal := None;
      syms[s].cachedVis := None;
      assert forall i :: 0 <= i < |syms| && old(SymOnlyDropped(c, i)) ==> SymOnlyDropped(c, i);
    }

    method InvalidateChoice(k: ChoiceId, ghost c: Caches)
      requires Wired() && k < |choices| && OnlyDropped(c)
      modifies {choices[k]}`cachedSel, {choices[k]}`cachedVis
      ensures OnlyDropped(c) && ChoiceDropped(k)
      ensures forall i :: 0 <= i < |syms| && old(Dropped(i)) ==> Dropped(i)
    {
      hide Layered;
      choices[k].cachedSel := None;
      choices[k].cachedVis := None;
      assert forall i :: 0 <= i < |choices| && old(ChoiceOnlyDropped(c, i)) ==> ChoiceOnlyDropped(c, i);
      assert forall i :: 0 <= i < |choices| && old(ChoiceDropped(i)) ==> ChoiceDropped(i);
    }

    method InvalidateDependent(s: SymId, ghost c: Caches)
      requires Wired() && DepsReady() && s < |syms| && OnlyDropped(c)
      modifies syms`cachedVal, syms`cachedVis, choices`cachedSel, choices`cachedVis, syms`cachedDeps
      ensures DepsReady() && OnlyDropped(c)
      ensures forall i :: i in Dependents(g, order, s) && i < |syms| ==> Dropped(i)
      ensures forall i :: 0 <= i < |syms| && old(Dropped(i)) ==> Dropped(i)
    {
      hide *;
      WiredFacts();
      DependentsAreSyms(s);
      var all := GetDependent(s);
      var todo := all;
      while todo != {}
        invariant DepsReady() && OnlyDropped(c) && todo <= all
        invariant forall i :: i in all - todo && i < |syms| ==> Dropped(i)
        invariant forall i :: 0 <= i < |syms| && old(Dropped(i)) ==> Dropped(i)
      {
        var t :| t in todo;
        Invalidate(t, c);
        todo := todo - {t};
      }
      assert all - todo == all;
    }

    lemma DependentsAreSyms(s: SymId)
      requires Wired() && s < |syms|
      ensures forall i :: i in Dependents(g, order, s) ==> i < |syms|
    {
      WiredFacts();
      hide Dependents, Wired, Layered;
      DependentsInRange(g, order, s);
      forall i | i in Dependents(g, order, s) ensures i < |syms| { DependentsAreAffected(g, order, s, i); }
    }

    method InvalidateAll(ghost c: Caches)
      requires Wired() && OnlyDropped(c)
      modifies syms`cachedVal, syms`cachedVis, choices`cachedSel, choices`cachedVis
      ensures OnlyDropped(c)
      ensures forall i :: 0 <= i < |syms| ==> Dropped(i)
    {
      hide *;
      for s := 0 to |syms|
        invariant OnlyDropped(c)
        invariant forall i :: 0 <= i < s ==> Dropped(i)
      {
        Invalidate(s, c);
      }
    }

    // ---------- Coherence after dropping ----------

    lemma SnapshotIsCoherent(c: Caches)
      requires Valid() && c == Snapshot() && users.seen == Frozen()
      ensures CachesCoherent(g, users, vals, c)
    {
      hide SymVis, MemberVis, VisIsKnown, Selection, ChoiceVis, Calc, Layered;
      forall i | 0 <= i < |g.syms| ensures SymCacheCoherent(g, users, vals, c, i) { assert SymCoherent(i); }
      forall k | 0 <= k < |g.choices| ensures ChoiceCacheCoherent(g, users, vals, c, k) { assert ChoiceCoherent(k); }
    }

    /** Emptying the caches of x and its dependents is enough when only x was assigned. */
    lemma CoherentAfterChange(u: Users, v: seq<string>, x: SymId, c: Caches)
      requires Tracks() && x < |syms| && OnlyDropped(c)
      requires UsersFit(g, u) && IsSolution(g, u, v) && CachesCoherent(g, u, v, c)
      requires DifferOnlyAt(g, u, users, x)
      requires forall i :: i in Affected(g, order, x) && i < |syms| ==> Dropped(i)
      ensures Coherent()
    {
      WiredFacts();
      hide Wired, Layered, Affected, Calc, SymVis, Selection, ChoiceVis;
      forall i | 0 <= i < |syms| ensures SymCoherent(i) { SymCoherentAfter(u, v, x, c, i); }
      forall k | 0 <= k < |choices| ensures ChoiceCoherent(k) { ChoiceCoherentAfter(u, v, x, c, k); }
    }

    lemma SymCoherentAfter(u: Users, v: seq<string>, x: SymId, c: Caches, i: SymId)
      requires Tracks() && x < |syms| && OnlyDropped(c) && i < |syms|
      requires UsersFit(g, u) && IsSolution(g, u, v) && CachesCoherent(g, u, v, c)
      requires DifferOnlyAt(g, u, users, x)
      requires i in Affected(g, order, x) ==> Dropped(i)
      ensures SymCoherent(i)
    {
      WiredFacts();
      hide Wired, Layered, Affected, Calc, Selection, ChoiceVis, SymVis, VisIsKnown;
      assert SymOnlyDropped(c, i) && SymCacheCoherent(g, u, v, c, i);
      if g.syms[i].special.Some? {
        SpecialIsFixed(g, users, vals, i);
        SpecialIsFixed(g, u, v, i);
        if VisIsTracked(g, i) {
          PromptlessIsHidden(g, v, i);
          PromptlessIsHidden(g, vals, i);
        }
      } else if i !in Affected(g, order, x) {
        UnaffectedValue(g, order, u, users, v, vals, x, i);
        UnaffectedVisibility(g, order, u, users, v, vals, x, i);
      }
    }

    lemma ChoiceCoherentAfter(u: Users, v: seq<string>, x: SymId, c: Caches, k: ChoiceId)
      requires Tracks() && x < |syms| && OnlyDropped(c) && k < |choices|
      requires UsersFit(g, u) && IsSolution(g, u, v) && CachesCoherent(g, u, v, c)
      requires DifferOnlyAt(g, u, users, x)
      requires forall i :: i in Affected(g, order, x) && i < |syms| ==> Dropped(i)
      ensures ChoiceCoherent(k)
    {
      WiredFacts();
      hide Wired, Layered, Affected, Calc, Selection, ChoiceVis, SymVis, Mode;
      assert ChoiceOnlyDropped(c, k) && ChoiceCacheCoherent(g, u, v, c, k);
      assert WellFormedChoice(g, k);
      if Refreshes(g, k) {
        if exists m :: m in g.choices[k].members && m in Affected(g, order, x) {
          var m :| m in g.choices[k].members && m in Affected(g, order, x);
          var p :| p in g.choices[k].members && SymOf(g, p).special.None?;
          MemberIsAffected(g, order, x, k, m, p);
          assert WellFormedSym(g, p) && Dropped(p) && ChoiceDropped(k);
        } else {
          UnaffectedChoice(g, order, u, users, v, vals, x, k);
        }
      }
    }

    /** With every cache empty only the special symbols' fixed values are left. */
    lemma CoherentWhenDropped(u: Users, v: seq<string>, c: Caches)
      requires Tracks() && OnlyDropped(c) && CachesCoherent(g, u, v, c)
      requires IsSolution(g, u, v)
      requires forall i :: 0 <= i < |syms| ==> Dropped(i)
      requires users.seen == u.seen
      ensures Coherent()
    {
      WiredFacts();
      hide Wired, Layered, Calc, SymVis, Selection, ChoiceVis, VisIsKnown;
      forall i | 0 <= i < |syms| ensures SymCoherent(i) {
        assert Dropped(i) && SymOnlyDropped(c, i) && SymCacheCoherent(g, u, v, c, i);
        if g.syms[i].special.Some? {
          SpecialIsFixed(g, users, vals, i);
          SpecialIsFixed(g, u, v, i);
          if VisIsTracked(g, i) {
            PromptlessIsHidden(g, v, i);
            PromptlessIsHidden(g, vals, i);
          }
        }
      }
      forall k | 0 <= k < |choices| ensures ChoiceCoherent(k) {
        assert WellFormedChoice(g, k);
        if Refreshes(g, k) {
          var m :| m in g.choices[k].members && SymOf(g, m).special.None?;
          assert WellFormedSym(g, m) && Dropped(m);
        }
      }
    }

    // ---------- Assigning ----------

    method StoreValue(s: SymId, text: Option<string>, ghost u: Users)
      requires Wired() && s < |syms| && Records(u)
      modifies {syms[s]}`userVal
      ensures Records(u.(val := u.val[s := text]))
    {
      hide Layered;
      syms[s].userVal := text;
    }

    method StoreChoice(c: ChoiceId, sel: Option<SymId>, mode: Option<Tri>, ghost u: Users)
      requires Wired() && c < |choices| && Records(u)
      modifies {choices[c]}`userSel, {choices[c]}`userMode
      ensures Records(u.(sel := u.sel[c := sel], mode := u.mode[c := mode]))
    {
      hide Layered;
      choices[c].userSel := sel;
      choices[c].userMode := mode;
    }

    ghost method Recompute(u: Users)
      requires Wired() && UsersFit(g, u) && Records(u)
      modifies this`users, this`vals
      ensures Tracks() && users == u
    {
      hide Layered, UsersFit;
      users := u;
      vals := Solution(g, order, u);
      SolutionExists(g, order, u);
    }

    method SetUserValueNoInvalidate(s: SymId, text: string)
      requires Tracks() && s < |syms|
      modifies this`users, this`vals, {syms[s]}`userVal, choices`userSel, choices`userMode
      ensures Tracks()
      ensures users == Assign(g, old(users), s, text)
    {
      hide Tracks, Wired, Layered, UsersFit, Records, DifferOnlyAt, IsSolution, WellFormed;
      TracksFacts();
      AssignFits(g, users, s, text);
      ChoiceInRange(g, s);
      var d := g.syms[s];
      if d.special.Some? || !d.defined || !ValidFor(g, d.typ, text) { return; }
      ghost var u := users;
      StoreValue(s, Some(text), u);
      ghost var u1 := u.(val := u.val[s := Some(text)]);
      if d.choice.Some? && IsTri(d.typ) {
        if text == "y" {
          StoreChoice(d.choice.value, Some(s), Some(Y), u1);
        } else if text == "m" {
          StoreChoice(d.choice.value, None, Some(M), u1);
        }
      }
      Recompute(Assign(g, u, s, text));
    }

    method ClearUserValue(s: SymId)
      requires Tracks() && s < |syms|
      modifies this`users, this`vals, {syms[s]}`userVal, choices`userSel, choices`userMode
      ensures Tracks()
      ensures users == Unassign(g, old(users), s)
    {
      hide Tracks, Wired, Layered, UsersFit, Records, DifferOnlyAt, IsSolution, WellFormed;
      TracksFacts();
      AssignFits(g, users, s, "n");
      ChoiceInRange(g, s);
      ghost var u := users;
      StoreValue(s, None, u);
      if g.syms[s].choice.Some? {
        StoreChoice(g.syms[s].choice.value, None, None, u.(val := u.val[s := None]));
      }
      Recompute(Unassign(g, u, s));
    }

    method UnsetUserValueNoRecursiveInvalidate(s: SymId, ghost c: Caches)
      requires Tracks() && s < |syms| && OnlyDropped(c)
      modifies this`users, this`vals, {syms[s]}`userVal, choices`userSel, choices`userMode
      modifies syms`cachedVal, syms`cachedVis, choices`cachedSel, choices`cachedVis
      ensures Tracks() && OnlyDropped(c) && Dropped(s)
      ensures forall i :: 0 <= i < |syms| && old(Dropped(i)) ==> Dropped(i)
      ensures users == Unassign(g, old(users), s)
    {
      hide *;
      TracksFacts();
      ChoiceInRange(g, s);
      Invalidate(s, c);
      if g.syms[s].choice.Some? {
        InvalidateChoice(g.syms[s].choice.value, c);
      }
      ClearUserValue(s);
    }

    lemma TracksFacts()
      requires Tracks()
      ensures Wired() && Layered(g, order) && WellFormed(g)
      ensures UsersFit(g, users) && Records(users) && IsSolution(g, users, vals)
      ensures |users.val| == |syms| && |users.sel| == |users.mode| == |choices|
      ensures |syms| == |g.syms| == |order.sym| && |choices| == |g.choices| == |order.choice|
    {
    }

    lemma ValidParts()
      ensures Valid() <==> Tracks() && Coherent()
    {
    }

    lemma SpecialsKept(c: Caches)
      requires OnlyDropped(c)
      ensures |c.vis| == |syms|
      ensures forall i :: 0 <= i < |syms| && SymOf(g, i).special.Some? ==> syms[i].cachedVis == c.vis[i]
    {
      forall i | 0 <= i < |syms| && SymOf(g, i).special.Some? ensures syms[i].cachedVis == c.vis[i] {
        assert SymOnlyDropped(c, i);
      }
    }

    /** The caches as they are, with what is known about them. */
    ghost method TakeSnapshot() returns (c: Caches)
      requires Valid()
      modifies this`users
      ensures Valid() && users == old(Base()) && users.seen == Frozen()
      ensures OnlyDropped(c) && CachesCoherent(g, users, vals, c)
      ensures |c.vis| == |syms| && forall i :: 0 <= i < |syms| ==> c.vis[i] == syms[i].cachedVis
    {
      hide Valid;
      Rebase();
      c := Snapshot();
      SnapshotIsCoherent(c);
    }

    /** Specials kept their caches, so what was frozen is frozen still. */
    lemma StillFrozen(c: Caches, z: seq<Option<Tri>>)
      requires OnlyDropped(c) && |z| == |syms| && |c.vis| == |syms|
      requires forall i :: 0 <= i < |syms| ==> z[i] == if VisIsTracked(g, i) then None else c.vis[i]
      ensures Frozen() == z
    {
      hide OnlyDropped;
      SpecialsKept(c);
      assert forall i :: 0 <= i < |syms| ==> Frozen()[i] == z[i];
    }

    lemma FrozenAt(c: Caches)
      requires |c.vis| == |syms| && forall i :: 0 <= i < |syms| ==> c.vis[i] == syms[i].cachedVis
      ensures |Frozen()| == |syms|
      ensures forall i :: 0 <= i < |syms| ==> Frozen()[i] == if VisIsTracked(g, i) then None else c.vis[i]
    {
    }

    method SetUserValue(s: SymId, text: string)
      requires Valid() && DepsReady() && s < |syms|
      modifies this`users, this`vals, syms, choices
      ensures Valid() && DepsReady()
      ensures users == Assign(g, old(Base()), s, text) && users.seen == Frozen()
    {
      hide *;
      ghost var c := TakeSnapshot();
      ValidParts();
      TracksFacts();
      AssignFits(g, users, s, text);
      ghost var u, v := users, vals;
      FrozenAt(c);
      SetUserValueNoInvalidate(s, text);
      if g.syms[s].name == "MODULES" {
        InvalidateAll(c);
        CoherentWhenDropped(u, v, c);
      } else {
        Invalidate(s, c);
        InvalidateDependent(s, c);
        AffectedParts(g, order, s);
        CoherentAfterChange(u, v, s, c);
      }
      StillFrozen(c, u.seen);
      ValidParts();
    }

    method UnsetUserValue(s: SymId)
      requires Valid() && DepsReady() && s < |syms|
      modifies this`users, this`vals, syms, choices
      ensures Valid() && DepsReady()
      ensures users == Unassign(g, old(Base()), s) && users.seen == Frozen()
    {
      hide *;
      ghost var c := TakeSnapshot();
      ValidParts();
      TracksFacts();
      AssignFits(g, users, s, "n");
      ghost var u, v := users, vals;
      FrozenAt(c);
      UnsetUserValueNoRecursiveInvalidate(s, c);
      InvalidateDependent(s, c);
      AffectedParts(g, order, s);
      CoherentAfterChange(u, v, s, c);
      StillFrozen(c, u.seen);
      ValidParts();
    }

    method UnsetUserValues()
      requires Valid() && DepsReady()
      modifies this`users, this`vals, syms, choices
      ensures Valid() && DepsReady()
      ensures users == UnassignAll(g, old(Base()), |g.syms|) && users.seen == Frozen()
      ensures forall i :: 0 <= i < |syms| ==> Dropped(i)
    {
      hide *;
      ghost var c := TakeSnapshot();
      ValidParts();
      TracksFacts();
      ghost var u, v := users, vals;
      FrozenAt(c);
      UnassignAllSteps(g, u);
      for s := 0 to |syms|
        invariant Tracks() && DepsReady() && OnlyDropped(c)
        invariant users == UnassignAll(g, u, s)
        invariant forall i :: 0 <= i < s ==> Dropped(i)
      {
        UnsetUserValueNoRecursiveInvalidate(s, c);
      }
      StillFrozen(c, u.seen);
      CoherentWhenDropped(u, v, c);
      ValidParts();
    }

    /** Before a file is read: forget the user values, or only the caches. */
    method StartLoad(replace: bool)
      requires Valid() && DepsReady()
      modifies this`users, this`vals, syms, choices
      ensures Valid() && DepsReady()
      ensures users == (if replace then UnassignAll(g, old(Base()), |g.syms|) else old(Base())) &&
              users.seen == Frozen()
      ensures forall i :: 0 <= i < |syms| ==> Dropped(i)
    {
      hide *;
      ValidParts();
      TracksFacts();
      if replace {
        UnsetUserValues();
      } else {
        ghost var c := TakeSnapshot();
        ghost var u, v := users, vals;
        ValidParts();
        TracksFacts();
        FrozenAt(c);
        InvalidateAll(c);
        StillFrozen(c, u.seen);
        CoherentWhenDropped(u, v, c);
        ValidParts();
      }
    }

    method AssignLines(lines: seq<(SymId, string)>)
      requires Valid() && DepsReady() && forall l :: l in lines ==> l.0 < |syms|
      requires users.seen == Frozen() && forall i :: 0 <= i < |syms| ==> Dropped(i)
      modifies this`users, this`vals, syms, choices
      ensures Valid() && DepsReady()
      ensures users == AssignAll(g, old(users), lines) && users.seen == Frozen()
    {
      hide *;
      ghost var u := users;
      BaseIsUsers();
      ghost var c := TakeSnapshot();
      ValidParts();
      TracksFacts();
      ghost var v := vals;
      FrozenAt(c);
      AssignNone(g, u);
      for k := 0 to |lines|
        invariant Tracks() && DepsReady() && OnlyDropped(c)
        invariant users == AssignAll(g, u, lines[..k])
        invariant forall i :: 0 <= i < |syms| ==> Dropped(i)
      {
        TracksFacts();
        AssignAllStep(g, u, lines, k);
        SetUserValueNoInvalidate(lines[k].0, lines[k].1);
      }
      assert lines[..|lines|] == lines;
      StillFrozen(c, u.seen);
      CoherentWhenDropped(u, v, c);
      ValidParts();
    }

    lemma BaseIsUsers()
      requires users.seen == Frozen()
      ensures Base() == users
    {
    }

    /** A .config file as the assignments it makes, in order; with replace, earlier
        user values are forgotten first. */
    method LoadConfig(lines: seq<(SymId, string)>, replace: bool)
      requires Valid() && DepsReady() && forall l :: l in lines ==> l.0 < |syms|
      modifies this`users, this`vals, syms, choices
      ensures Valid() && DepsReady()
      ensures users == AssignAll(g, if replace then UnassignAll(g, old(Base()), |g.syms|) else old(Base()), lines)
      ensures users.seen == Frozen()
    {
      hide *;
      ValidParts();
      TracksFacts();
      StartLoad(replace);
      AssignLines(lines);
    }

    // ---------- Whole runs ----------

    lemma ValsAreRecomputed()
      requires Valid()
      ensures Layered(g, order) && |syms| == |g.syms| && |choices| == |g.choices|
      ensures vals == Solution(g, order, users)
    {
      ValidParts();
      TracksFacts();
      hide Valid, Tracks, Wired, Layered, Calc, UsersFit;
      SolutionExists(g, order, users);
      SolutionIsUnique(g, order, users, vals, Solution(g, order, users));
    }

    /** The values are those of the assignments alone when every frozen visibility a choice
        can see is what it would be now; without special choice members it always is. */
    lemma ValuesAreCurrent()
      requires Valid()
      ensures Layered(g, order) && |vals| == |syms| == |g.syms|
      ensures SeenIsCurrent(g, users, vals) ==> vals == Solution(g, order, Assignments(users))
      ensures NoSpecialMembers(g) ==> SeenIsCurrent(g, users, vals)
    {
      ValidParts();
      TracksFacts();
      hide Valid, Tracks, Wired, Layered, Calc, UsersFit, SeenIsCurrent, WellFormed;
      if NoSpecialMembers(g) { NoSpecialsNothingFrozen(g, users, vals); }
      if SeenIsCurrent(g, users, vals) { CurrentSeenIsHarmless(g, order, users, vals); }
    }

    /** What is cached is what a computation with no caches would give now: in every
        configuration by the assignments and what is frozen, and by the assignments alone
        where no choice has a special member. */
    lemma CachesAreRecomputed(s: SymId)
      requires Valid() && s < |syms|
      ensures Layered(g, order) && |syms| == |g.syms|
      ensures syms[s].cachedVal.Some? ==> syms[s].cachedVal.value == ValueOf(g, order, users, s)
      ensures VisIsKnown(g, s) && syms[s].cachedVis.Some? ==>
                syms[s].cachedVis.value == MemberVis(g, users, Solution(g, order, users), s)
      ensures VisIsTracked(g, s) && VisIsKnown(g, s) ==>
                MemberVis(g, users, Solution(g, order, users), s) == SymVis(g, Solution(g, order, users), s)
      ensures NoSpecialMembers(g) ==> Solution(g, order, users) == Solution(g, order, Assignments(users))
    {
      hide Tracks, Layered, SymVis, Calc, UsersFit, VisIsKnown, VisIsTracked;
      ValidParts();
      ValsAreRecomputed();
      TracksFacts();
      ValuesAreCurrent();
      assert SymCoherent(s);
      assert vals[s] == ValueOf(g, order, users, s);
      if VisIsTracked(g, s) { NotFrozen(s); }
    }

    lemma NotFrozen(s: SymId)
      requires Tracks() && s < |syms| && VisIsTracked(g, s)
      ensures UserSeen(users, s).None?
    {
    }

    lemma ChoiceCachesAreRecomputed(c: ChoiceId)
      requires Valid() && c < |choices| && Refreshes(g, c)
      ensures Layered(g, order)
      ensures choices[c].cachedVis.Some? ==> choices[c].cachedVis.value == ChoiceVis(g, Solution(g, order, users), c)
      ensures choices[c].cachedSel.Some? ==>
                choices[c].cachedSel.value == Selection(g, users, Solution(g, order, users), c)
      ensures NoSpecialMembers(g) ==>
                Selection(g, users, Solution(g, order, users), c) ==
                Selection(g, Assignments(users), Solution(g, order, Assignments(users)), c)
    {
      hide Tracks, Layered, ChoiceVis, Selection, Calc, UsersFit, Solution, SeenIsCurrent, SymVis, WellFormed,
           Refreshes;
      ValidParts();
      ValsAreRecomputed();
      TracksFacts();
      ValuesAreCurrent();
      assert ChoiceCoherent(c);
      if NoSpecialMembers(g) {
        CurrentSeesAlike(g, users, vals);
        SameSelection(g, users, Assignments(users), vals, c);
      }
    }

    /** What is frozen is what the caches hold. */
    lemma SeenIsCached()
      requires Valid()
      ensures forall i :: 0 <= i < |syms| && UserSeen(users, i).Some? ==> syms[i].cachedVis == UserSeen(users, i)
    {
      hide *;
      ValidParts();
      TracksFacts();
      forall i | 0 <= i < |syms| && UserSeen(users, i).Some? ensures syms[i].cachedVis == UserSeen(users, i) {
        SeenIsCachedAt(i);
      }
    }

    lemma SeenIsCachedAt(i: SymId)
      requires Wired() && Coherent() && i < |syms|
      ensures UserSeen(users, i).Some? ==> syms[i].cachedVis == UserSeen(users, i)
    {
      hide Layered, SymVis, MemberVis, VisIsKnown;
      assert SymCoherent(i);
    }

    /** No operation gives up a visibility that nothing refreshes. */
    method Perform(op: Op)
      requires Valid() && DepsReady() && OpFits(g, op)
      modifies this`users, this`vals, syms, choices
      ensures Valid() && DepsReady()
      ensures users == After(g, old(Base()), op)
      ensures forall i :: 0 <= i < |syms| && !VisIsTracked(g, i) && old(syms[i].cachedVis).Some? ==>
                syms[i].cachedVis == old(syms[i].cachedVis)
    {
      hide *;
      FrozenNow();
      Rebase();
      ValidParts();
      TracksFacts();
      AfterIs(g, users, op);
      ghost var u := users;
      PerformOn(op);
      SameSeen(u, users);
      SeenIsCached();
    }

    lemma FrozenNow()
      ensures |Frozen()| == |syms|
      ensures forall i :: 0 <= i < |syms| && !VisIsTracked(g, i) ==> Frozen()[i] == syms[i].cachedVis
      ensures |Base().seen| == |syms| && forall i :: 0 <= i < |syms| ==> UserSeen(Base(), i) == Frozen()[i]
    {
    }

    predicate IsRead(op: Op) {
      op.ReadValue? || op.ReadVisibility? || op.ReadSelection? || op.ReadMode? || op.ReadChoiceVisibility?
    }

    method PerformRead(op: Op)
      requires Valid() && IsRead(op) && OpFits(g, op)
      modifies syms`cachedVal, syms`cachedVis, choices`cachedSel, choices`cachedVis
      ensures Valid()
    {
      ValidParts();
      hide Valid, WellFormed, UsersFit, Layered;
      match op
      case ReadValue(s) =>
        var _ := GetValue(s);
      case ReadVisibility(s) =>
        var _ := GetVisibility(s);
      case ReadSelection(c) =>
        var _ := GetSelection(c);
      case ReadMode(c) =>
        var _ := GetMode(c);
      case ReadChoiceVisibility(c) =>
        var _ := GetChoiceVisibility(c);
    }

    method PerformOn(op: Op)
      requires Valid() && DepsReady() && OpFits(g, op) && Base() == users
      modifies this`users, this`vals, syms, choices
      ensures Valid() && DepsReady()
      ensures users == After(g, old(users), op)
    {
      ValidParts();
      TracksFacts();
      hide Valid, Tracks, Coherent, Wired, Layered, UsersFit, Records, IsSolution, Assign, Unassign, DepsReady,
           WellFormed, Base, Frozen;
      match op
      case Set(s, text) => SetUserValue(s, text);
      case Unset(s) => UnsetUserValue(s);
      case UnsetAll => UnsetUserValues();
      case Load(lines, replace) => LoadConfig(lines, replace);
      case _ => PerformRead(op);
    }

    /** Any history of reads, assignments, resets and loads leaves every cache current, and
        what nothing refreshes as it was read first. */
    method Run(ops: seq<Op>)
      requires Valid() && DepsReady() && forall op :: op in ops ==> OpFits(g, op)
      modifies this`users, this`vals, syms, choices
      ensures Valid() && DepsReady()
      ensures Assignments(users) == AfterAll(g, Assignments(old(users)), ops)
      ensures Layered(g, order) && |syms| == |g.syms|
      ensures forall s :: 0 <= s < |syms| && syms[s].cachedVal.Some? ==>
                syms[s].cachedVal.value == ValueOf(g, order, users, s)
      ensures NoSpecialMembers(g) ==> forall s :: 0 <= s < |syms| && syms[s].cachedVal.Some? ==>
                syms[s].cachedVal.value == ValueOf(g, order, Assignments(users), s)
      ensures forall i :: 0 <= i < |syms| && !VisIsTracked(g, i) && old(syms[i].cachedVis).Some? ==>
                syms[i].cachedVis == old(syms[i].cachedVis)
    {
      ghost var u := Assignments(users);
      hide *;
      ValidParts();
      TracksFacts();
      AssignmentsFit(g, users);
      AfterNone(g, u);
      for k := 0 to |ops|
        invariant Valid() && DepsReady()
        invariant Assignments(users) == AfterAll(g, u, ops[..k])
        invariant forall i :: 0 <= i < |syms| && !VisIsTracked(g, i) && old(syms[i].cachedVis).Some? ==>
                    syms[i].cachedVis == old(syms[i].cachedVis)
      {
        ValidParts();
        TracksFacts();
        AfterAllStep(g, u, ops, k);
        BaseFits();
        AfterIgnoresSeen(g, Base(), ops[k]);
        Perform(ops[k]);
      }
      assert ops[..|ops|] == ops;
      forall s | 0 <= s < |syms| && syms[s].cachedVal.Some?
        ensures syms[s].cachedVal.value == ValueOf(g, order, users, s)
        ensures NoSpecialMembers(g) ==> syms[s].cachedVal.value == ValueOf(g, order, Assignments(users), s)
      {
        CachesAreRecomputed(s);
        SolutionAt(g, order, users, s);
        SolutionAt(g, order, Assignments(users), s);
      }
    }

    lemma BaseFits()
      requires Valid()
      ensures UsersFit(g, Base()) && Assignments(Base()) == Assignments(users)
    {
      hide Layered, VisIsTracked, Calc, SymVis;
    }

    /** A visibility that nothing refreshes is read once and for all. After any history it
        is what it was at the first reading, and so it is stale exactly when a computation
        with no caches would now give something else than it did then. */
    method ReadVisibilityAgain(s: SymId, ops: seq<Op>) returns (first: Tri, again: Tri)
      requires Valid() && DepsReady() && forall op :: op in ops ==> OpFits(g, op)
      requires s < |syms| && !VisIsTracked(g, s) && VisIsKnown(g, s) && syms[s].cachedVis == None
      modifies this`users, this`vals, syms, choices
      ensures Valid() && DepsReady()
      ensures Layered(g, order) && old(vals) == Solution(g, order, old(users)) && vals == Solution(g, order, users)
      ensures again == first == SymVis(g, old(vals), s)
      ensures again != SymVis(g, vals, s) <==> SymVis(g, old(vals), s) != SymVis(g, vals, s)
    {
      hide SymVis, Layered, Tracks, Coherent, VisIsTracked, VisIsKnown, ValueOf, Solution;
      ValsAreRecomputed();
      FrozenNow();
      Rebase();
      first := GetVisibility(s);
      Run(ops);
      again := GetVisibility(s);
      ValsAreRecomputed();
    }
  }

  datatype Op =
    | ReadValue(s: SymId)
    | ReadVisibility(s: SymId)
    | ReadSelection(c: ChoiceId)
    | ReadMode(c: ChoiceId)
    | ReadChoiceVisibility(c: ChoiceId)
    | Set(s: SymId, text: string)
    | Unset(s: SymId)
    | UnsetAll
    | Load(lines: seq<(SymId, string)>, replace: bool)

  predicate OpFits(g: Graph, op: Op) {
    match op
    case ReadValue(s) => s < |g.syms|
    case ReadVisibility(s) => s < |g.syms|
    case ReadSelection(c) => c < |g.choices|
    case ReadMode(c) => c < |g.choices|
    case ReadChoiceVisibility(c) => c < |g.choices|
    case Set(s, _) => s < |g.syms|
    case Unset(s) => s < |g.syms|
    case UnsetAll => true
    case Load(lines, _) => forall l :: l in lines ==> l.0 < |g.syms|
  }

  /** The user state an operation leaves. */
  function After(g: Graph, u: Users, op: Op): (r: Users)
    requires WellFormed(g) && UsersFit(g, u) && OpFits(g, op)
    ensures UsersFit(g, r) && r.seen == u.seen
  {
    match op
    case Set(s, text) => AssignFits(g, u, s, text); Assign(g, u, s, text)
    case Unset(s) => AssignFits(g, u, s, "n"); Unassign(g, u, s)
    case UnsetAll => UnassignAll(g, u, |g.syms|)
    case Load(lines, replace) => AssignAll(g, if replace then UnassignAll(g, u, |g.syms|) else u, lines)
    case _ => u
  }

  function AfterAll(g: Graph, u: Users, ops: seq<Op>): (r: Users)
    requires WellFormed(g) && UsersFit(g, u) && forall op :: op in ops ==> OpFits(g, op)
    ensures UsersFit(g, r) && r.seen == u.seen
  {
    if ops == [] then u else After(g, AfterAll(g, u, ops[..|ops| - 1]), ops[|ops| - 1])
  }

  lemma SameSeen(u: Users, u': Users)
    requires u.seen == u'.seen
    ensures forall i: SymId :: UserSeen(u, i) == UserSeen(u', i)
  {
  }

  lemma AfterIs(g: Graph, u: Users, op: Op)
    requires WellFormed(g) && UsersFit(g, u) && OpFits(g, op)
    ensures After(g, u, op).seen == u.seen
  {
  }

  lemma AssignmentsFit(g: Graph, u: Users)
    requires UsersFit(g, u)
    ensures UsersFit(g, Assignments(u))
  {
  }

  lemma SolutionAt(g: Graph, o: Order, u: Users, s: SymId)
    requires Layered(g, o) && s < |g.syms|
    ensures |Solution(g, o, u)| == |g.syms| && Solution(g, o, u)[s] == ValueOf(g, o, u, s)
  {
    hide Layered, ValueOf;
  }

  /** Assigning does not look at what is frozen. */
  lemma AssignIgnoresSeen(g: Graph, u: Users, s: SymId, text: string)
    requires WellFormed(g) && UsersFit(g, u) && s < |g.syms|
    ensures UsersFit(g, Assignments(u))
    ensures Assignments(Assign(g, u, s, text)) == Assign(g, Assignments(u), s, text)
    ensures Assignments(Unassign(g, u, s)) == Unassign(g, Assignments(u), s)
  {
    hide WellFormed, ValidFor, VisIsTracked;
    AssignmentsFit(g, u);
    ChoiceInRange(g, s);
  }

  lemma {:induction false} UnassignAllIgnoresSeen(g: Graph, u: Users, n: nat)
    requires WellFormed(g) && UsersFit(g, u) && n <= |g.syms|
    ensures UsersFit(g, Assignments(u)) && Assignments(UnassignAll(g, u, n)) == UnassignAll(g, Assignments(u), n)
  {
    hide WellFormed, UsersFit, Unassign, Assign;
    AssignmentsFit(g, u);
    if n > 0 {
      UnassignAllIgnoresSeen(g, u, n - 1);
      AssignIgnoresSeen(g, UnassignAll(g, u, n - 1), n - 1, "n");
    }
  }

  lemma {:induction false} AssignAllIgnoresSeen(g: Graph, u: Users, lines: seq<(SymId, string)>)
    requires WellFormed(g) && UsersFit(g, u) && forall l :: l in lines ==> l.0 < |g.syms|
    ensures UsersFit(g, Assignments(u)) && Assignments(AssignAll(g, u, lines)) == AssignAll(g, Assignments(u), lines)
  {
    hide WellFormed, UsersFit, Unassign, Assign;
    AssignmentsFit(g, u);
    if lines != [] {
      var init, last := lines[..|lines| - 1], lines[|lines| - 1];
      assert last in lines;
      AssignAllIgnoresSeen(g, u, init);
      AssignIgnoresSeen(g, AssignAll(g, u, init), last.0, last.1);
    }
  }

  lemma AfterIgnoresSeen(g: Graph, u: Users, op: Op)
    requires WellFormed(g) && UsersFit(g, u) && OpFits(g, op)
    ensures UsersFit(g, Assignments(u)) && Assignments(After(g, u, op)) == After(g, Assignments(u), op)
  {
    hide WellFormed, UsersFit, Unassign, Assign, UnassignAll, AssignAll;
    AssignmentsFit(g, u);
    match op
    case Set(s, text) => AssignIgnoresSeen(g, u, s, text);
    case Unset(s) => AssignIgnoresSeen(g, u, s, "n");
    case UnsetAll => UnassignAllIgnoresSeen(g, u, |g.syms|);
    case Load(lines, replace) =>
      UnassignAllIgnoresSeen(g, u, |g.syms|);
      AssignAllIgnoresSeen(g, if replace then UnassignAll(g, u, |g.syms|) else u, lines);
    case _ =>
  }

  lemma AfterNone(g: Graph, u: Users)
    ensures WellFormed(g) && UsersFit(g, u) ==> AfterAll(g, u, []) == u
  {
  }

  lemma AfterAllStep(g: Graph, u: Users, ops: seq<Op>, k: nat)
    requires WellFormed(g) && UsersFit(g, u) && k < |ops| && forall op :: op in ops ==> OpFits(g, op)
    ensures AfterAll(g, u, ops[..k + 1]) == After(g, AfterAll(g, u, ops[..k]), ops[k])
  {
    assert ops[..k + 1][..k] == ops[..k];
  }

  function UnassignAll(g: Graph, u: Users, n: nat): (r: Users)
    requires WellFormed(g) && UsersFit(g, u) && n <= |g.syms|
    ensures UsersFit(g, r) && r.seen == u.seen
  {
    if n == 0 then u
    else
      AssignFits(g, UnassignAll(g, u, n - 1), n - 1, "n");
      Unassign(g, UnassignAll(g, u, n - 1), n - 1)
  }

  lemma UnassignAllSteps(g: Graph, u: Users)
    requires WellFormed(g) && UsersFit(g, u)
    ensures UnassignAll(g, u, 0) == u
    ensures forall n: nat :: n < |g.syms| ==> UnassignAll(g, u, n + 1) == Unassign(g, UnassignAll(g, u, n), n)
  {
  }

  function AssignAll(g: Graph, u: Users, lines: seq<(SymId, string)>): (r: Users)
    requires WellFormed(g) && UsersFit(g, u) && forall l :: l in lines ==> l.0 < |g.syms|
    ensures UsersFit(g, r) && r.seen == u.seen
  {
    if lines == [] then u
    else
      var before := AssignAll(g, u, lines[..|lines| - 1]);
      AssignFits(g, before, lines[|lines| - 1].0, lines[|lines| - 1].1);
      Assign(g, before, lines[|lines| - 1].0, lines[|lines| - 1].1)
  }

  lemma AssignNone(g: Graph, u: Users)
    requires WellFormed(g) && UsersFit(g, u)
    ensures AssignAll(g, u, []) == u
  {
  }

  lemma AssignAllStep(g: Graph, u: Users, lines: seq<(SymId, string)>, k: nat)
    requires WellFormed(g) && UsersFit(g, u) && k < |lines| && forall l :: l in lines ==> l.0 < |g.syms|
    ensures AssignAll(g, u, lines[..k + 1]) == Assign(g, AssignAll(g, u, lines[..k]), lines[k].0, lines[k].1)
  {
    assert lines[..k + 1][..k] == lines[..k];
  }

  lemma AffectedParts(g: Graph, o: Order, s: SymId)
    requires Layered(g, o) && s < |g.syms|
    ensures forall i :: i in Affected(g, o, s) <==> i == s || i in Dependents(g, o, s)
  {
  }

  ghost predicate SymCacheCoherent(g: Graph, u: Users, v: seq<string>, c: Caches, i: SymId)
    requires i < |c.val| == |c.vis| == |g.syms| == |v|
  {
    && (c.val[i].Some? ==> c.val[i].value == v[i])
    && (g.syms[i].special.Some? ==> c.val[i] == g.syms[i].special)
    && (VisIsKnown(g, i) && c.vis[i].Some? ==> c.vis[i].value == MemberVis(g, u, v, i))
    && (UserSeen(u, i).Some? ==> c.vis[i] == UserSeen(u, i))
  }

  ghost predicate ChoiceCacheCoherent(g: Graph, u: Users, v: seq<string>, c: Caches, k: ChoiceId)
    requires k < |c.sel| == |c.choiceVis| == |g.choices|
  {
    Refreshes(g, k) ==>
      && (c.choiceVis[k].Some? ==> c.choiceVis[k].value == ChoiceVis(g, v, k))
      && (c.sel[k].Some? ==> c.sel[k].value == Selection(g, u, v, k))
  }

  ghost predicate CachesCoherent(g: Graph, u: Users, v: seq<string>, c: Caches) {
    && |c.val| == |c.vis| == |g.syms| == |v| && |c.sel| == |c.choiceVis| == |g.choices|
    && (forall i :: 0 <= i < |g.syms| ==> SymCacheCoherent(g, u, v, c, i))
    && (forall i :: 0 <= i < |g.syms| && !VisIsTracked(g, i) ==> c.vis[i] == UserSeen(u, i))
    && (forall k :: 0 <= k < |g.choices| ==> ChoiceCacheCoherent(g, u, v, c, k))
  }

  /** With one member of a choice all of them are affected. */
  lemma MemberIsAffected(g: Graph, o: Order, x: SymId, k: ChoiceId, m: SymId, p: SymId)
    requires Layered(g, o) && x < |g.syms| && k < |g.choices|
    requires m in g.choices[k].members && p in g.choices[k].members && m in Affected(g, o, x)
    ensures p in Affected(g, o, x) && p < |g.syms|
  {
    hide Dependents;
    LayeredIsWellFormed(g, o);
    assert WellFormedChoice(g, k);
    AffectedIsClosed(g, o, x);
    assert p == m || p in Siblings(g, m);
  }

  /** A condition is promoted already. */
  lemma PromotedCond(g: Graph, v: seq<string>, e: Option<Expr>)
    ensures Promote(g, Cond(g, v, e)) == Cond(g, v, e)
  {
  }

  lemma SpecialIsFixed(g: Graph, u: Users, v: seq<string>, s: SymId)
    requires IsSolution(g, u, v) && s < |g.syms| && g.syms[s].special.Some?
    ensures v[s] == g.syms[s].special.value
  {
  }

  lemma PromptlessIsHidden(g: Graph, v: seq<string>, s: SymId)
    requires s < |g.syms| && g.syms[s].prompts == [] && g.syms[s].choice.None?
    ensures SymVis(g, v, s) == N
  {
  }

  lemma {:induction false} SymsOfElement(es: seq<Expr>, i: nat)
    requires i < |es|
    ensures Syms(es[i]) <= SymsOfAll(es)
  {
    if i > 0 { SymsOfElement(es[1..], i - 1); }
  }

  lemma PromptSymsStep(ps: seq<Option<Expr>>, i: nat)
    requires i < |ps|
    ensures PromptSyms(ps[..i + 1]) == PromptSyms(ps[..i]) + OptSyms(ps[i])
    ensures OptSyms(ps[i]) <= PromptSyms(ps)
  {
    forall t | t in PromptSyms(ps[..i + 1]) ensures t in PromptSyms(ps[..i]) + OptSyms(ps[i]) {
      var k :| 0 <= k < i + 1 && t in OptSyms(ps[..i + 1][k]);
      assert ps[..i + 1][k] == ps[k] && (k < i ==> ps[..i][k] == ps[k]);
    }
    forall t | t in PromptSyms(ps[..i]) + OptSyms(ps[i]) ensures t in PromptSyms(ps[..i + 1]) {
      if t in PromptSyms(ps[..i]) {
        var k :| 0 <= k < i && t in OptSyms(ps[..i][k]);
        assert ps[..i + 1][k] == ps[..i][k];
      } else {
        assert ps[..i + 1][i] == ps[i];
      }
    }
  }

  lemma ChoiceDefaultSymsStep(ds: seq<ChoiceDefault>, i: nat)
    requires i < |ds|
    ensures ChoiceDefaultSyms(ds[..i + 1]) == ChoiceDefaultSyms(ds[..i]) + OptSyms(ds[i].cond)
    ensures OptSyms(ds[i].cond) <= ChoiceDefaultSyms(ds)
  {
    forall t | t in ChoiceDefaultSyms(ds[..i + 1]) ensures t in ChoiceDefaultSyms(ds[..i]) + OptSyms(ds[i].cond) {
      var k :| 0 <= k < i + 1 && t in OptSyms(ds[..i + 1][k].cond);
      assert ds[..i + 1][k] == ds[k] && (k < i ==> ds[..i][k] == ds[k]);
    }
    forall t | t in ChoiceDefaultSyms(ds[..i]) + OptSyms(ds[i].cond) ensures t in ChoiceDefaultSyms(ds[..i + 1]) {
      if t in ChoiceDefaultSyms(ds[..i]) {
        var k :| 0 <= k < i && t in OptSyms(ds[..i][k].cond);
        assert ds[..i + 1][k] == ds[..i][k];
      } else {
        assert ds[..i + 1][i] == ds[i];
      }
    }
  }

  lemma DefaultSymsStep(ds: seq<Default>, i: nat)
    requires i < |ds|
    ensures DefaultSyms(ds[..i + 1]) == DefaultSyms(ds[..i]) + Syms(ds[i].value) + OptSyms(ds[i].cond)
    ensures Syms(ds[i].value) + OptSyms(ds[i].cond) <= DefaultSyms(ds)
  {
    forall t | t in DefaultSyms(ds[..i + 1])
      ensures t in DefaultSyms(ds[..i]) + Syms(ds[i].value) + OptSyms(ds[i].cond)
    {
      var k :| 0 <= k < i + 1 && t in Syms(ds[..i + 1][k].value) + OptSyms(ds[..i + 1][k].cond);
      assert ds[..i + 1][k] == ds[k] && (k < i ==> ds[..i][k] == ds[k]);
    }
    forall t | t in DefaultSyms(ds[..i]) + Syms(ds[i].value) + OptSyms(ds[i].cond)
      ensures t in DefaultSyms(ds[..i + 1])
    {
      if t in DefaultSyms(ds[..i]) {
        var k :| 0 <= k < i && t in Syms(ds[..i][k].value) + OptSyms(ds[..i][k].cond);
        assert ds[..i + 1][k] == ds[..i][k];
      } else {
        assert ds[..i + 1][i] == ds[i] && t in Syms(ds[..i + 1][i].value) + OptSyms(ds[..i + 1][i].cond);
      }
    }
  }

  lemma RangeSymsStep(rs: seq<Range>, i: nat)
    requires i < |rs|
    ensures RangeSyms(rs[..i + 1]) ==
            RangeSyms(rs[..i]) + AtomSyms(rs[i].low) + AtomSyms(rs[i].high) + OptSyms(rs[i].cond)
    ensures AtomSyms(rs[i].low) + AtomSyms(rs[i].high) + OptSyms(rs[i].cond) <= RangeSyms(rs)
  {
    forall t | t in RangeSyms(rs[..i + 1])
      ensures t in RangeSyms(rs[..i]) + AtomSyms(rs[i].low) + AtomSyms(rs[i].high) + OptSyms(rs[i].cond)
    {
      var k :| 0 <= k < i + 1 &&
        t in AtomSyms(rs[..i + 1][k].low) + AtomSyms(rs[..i + 1][k].high) + OptSyms(rs[..i + 1][k].cond);
      assert rs[..i + 1][k] == rs[k] && (k < i ==> rs[..i][k] == rs[k]);
    }
    forall t | t in RangeSyms(rs[..i]) + AtomSyms(rs[i].low) + AtomSyms(rs[i].high) + OptSyms(rs[i].cond)
      ensures t in RangeSyms(rs[..i + 1])
    {
      if t in RangeSyms(rs[..i]) {
        var k :| 0 <= k < i && t in AtomSyms(rs[..i][k].low) + AtomSyms(rs[..i][k].high) + OptSyms(rs[..i][k].cond);
        assert rs[..i + 1][k] == rs[..i][k];
      } else {
        assert rs[..i + 1][i] == rs[i];
        assert t in AtomSyms(rs[..i + 1][i].low) + AtomSyms(rs[..i + 1][i].high) + OptSyms(rs[..i + 1][i].cond);
      }
    }
  }

  lemma RefsInRange(g: Graph, s: SymId)
    requires WellFormed(g) && s < |g.syms|
    ensures var d := g.syms[s];
            && SymRefs(g, s) == PromptSyms(d.prompts) + DefaultSyms(d.defaults) + Syms(d.revDep) + RangeSyms(d.ranges)
            && (forall t :: t in SymRefs(g, s) ==> t < |g.syms|)
            && (d.choice.Some? ==>
                  && d.choice.value < |g.choices|
                  && (forall t :: t in ChoiceRefs(g, d.choice.value) ==> t < |g.syms|)
                  && DirectRefs(g, s) == SymRefs(g, s) + ChoiceRefs(g, d.choice.value))
            && (d.choice.None? ==> DirectRefs(g, s) == SymRefs(g, s))
  {
    hide PromptSyms, DefaultSyms, RangeSyms, Syms, ChoiceRefs;
    assert WellFormedSym(g, s);
    if g.syms[s].choice.Some? { assert WellFormedChoice(g, g.syms[s].choice.value); }
  }

  lemma SameLayer(g: Graph, o: Order, s: SymId)
    requires Layered(g, o) && s < |g.syms|
    ensures forall m :: m in Siblings(g, s) ==> m < |g.syms| && o.sym[m] == o.sym[s]
  {
    DepIsHigher(g, o, s);
  }

  lemma NoSiblings(g: Graph, o: Order, s: SymId)
    requires Layered(g, o) && s < |g.syms| && g.syms[s].choice.None?
    ensures Siblings(g, s) == {} && GroupReach(g, o, s, Siblings(g, s)) == {}
  {
    hide OwnReach, Layered;
  }

  lemma NoGroupReach(g: Graph, o: Order, s: SymId)
    requires Layered(g, o) && s < |g.syms|
    ensures GroupReach(g, o, s, {}) == {}
  {
    hide OwnReach, Layered;
  }

  lemma NoDeepReach(g: Graph, o: Order, s: SymId)
    requires Layered(g, o) && s < |g.syms|
    ensures DeepReach(g, o, s, {}) == {}
    ensures forall t :: t in Dep(g, s) ==> t < |g.syms| && o.sym[s] < o.sym[t] <= o.top
    ensures OwnReach(g, o, s) == Dep(g, s) + DeepReach(g, o, s, Dep(g, s))
  {
    hide Dependents, Layered, Dep;
    DepIsHigher(g, o, s);
  }

  lemma GroupReachStep(g: Graph, o: Order, s: SymId, was: set<SymId>, m: SymId)
    requires Layered(g, o) && s < |g.syms| && m < |g.syms| && o.sym[m] == o.sym[s]
    requires forall k :: k in was ==> k < |g.syms| && o.sym[k] == o.sym[s]
    ensures GroupReach(g, o, s, was + {m}) == GroupReach(g, o, s, was) + OwnReach(g, o, m)
  {
    hide OwnReach, Layered;
    var now := was + {m};
    assert m in now;
    assert forall x :: x in OwnReach(g, o, m) ==> x in GroupReach(g, o, s, now);
  }

  lemma DeepReachStep(g: Graph, o: Order, s: SymId, was: set<SymId>, t: SymId)
    requires Layered(g, o) && s < |g.syms| && t < |g.syms| && o.sym[s] < o.sym[t] <= o.top
    requires forall k :: k in was ==> k < |g.syms| && o.sym[s] < o.sym[k] <= o.top
    ensures DeepReach(g, o, s, was + {t}) == DeepReach(g, o, s, was) + Dependents(g, o, t)
  {
    hide Dependents, Layered;
    var now := was + {t};
    assert t in now;
    assert forall x :: x in Dependents(g, o, t) ==> x in DeepReach(g, o, s, now);
  }

  lemma SiblingsAreMembers(g: Graph, s: SymId)
    requires WellFormed(g) && s < |g.syms| && g.syms[s].choice.Some?
    ensures g.syms[s].choice.value < |g.choices|
    ensures var members := g.choices[g.syms[s].choice.value].members;
            && (forall m :: m in Siblings(g, s) <==> m in members && m != s)
            && (forall m :: m in members ==> m < |g.syms|)
  {
    assert WellFormedSym(g, s) && WellFormedChoice(g, g.syms[s].choice.value);
  }
}
