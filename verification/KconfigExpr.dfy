/** Kconfig expressions: their tristate meaning, how they are printed and how
    a token list is parsed back into a tree. */
module KconfigExpr {
  import opened Options

  type SymId = nat

  datatype Tri = N | M | Y

  /** A leaf: a symbol or a constant string. */
  datatype Atom = Sym(id: SymId) | Str(s: string)

  datatype Expr =
    | Leaf(a: Atom)
    | And(es: seq<Expr>)
    | Or(es: seq<Expr>)
    | Not(e: Expr)
    | Rel(equal: bool, l: Atom, r: Atom)

  // ---------- Tristate logic ----------

  function Rank(t: Tri): nat { match t case N => 0 case M => 1 case Y => 2 }

  function MinTri(a: Tri, b: Tri): Tri { if Rank(a) < Rank(b) then a else b }

  function MaxTri(a: Tri, b: Tri): Tri { if Rank(a) > Rank(b) then a else b }

  function NotTri(a: Tri): Tri { match a case Y => N case N => Y case M => M }

  function TriOf(s: string): Tri { if s == "y" then Y else if s == "m" then M else N }

  function TriStr(t: Tri): string { match t case N => "n" case M => "m" case Y => "y" }

  /** What an expression is evaluated in: the bool and tristate symbols, and
      every symbol's value. */
  datatype Env = Env(tri: set<SymId>, vals: seq<string>)

  function AtomStr(env: Env, a: Atom): string {
    match a
    case Sym(id) => if id < |env.vals| then env.vals[id] else ""
    case Str(s) => s
  }

  function AtomTri(env: Env, a: Atom): Tri {
    match a
    case Sym(id) => if id in env.tri then TriOf(AtomStr(env, a)) else N
    case Str(s) => TriOf(s)
  }

  function Eval(env: Env, e: Expr): Tri
    decreases e, 0
  {
    match e
    case Leaf(a) => AtomTri(env, a)
    case And(es) => EvalAll(env, es)
    case Or(es) => EvalAny(env, es)
    case Not(f) => NotTri(Eval(env, f))
    case Rel(equal, l, r) => if (AtomStr(env, l) == AtomStr(env, r)) == equal then Y else N
  }

  /** The least value of the terms, "y" when there are none. */
  function EvalAll(env: Env, es: seq<Expr>): Tri
    decreases es
  {
    if es == [] then Y else MinTri(Eval(env, es[0]), EvalAll(env, es[1..]))
  }

  /** The greatest value of the terms, "n" when there are none. */
  function EvalAny(env: Env, es: seq<Expr>): Tri
    decreases es
  {
    if es == [] then N else MaxTri(Eval(env, es[0]), EvalAny(env, es[1..]))
  }

  /** The symbols an expression mentions. */
  function Syms(e: Expr): set<SymId>
    decreases e, 0
  {
    match e
    case Leaf(a) => AtomSyms(a)
    case And(es) => SymsOfAll(es)
    case Or(es) => SymsOfAll(es)
    case Not(f) => Syms(f)
    case Rel(_, l, r) => AtomSyms(l) + AtomSyms(r)
  }

  function AtomSyms(a: Atom): set<SymId> { if a.Sym? then {a.id} else {} }

  function SymsOfAll(es: seq<Expr>): set<SymId>
    decreases es
  {
    if es == [] then {} else Syms(es[0]) + SymsOfAll(es[1..])
  }

  /** An expression's value depends only on the symbols it mentions. */
  lemma {:induction false} EvalDependsOnSyms(tri: set<SymId>, v: seq<string>, w: seq<string>, e: Expr)
    requires |v| == |w|
    requires forall s :: s in Syms(e) && s < |v| ==> v[s] == w[s]
    ensures Eval(Env(tri, v), e) == Eval(Env(tri, w), e)
    decreases e, 0
  {
    match e
    case Leaf(a) =>
    case And(es) => EvalAllDependsOnSyms(tri, v, w, es);
    case Or(es) => EvalAllDependsOnSyms(tri, v, w, es);
    case Not(f) => EvalDependsOnSyms(tri, v, w, f);
    case Rel(_, l, r) =>
  }

  lemma {:induction false} EvalAllDependsOnSyms(tri: set<SymId>, v: seq<string>, w: seq<string>, es: seq<Expr>)
    requires |v| == |w|
    requires forall s :: s in SymsOfAll(es) && s < |v| ==> v[s] == w[s]
    ensures EvalAll(Env(tri, v), es) == EvalAll(Env(tri, w), es)
    ensures EvalAny(Env(tri, v), es) == EvalAny(Env(tri, w), es)
    decreases es
  {
    if es != [] {
      EvalDependsOnSyms(tri, v, w, es[0]);
      EvalAllDependsOnSyms(tri, v, w, es[1..]);
    }
  }

  lemma {:induction false} EvalAllConcat(env: Env, xs: seq<Expr>, ys: seq<Expr>)
    ensures EvalAll(env, xs + ys) == MinTri(EvalAll(env, xs), EvalAll(env, ys))
    ensures EvalAny(env, xs + ys) == MaxTri(EvalAny(env, xs), EvalAny(env, ys))
  {
    if xs == [] {
      assert xs + ys == ys;
    } else {
      assert (xs + ys)[1..] == xs[1..] + ys;
      EvalAllConcat(env, xs[1..], ys);
    }
  }

  // ---------- Constructors that simplify ----------

  /** None stands for "y". */
  function EvalOpt(env: Env, e: Option<Expr>): Tri { if e.None? then Y else Eval(env, e.value) }

  function MakeAnd(e1: Option<Expr>, e2: Option<Expr>): Option<Expr> {
    if e1 == None || e1 == Some(Leaf(Str("y"))) then e2
    else if e2 == None || e2 == Some(Leaf(Str("y"))) then e1
    else if e1.value.And? then
      if e2.value.And? then Some(And(e1.value.es + e2.value.es)) else Some(And(e1.value.es + [e2.value]))
    else if e2.value.And? then Some(And(e2.value.es + [e1.value]))
    else Some(And([e1.value, e2.value]))
  }

  function MakeOr(e1: Option<Expr>, e2: Option<Expr>): Expr {
    var yes := Leaf(Str("y"));
    if e1 == None || e2 == None || e1.value == yes || e2.value == yes then yes
    else if e1.value == Leaf(Str("n")) then e2.value
    else if e1.value.Or? then
      if e2.value.Or? then Or(e1.value.es + e2.value.es) else Or(e1.value.es + [e2.value])
    else if e2.value.Or? then Or(e2.value.es + [e1.value])
    else Or([e1.value, e2.value])
  }

  function Terms(e: Expr, isAnd: bool): seq<Expr> {
    if (if isAnd then e.And? else e.Or?) then e.es else [e]
  }

  lemma TermsValue(env: Env, e: Expr)
    ensures EvalAll(env, Terms(e, true)) == Eval(env, e)
    ensures EvalAny(env, Terms(e, false)) == Eval(env, e)
  {
    assert [e][1..] == [];
  }

  lemma JoinedTermsValue(env: Env, e1: Expr, e2: Expr)
    ensures EvalAll(env, Terms(e1, true) + Terms(e2, true)) == MinTri(Eval(env, e1), Eval(env, e2))
    ensures EvalAny(env, Terms(e1, false) + Terms(e2, false)) == MaxTri(Eval(env, e1), Eval(env, e2))
  {
    TermsValue(env, e1);
    TermsValue(env, e2);
    EvalAllConcat(env, Terms(e1, true), Terms(e2, true));
    EvalAllConcat(env, Terms(e1, false), Terms(e2, false));
  }

  lemma MakeAndShape(e1: Expr, e2: Expr)
    requires e1 != Leaf(Str("y")) && e2 != Leaf(Str("y"))
    ensures MakeAnd(Some(e1), Some(e2)) in {Some(And(Terms(e1, true) + Terms(e2, true))),
                                            Some(And(Terms(e2, true) + Terms(e1, true)))}
  {
    assert [e1, e2] == [e1] + [e2];
  }

  lemma MakeOrShape(e1: Expr, e2: Expr)
    requires e1 != Leaf(Str("y")) && e2 != Leaf(Str("y")) && e1 != Leaf(Str("n"))
    ensures MakeOr(Some(e1), Some(e2)) in {Or(Terms(e1, false) + Terms(e2, false)),
                                           Or(Terms(e2, false) + Terms(e1, false))}
  {
    assert [e1, e2] == [e1] + [e2];
  }

  /** Merging argument lists and dropping neutral terms never changes the value. */
  lemma MakeAndIsMin(env: Env, e1: Option<Expr>, e2: Option<Expr>)
    ensures EvalOpt(env, MakeAnd(e1, e2)) == MinTri(EvalOpt(env, e1), EvalOpt(env, e2))
  {
    var yes := Some(Leaf(Str("y")));
    if e1.Some? && e2.Some? && e1 != yes && e2 != yes {
      MakeAndShape(e1.value, e2.value);
      JoinedTermsValue(env, e1.value, e2.value);
      JoinedTermsValue(env, e2.value, e1.value);
    }
  }

  lemma MakeOrIsMax(env: Env, e1: Option<Expr>, e2: Option<Expr>)
    ensures Eval(env, MakeOr(e1, e2)) == MaxTri(EvalOpt(env, e1), EvalOpt(env, e2))
  {
    var yes := Some(Leaf(Str("y")));
    if e1.Some? && e2.Some? && e1 != yes && e2 != yes && e1 != Some(Leaf(Str("n"))) {
      MakeOrShape(e1.value, e2.value);
      JoinedTermsValue(env, e1.value, e2.value);
      JoinedTermsValue(env, e2.value, e1.value);
    }
  }
}
