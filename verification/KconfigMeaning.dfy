/** What any solution gives a symbol, case by case and in plain terms: which user value, default,
    bound or condition decides, without the functions that compute it. */
module KconfigMeaning {
  import opened Options
  import opened KconfigExpr
  import opened KconfigGraph
  import opened KconfigDeps
  import opened KconfigEval
  import opened KconfigChoice

  // ---------- Conditions as levels: n is 0, m is 1, y is 2 ----------

  /** Without modules m counts as y. */
  function Level(g: Graph, t: Tri): nat { match t case N => 0 case M => if g.modules then 1 else 2 case Y => 2 }

  function CondLevel(g: Graph, v: seq<string>, e: Option<Expr>): nat {
    if e.None? then 2 else Level(g, Eval(Env(TriSyms(g), v), e.value))
  }

  /** What a symbol or a constant reads as. */
  function TextOf(v: seq<string>, a: Atom): string {
    match a case Sym(id) => if id < |v| then v[id] else "" case Str(t) => t
  }

  lemma CondIsLevel(g: Graph, v: seq<string>, e: Option<Expr>)
    ensures Rank(Cond(g, v, e)) == CondLevel(g, v, e)
  {
  }

  predicate On(g: Graph, v: seq<string>, e: Option<Expr>) { CondLevel(g, v, e) != 0 }

  /** Comparisons are y or n, "not" turns the scale round, and "and" and "or" are the least and
      the greatest of their terms. */
  lemma EvalMeans(env: Env, e: Expr)
    ensures e.Rel? ==>
              Rank(Eval(env, e)) ==
              if (TextOf(env.vals, e.l) == TextOf(env.vals, e.r)) == e.equal then 2 else 0
    ensures e.Not? ==> Rank(Eval(env, e)) == 2 - Rank(Eval(env, e.e))
    ensures e.And? ==>
              && (forall i :: 0 <= i < |e.es| ==> Rank(Eval(env, e)) <= Rank(Eval(env, e.es[i])))
              && (Rank(Eval(env, e)) < 2 ==> exists i :: 0 <= i < |e.es| && Eval(env, e) == Eval(env, e.es[i]))
    ensures e.Or? ==>
              && (forall i :: 0 <= i < |e.es| ==> Rank(Eval(env, e)) >= Rank(Eval(env, e.es[i])))
              && (Rank(Eval(env, e)) > 0 ==> exists i :: 0 <= i < |e.es| && Eval(env, e) == Eval(env, e.es[i]))
    ensures e.Leaf? ==>
              Rank(Eval(env, e)) ==
              if e.a.Sym? && e.a.id !in env.tri then 0
              else if TextOf(env.vals, e.a) == "y" then 2 else if TextOf(env.vals, e.a) == "m" then 1 else 0
  {
    if e.And? { LeastOfAll(env, e.es); }
    if e.Or? { GreatestOfAny(env, e.es); }
  }

  lemma {:induction false} LeastOfAll(env: Env, es: seq<Expr>)
    ensures forall i :: 0 <= i < |es| ==> Rank(EvalAll(env, es)) <= Rank(Eval(env, es[i]))
    ensures Rank(EvalAll(env, es)) < 2 ==> exists i :: 0 <= i < |es| && EvalAll(env, es) == Eval(env, es[i])
  {
    hide Eval;
    if es != [] {
      LeastOfAll(env, es[1..]);
      assert forall i :: 0 <= i < |es| - 1 ==> es[1..][i] == es[i + 1];
      if EvalAll(env, es) != Eval(env, es[0]) {
        var i :| 0 <= i < |es[1..]| && EvalAll(env, es[1..]) == Eval(env, es[1..][i]);
        assert EvalAll(env, es) == Eval(env, es[i + 1]);
      }
    }
  }

  lemma {:induction false} GreatestOfAny(env: Env, es: seq<Expr>)
    ensures forall i :: 0 <= i < |es| ==> Rank(EvalAny(env, es)) >= Rank(Eval(env, es[i]))
    ensures Rank(EvalAny(env, es)) > 0 ==> exists i :: 0 <= i < |es| && EvalAny(env, es) == Eval(env, es[i])
  {
    hide Eval;
    if es != [] {
      GreatestOfAny(env, es[1..]);
      assert forall i :: 0 <= i < |es| - 1 ==> es[1..][i] == es[i + 1];
      if EvalAny(env, es) != Eval(env, es[0]) {
        var i :| 0 <= i < |es[1..]| && EvalAny(env, es[1..]) == Eval(env, es[1..][i]);
        assert EvalAny(env, es) == Eval(env, es[i + 1]);
      }
    }
  }

  // ---------- Visibility and mode ----------

  /** n is the greatest level of the prompts' conditions, 0 without prompts. */
  ghost predicate IsGreatest(g: Graph, v: seq<string>, ps: seq<Option<Expr>>, n: nat) {
    && (forall i :: 0 <= i < |ps| ==> CondLevel(g, v, ps[i]) <= n)
    && (n > 0 ==> exists i :: 0 <= i < |ps| && CondLevel(g, v, ps[i]) == n)
  }

  lemma {:induction false} PromptVisIsGreatest(g: Graph, v: seq<string>, ps: seq<Option<Expr>>)
    ensures IsGreatest(g, v, ps, Rank(PromptVis(g, v, ps)))
    ensures !g.modules ==> PromptVis(g, v, ps) != M
  {
    hide Cond, CondLevel;
    if ps != [] {
      var init, last := ps[..|ps| - 1], ps[|ps| - 1];
      PromptVisIsGreatest(g, v, init);
      CondIsLevel(g, v, last);
      NotM(g, v, last);
      if Rank(PromptVis(g, v, ps)) > Rank(Cond(g, v, last)) {
        var i :| 0 <= i < |init| && CondLevel(g, v, init[i]) == Rank(PromptVis(g, v, init));
        assert CondLevel(g, v, ps[i]) == Rank(PromptVis(g, v, ps));
      }
    }
  }

  lemma NotM(g: Graph, v: seq<string>, e: Option<Expr>)
    ensures !g.modules ==> Cond(g, v, e) != M
  {
  }

  lemma GreatestIsUnique(g: Graph, v: seq<string>, ps: seq<Option<Expr>>, a: nat, b: nat)
    requires IsGreatest(g, v, ps, a) && IsGreatest(g, v, ps, b)
    ensures a == b
  {
    hide CondLevel;
  }

  /** The level m of what is no tristate is raised to y. */
  function Raised(typ: SymType, n: nat): nat { if n == 1 && typ != Tristate then 2 else n }

  function Least(a: nat, b: nat): nat { if a <= b then a else b }

  /** A choice is as visible as its most visible prompt. */
  lemma ChoiceVisMeans(g: Graph, v: seq<string>, c: ChoiceId, n: nat)
    requires c < |g.choices| && IsGreatest(g, v, g.choices[c].prompts, n)
    ensures Rank(ChoiceVis(g, v, c)) == Raised(g.choices[c].typ, n)
  {
    hide PromptVis;
    PromptVisIsGreatest(g, v, g.choices[c].prompts);
    GreatestIsUnique(g, v, g.choices[c].prompts, n, Rank(PromptVis(g, v, g.choices[c].prompts)));
  }

  /** So is a symbol; in a choice it is no more visible than the choice. */
  lemma SymVisMeans(g: Graph, v: seq<string>, s: SymId, n: nat)
    requires WellFormed(g) && s < |g.syms| && IsGreatest(g, v, g.syms[s].prompts, n)
    ensures var d := g.syms[s];
            Rank(SymVis(g, v, s)) ==
            Raised(d.typ, if d.choice.None? then n else Least(n, Rank(ChoiceVis(g, v, d.choice.value))))
  {
    hide PromptVis;
    PromptVisIsGreatest(g, v, g.syms[s].prompts);
    GreatestIsUnique(g, v, g.syms[s].prompts, n, Rank(PromptVis(g, v, g.syms[s].prompts)));
    assert WellFormedSym(g, s);
    if g.syms[s].choice.Some? { PromptVisIsGreatest(g, v, g.choices[g.syms[s].choice.value].prompts); }
  }

  /** The mode is what the user asked for, else n for an optional choice and m for another, but
      no more than the visibility; in a bool choice m is y. */
  lemma ModeMeans(g: Graph, u: Users, v: seq<string>, c: ChoiceId)
    requires UsersFit(g, u) && c < |g.choices|
    ensures var wanted := Level(g, if u.mode[c].Some? then u.mode[c].value else if g.choices[c].optional then N else M);
            var n := Least(wanted, Rank(ChoiceVis(g, v, c)));
            Rank(Mode(g, u, v, c)) == if n == 1 && g.choices[c].typ == Bool then 2 else n
  {
    hide PromptVis;
    PromptVisIsGreatest(g, v, g.choices[c].prompts);
  }

  ghost predicate FirstOn(g: Graph, v: seq<string>, ds: seq<ChoiceDefault>, k: int) {
    && 0 <= k < |ds| && On(g, v, ds[k].cond)
    && forall j :: 0 <= j < k ==> !On(g, v, ds[j].cond)
  }

  /** The first default that is on is preferred, without one the first member. */
  lemma PreferredMeans(g: Graph, v: seq<string>, c: ChoiceId)
    requires c < |g.choices| && g.choices[c].members != []
    ensures forall k :: FirstOn(g, v, g.choices[c].defaults, k) ==> Preferred(g, v, c) == g.choices[c].defaults[k].sym
    ensures (forall k :: !FirstOn(g, v, g.choices[c].defaults, k)) ==> Preferred(g, v, c) == g.choices[c].members[0]
  {
    hide CondLevel, FirstOn, FirstChoiceDefault;
    var k := FirstChoiceAt(g, v, g.choices[c].defaults);
    if k < |g.choices[c].defaults| { assert FirstOn(g, v, g.choices[c].defaults, k); }
    forall j | FirstOn(g, v, g.choices[c].defaults, j) ensures j == k < |g.choices[c].defaults| {
      OnlyFirst(g, v, g.choices[c].defaults, j, k);
    }
  }

  lemma OnlyFirst(g: Graph, v: seq<string>, ds: seq<ChoiceDefault>, j: int, k: nat)
    requires FirstOn(g, v, ds, j) && k <= |ds| && (k < |ds| ==> FirstOn(g, v, ds, k))
    requires k == |ds| ==> forall i :: 0 <= i < |ds| ==> !On(g, v, ds[i].cond)
    ensures j == k < |ds|
  {
  }

  lemma {:induction false} FirstChoiceAt(g: Graph, v: seq<string>, ds: seq<ChoiceDefault>) returns (k: nat)
    ensures k <= |ds| && (k < |ds| ==> FirstOn(g, v, ds, k) && FirstChoiceDefault(g, v, ds) == Some(ds[k].sym))
    ensures k == |ds| ==>
              FirstChoiceDefault(g, v, ds) == None && forall i :: 0 <= i < |ds| ==> !On(g, v, ds[i].cond)
  {
    hide Cond, CondLevel;
    if ds == [] {
      k := 0;
    } else {
      CondIsLevel(g, v, ds[0].cond);
      if On(g, v, ds[0].cond) {
        k := 0;
      } else {
        k := FirstChoiceAt(g, v, ds[1..]);
        assert forall i :: 0 <= i < |ds| - 1 ==> ds[1..][i] == ds[i + 1];
        k := k + 1;
        forall j | 0 <= j < k ensures !On(g, v, ds[j].cond) {
          if j > 0 { assert !On(g, v, ds[1..][j - 1].cond); }
        }
      }
    }
  }

  // ---------- Numbers ----------

  ghost predicate FirstRangeOn(g: Graph, v: seq<string>, rs: seq<Range>, k: int) {
    0 <= k < |rs| && On(g, v, rs[k].cond) && forall j :: 0 <= j < k ==> !On(g, v, rs[j].cond)
  }

  /** What is no number counts as 0. */
  predicate IsEnd(g: Graph, v: seq<string>, a: Atom, base: nat, n: int) {
    match g.numbers.parse(TextOf(v, a), base) case Some(k) => n == k case None => n == 0
  }

  /** low and high are the ends of the first range that is on. */
  ghost predicate Bounds(g: Graph, v: seq<string>, s: SymId, base: nat, low: int, high: int) {
    exists k :: FirstRangeOn(g, v, SymOf(g, s).ranges, k) &&
      IsEnd(g, v, SymOf(g, s).ranges[k].low, base, low) && IsEnd(g, v, SymOf(g, s).ranges[k].high, base, high)
  }

  ghost predicate Unbounded(g: Graph, v: seq<string>, s: SymId) {
    forall j :: 0 <= j < |SymOf(g, s).ranges| ==> !On(g, v, SymOf(g, s).ranges[j].cond)
  }

  function DefaultText(v: seq<string>, d: Default): string { if d.value.Leaf? then TextOf(v, d.value.a) else "" }

  /** The first default that is on and a number. */
  ghost predicate Deciding(g: Graph, v: seq<string>, ds: seq<Default>, base: nat, k: int) {
    && 0 <= k < |ds| && On(g, v, ds[k].cond) && g.numbers.parse(DefaultText(v, ds[k]), base).Some?
    && forall j :: 0 <= j < k && On(g, v, ds[j].cond) ==> g.numbers.parse(DefaultText(v, ds[j]), base).None?
  }

  ghost predicate LastOn(g: Graph, v: seq<string>, ds: seq<Default>, k: int) {
    0 <= k < |ds| && On(g, v, ds[k].cond) && forall j :: k < j < |ds| ==> !On(g, v, ds[j].cond)
  }

  /** The user's text is a number inside the range that is on, if one is, and may be seen. */
  ghost predicate UserDecides(g: Graph, u: Users, v: seq<string>, s: SymId, base: nat) {
    && SymVis(g, v, s) != N && UserVal(u, s).Some?
    && var n := g.numbers.parse(UserVal(u, s).value, base);
       n.Some? && forall low, high :: Bounds(g, v, s, base, low, high) ==> low <= n.value <= high
  }

  function Print(g: Graph, s: SymId, n: int): string {
    if SymOf(g, s).typ == Hex then g.numbers.hex(n) else g.numbers.dec(n)
  }

  /** The default x, or the end of the range that it lies beyond. */
  ghost predicate MovedInto(g: Graph, v: seq<string>, s: SymId, base: nat, x: string, t: string) {
    && (Unbounded(g, v, s) ==> t == x)
    && forall low, high :: Bounds(g, v, s, base, low, high) ==>
         var n := g.numbers.parse(x, base);
         n.Some? && t == if n.value < low then Print(g, s, low) else if n.value > high then Print(g, s, high) else x
  }

  /** With no number to go by: a positive low end, else the last default that is on, else nothing. */
  ghost predicate WithoutNumber(g: Graph, v: seq<string>, s: SymId, base: nat, t: string) {
    && (forall low, high :: Bounds(g, v, s, base, low, high) && low > 0 ==> t == Print(g, s, low))
    && ((forall low, high :: Bounds(g, v, s, base, low, high) ==> low <= 0) ==>
          && (forall k :: LastOn(g, v, SymOf(g, s).defaults, k) ==> t == DefaultText(v, SymOf(g, s).defaults[k]))
          && ((forall k :: !LastOn(g, v, SymOf(g, s).defaults, k)) ==> t == ""))
  }

  ghost predicate DefaultGives(g: Graph, v: seq<string>, s: SymId, base: nat, t: string) {
    && (forall k :: Deciding(g, v, SymOf(g, s).defaults, base, k) ==>
          MovedInto(g, v, s, base, DefaultText(v, SymOf(g, s).defaults[k]), t))
    && ((forall k :: !Deciding(g, v, SymOf(g, s).defaults, base, k)) ==> WithoutNumber(g, v, s, base, t))
  }

  lemma {:induction false} FirstRangeAt(g: Graph, v: seq<string>, rs: seq<Range>) returns (k: nat)
    ensures k <= |rs| && (k < |rs| ==> FirstRangeOn(g, v, rs, k) && FirstRange(g, v, rs) == Some(rs[k]))
    ensures k == |rs| ==> FirstRange(g, v, rs) == None && forall i :: 0 <= i < |rs| ==> !On(g, v, rs[i].cond)
  {
    hide Cond, CondLevel;
    if rs == [] {
      k := 0;
    } else {
      CondIsLevel(g, v, rs[0].cond);
      if On(g, v, rs[0].cond) {
        k := 0;
      } else {
        k := FirstRangeAt(g, v, rs[1..]);
        assert forall i :: 0 <= i < |rs| - 1 ==> rs[1..][i] == rs[i + 1];
        k := k + 1;
        forall j | 0 <= j < k ensures !On(g, v, rs[j].cond) {
          if j > 0 { assert !On(g, v, rs[1..][j - 1].cond); }
        }
      }
    }
  }

  /** The bounds the computation uses are the only ones. */
  lemma BoundsAre(g: Graph, v: seq<string>, s: SymId, base: nat)
    ensures match FirstRange(g, v, SymOf(g, s).ranges)
            case None => Unbounded(g, v, s) && forall low, high :: !Bounds(g, v, s, base, low, high)
            case Some(r) =>
              !Unbounded(g, v, s) && forall low, high ::
                Bounds(g, v, s, base, low, high) <==>
                  low == Bound(g, v, r.low, base) && high == Bound(g, v, r.high, base)
  {
    hide CondLevel, FirstRange;
    var rs := SymOf(g, s).ranges;
    var k := FirstRangeAt(g, v, rs);
    if k < |rs| {
      forall low, high
        ensures Bounds(g, v, s, base, low, high) <==>
                  low == Bound(g, v, rs[k].low, base) && high == Bound(g, v, rs[k].high, base)
      {
        BoundIsEnd(g, v, rs[k].low, base, low);
        BoundIsEnd(g, v, rs[k].high, base, high);
        if j :| FirstRangeOn(g, v, rs, j) && IsEnd(g, v, rs[j].low, base, low) && IsEnd(g, v, rs[j].high, base, high) {
          assert j == k;
        }
      }
    }
  }

  lemma BoundIsEnd(g: Graph, v: seq<string>, a: Atom, base: nat, n: int)
    ensures IsEnd(g, v, a, base, n) <==> n == Bound(g, v, a, base)
  {
  }

  lemma LeafStrIs(g: Graph, v: seq<string>, d: Default)
    ensures LeafStr(g, v, d.value) == DefaultText(v, d)
  {
  }

  /** What the search through the defaults ends with. */
  ghost predicate SearchEnds(g: Graph, v: seq<string>, ds: seq<Default>, base: nat, text: string, r: (bool, string)) {
    if r.0 then exists k :: Deciding(g, v, ds, base, k) && r.1 == DefaultText(v, ds[k])
    else
      && (forall i :: 0 <= i < |ds| && On(g, v, ds[i].cond) ==> g.numbers.parse(DefaultText(v, ds[i]), base).None?)
      && ((exists k :: LastOn(g, v, ds, k) && r.1 == DefaultText(v, ds[k]))
          || (r.1 == text && forall i :: 0 <= i < |ds| ==> !On(g, v, ds[i].cond)))
  }

  lemma {:induction false} NumberDefaultEnds(g: Graph, v: seq<string>, ds: seq<Default>, base: nat, text: string)
    ensures SearchEnds(g, v, ds, base, text, NumberDefault(g, v, ds, base, text))
    decreases |ds|
  {
    hide Cond, CondLevel, LeafStr, DefaultText;
    if ds != [] {
      CondIsLevel(g, v, ds[0].cond);
      LeafStrIs(g, v, ds[0]);
      var t := DefaultText(v, ds[0]);
      if On(g, v, ds[0].cond) && g.numbers.parse(t, base).Some? {
        assert Deciding(g, v, ds, base, 0);
      } else {
        var next := if On(g, v, ds[0].cond) then t else text;
        NumberDefaultEnds(g, v, ds[1..], base, next);
        SearchOneBack(g, v, ds, base, text, next, NumberDefault(g, v, ds[1..], base, next));
      }
    }
  }

  lemma SearchOneBack(g: Graph, v: seq<string>, ds: seq<Default>, base: nat, text: string, next: string,
                      r: (bool, string))
    requires ds != [] && SearchEnds(g, v, ds[1..], base, next, r)
    requires if On(g, v, ds[0].cond) then next == DefaultText(v, ds[0]) && g.numbers.parse(next, base).None?
             else next == text
    ensures SearchEnds(g, v, ds, base, text, r)
  {
    hide CondLevel, DefaultText;
    var rest := ds[1..];
    assert forall i :: 0 <= i < |rest| ==> rest[i] == ds[i + 1];
    if r.0 {
      var k :| Deciding(g, v, rest, base, k) && r.1 == DefaultText(v, rest[k]);
      forall j | 0 <= j < k + 1 && On(g, v, ds[j].cond) ensures g.numbers.parse(DefaultText(v, ds[j]), base).None? {
        if j > 0 { assert rest[j - 1] == ds[j]; }
      }
      assert Deciding(g, v, ds, base, k + 1);
    } else {
      forall i | 0 <= i < |ds| && On(g, v, ds[i].cond) ensures g.numbers.parse(DefaultText(v, ds[i]), base).None? {
        if i > 0 { assert rest[i - 1] == ds[i]; }
      }
      if k :| LastOn(g, v, rest, k) && r.1 == DefaultText(v, rest[k]) {
        LastOneBack(g, v, ds, k);
      } else {
        forall i | 0 < i < |ds| ensures !On(g, v, ds[i].cond) { assert rest[i - 1] == ds[i]; }
        if On(g, v, ds[0].cond) { assert LastOn(g, v, ds, 0); }
      }
    }
  }

  lemma LastOneBack(g: Graph, v: seq<string>, ds: seq<Default>, k: int)
    requires ds != [] && LastOn(g, v, ds[1..], k)
    ensures LastOn(g, v, ds, k + 1) && ds[1..][k] == ds[k + 1]
  {
    hide CondLevel;
    forall j | k + 1 < j < |ds| ensures !On(g, v, ds[j].cond) { assert ds[1..][j - 1] == ds[j]; }
  }

  lemma DecidingIsOne(g: Graph, v: seq<string>, ds: seq<Default>, base: nat, j: int, k: int)
    requires Deciding(g, v, ds, base, j) && Deciding(g, v, ds, base, k)
    ensures j == k
  {
  }

  lemma LastIsOne(g: Graph, v: seq<string>, ds: seq<Default>, j: int, k: int)
    requires LastOn(g, v, ds, j) && LastOn(g, v, ds, k)
    ensures j == k
  {
  }

  /** What the defaults come to in the computation is what they give. */
  lemma DefaultsGive(g: Graph, v: seq<string>, s: SymId, base: nat, t: string)
    requires var d := SymOf(g, s);
             var range := FirstRange(g, v, d.ranges);
             var low := if range.Some? then Bound(g, v, range.value.low, base) else 0;
             var high := if range.Some? then Bound(g, v, range.value.high, base) else 0;
             var (isNumber, text) := NumberDefault(g, v, d.defaults, base, "");
             t == if isNumber then (if range.Some? then Clamped(g, d.typ, text, base, low, high) else text)
                  else if range.Some? && low > 0 then Shown(g, d.typ, low)
                  else text
    ensures DefaultGives(g, v, s, base, t)
  {
    hide CondLevel, FirstRange, NumberDefault, Bound, Bounds, Unbounded, Deciding, LastOn, DefaultText;
    var ds := SymOf(g, s).defaults;
    var r := NumberDefault(g, v, ds, base, "");
    BoundsAre(g, v, s, base);
    var low, high := BoundsExist(g, v, s, base);
    NumberDefaultEnds(g, v, ds, base, "");
    if r.0 {
      var k := DecidingFound(g, v, ds, base, r);
      forall j | Deciding(g, v, ds, base, j) ensures j == k { DecidingIsOne(g, v, ds, base, j, k); }
    } else {
      forall k ensures !Deciding(g, v, ds, base, k) { NoneDecides(g, v, ds, base, k); }
      LastTexts(g, v, ds, base, r);
    }
  }

  /** If a range is on it has ends. */
  lemma BoundsExist(g: Graph, v: seq<string>, s: SymId, base: nat) returns (low: int, high: int)
    ensures Unbounded(g, v, s) || Bounds(g, v, s, base, low, high)
    ensures FirstRange(g, v, SymOf(g, s).ranges).Some? ==>
              var r := FirstRange(g, v, SymOf(g, s).ranges).value;
              low == Bound(g, v, r.low, base) && high == Bound(g, v, r.high, base)
  {
    hide Bounds, Unbounded, Bound, FirstRange;
    BoundsAre(g, v, s, base);
    var r := FirstRange(g, v, SymOf(g, s).ranges);
    low, high := 0, 0;
    if r.Some? {
      low, high := Bound(g, v, r.value.low, base), Bound(g, v, r.value.high, base);
      assert Bounds(g, v, s, base, low, high);
    }
  }

  lemma DecidingFound(g: Graph, v: seq<string>, ds: seq<Default>, base: nat, r: (bool, string)) returns (k: int)
    requires r.0 && SearchEnds(g, v, ds, base, "", r)
    ensures Deciding(g, v, ds, base, k) && 0 <= k < |ds| && r.1 == DefaultText(v, ds[k])
    ensures g.numbers.parse(r.1, base).Some?
  {
    k :| Deciding(g, v, ds, base, k) && r.1 == DefaultText(v, ds[k]);
  }

  lemma DecidingParses(g: Graph, v: seq<string>, ds: seq<Default>, base: nat, k: int)
    requires Deciding(g, v, ds, base, k)
    ensures 0 <= k < |ds| && g.numbers.parse(DefaultText(v, ds[k]), base).Some?
  {
  }

  lemma NoneDecides(g: Graph, v: seq<string>, ds: seq<Default>, base: nat, k: int)
    requires forall i :: 0 <= i < |ds| && On(g, v, ds[i].cond) ==> g.numbers.parse(DefaultText(v, ds[i]), base).None?
    ensures !Deciding(g, v, ds, base, k)
  {
  }

  lemma LastTexts(g: Graph, v: seq<string>, ds: seq<Default>, base: nat, r: (bool, string))
    requires !r.0 && SearchEnds(g, v, ds, base, "", r)
    ensures forall k :: LastOn(g, v, ds, k) ==> r.1 == DefaultText(v, ds[k])
    ensures (forall k :: !LastOn(g, v, ds, k)) ==> r.1 == ""
  {
    hide CondLevel, DefaultText;
    if k :| LastOn(g, v, ds, k) && r.1 == DefaultText(v, ds[k]) {
      forall j | LastOn(g, v, ds, j) ensures j == k { LastIsOne(g, v, ds, j, k); }
    }
  }

  function BaseOf(g: Graph, s: SymId): nat { if SymOf(g, s).typ == Hex then 16 else 10 }

  /** A number symbol has the user's text if that decides, and else what its defaults give. */
  lemma NumberMeans(g: Graph, u: Users, v: seq<string>, s: SymId)
    requires IsSolution(g, u, v) && s < |g.syms| && g.syms[s].typ in {Int, Hex} && g.syms[s].special.None?
    ensures if UserDecides(g, u, v, s, BaseOf(g, s)) then v[s] == UserVal(u, s).value
            else DefaultGives(g, v, s, BaseOf(g, s), v[s])
  {
    hide SymVis, CondLevel, FirstRange, NumberDefault, Bound, Bounds, Unbounded, DefaultGives, Clamped, Shown;
    assert v[s] == Calc(g, u, v, s) == NumberValue(g, u, v, s);
    BoundsAre(g, v, s, BaseOf(g, s));
    var low, high := BoundsExist(g, v, s, BaseOf(g, s));
    if !UserDecides(g, u, v, s, BaseOf(g, s)) { DefaultsGive(g, v, s, BaseOf(g, s), v[s]); }
  }

  lemma MovedOne(g: Graph, v: seq<string>, s: SymId, base: nat, x: string, t: string, t': string, low: int, high: int)
    requires MovedInto(g, v, s, base, x, t) && MovedInto(g, v, s, base, x, t')
    requires Unbounded(g, v, s) || Bounds(g, v, s, base, low, high)
    ensures t == t'
  {
    hide Bounds, Unbounded;
  }

  /** The defaults give one text. */
  lemma DefaultGivesOne(g: Graph, v: seq<string>, s: SymId, base: nat, t: string, t': string)
    requires DefaultGives(g, v, s, base, t) && DefaultGives(g, v, s, base, t')
    ensures t == t'
  {
    hide CondLevel, FirstRange, Bound, Bounds, Unbounded, Deciding, LastOn, DefaultText;
    BoundsAre(g, v, s, base);
    var low, high := BoundsExist(g, v, s, base);
    if k :| Deciding(g, v, SymOf(g, s).defaults, base, k) {
      DecidingParses(g, v, SymOf(g, s).defaults, base, k);
      MovedOne(g, v, s, base, DefaultText(v, SymOf(g, s).defaults[k]), t, t', low, high);
    } else if k :| LastOn(g, v, SymOf(g, s).defaults, k) {
    }
  }

  /** A number symbol has the user's text exactly if that decides or the defaults give the same. */
  lemma UserTextExactly(g: Graph, u: Users, v: seq<string>, s: SymId)
    requires IsSolution(g, u, v) && s < |g.syms| && g.syms[s].typ in {Int, Hex} && g.syms[s].special.None?
    requires UserVal(u, s).Some?
    ensures v[s] == UserVal(u, s).value <==>
              UserDecides(g, u, v, s, BaseOf(g, s)) || DefaultGives(g, v, s, BaseOf(g, s), UserVal(u, s).value)
  {
    hide UserDecides, DefaultGives;
    NumberMeans(g, u, v, s);
    if !UserDecides(g, u, v, s, BaseOf(g, s)) && DefaultGives(g, v, s, BaseOf(g, s), UserVal(u, s).value) {
      DefaultGivesOne(g, v, s, BaseOf(g, s), v[s], UserVal(u, s).value);
    }
  }

  /** Numbers are read back as they were printed. */
  ghost predicate PrintsBack(g: Graph) {
    forall n :: g.numbers.parse(g.numbers.dec(n), 10) == Some(n) && g.numbers.parse(g.numbers.hex(n), 16) == Some(n)
  }

  /** While a range is on, a number that the user or a default gives lies in it. */
  lemma NumberInRange(g: Graph, u: Users, v: seq<string>, s: SymId, low: int, high: int)
    requires IsSolution(g, u, v) && s < |g.syms| && g.syms[s].typ in {Int, Hex} && g.syms[s].special.None?
    requires PrintsBack(g) && Bounds(g, v, s, BaseOf(g, s), low, high) && low <= high
    requires UserDecides(g, u, v, s, BaseOf(g, s)) ||
             exists k :: Deciding(g, v, g.syms[s].defaults, BaseOf(g, s), k)
    ensures var n := g.numbers.parse(v[s], BaseOf(g, s)); n.Some? && low <= n.value <= high
  {
    hide Bounds, Unbounded, Deciding, SymVis, DefaultText;
    NumberMeans(g, u, v, s);
    if !UserDecides(g, u, v, s, BaseOf(g, s)) {
      var k :| Deciding(g, v, g.syms[s].defaults, BaseOf(g, s), k);
      DecidingParses(g, v, g.syms[s].defaults, BaseOf(g, s), k);
      assert MovedInto(g, v, s, BaseOf(g, s), DefaultText(v, g.syms[s].defaults[k]), v[s]);
      PrintedParses(g, s, low);
      PrintedParses(g, s, high);
    }
  }

  lemma PrintedParses(g: Graph, s: SymId, n: int)
    requires PrintsBack(g)
    ensures g.numbers.parse(Print(g, s, n), BaseOf(g, s)) == Some(n)
  {
  }

  // ---------- Strings and tristates ----------

  ghost predicate FirstDefaultOn(g: Graph, v: seq<string>, ds: seq<Default>, k: int) {
    0 <= k < |ds| && On(g, v, ds[k].cond) && forall j :: 0 <= j < k ==> !On(g, v, ds[j].cond)
  }

  lemma {:induction false} FirstDefaultAt(g: Graph, v: seq<string>, ds: seq<Default>) returns (k: nat)
    ensures k <= |ds| && (k < |ds| ==> FirstDefaultOn(g, v, ds, k) && FirstDefault(g, v, ds) == Some(ds[k]))
    ensures k == |ds| ==> FirstDefault(g, v, ds) == None && forall i :: 0 <= i < |ds| ==> !On(g, v, ds[i].cond)
    ensures forall j :: FirstDefaultOn(g, v, ds, j) ==> j == k < |ds|
  {
    hide Cond, CondLevel;
    if ds == [] {
      k := 0;
    } else {
      CondIsLevel(g, v, ds[0].cond);
      if On(g, v, ds[0].cond) {
        k := 0;
      } else {
        k := FirstDefaultAt(g, v, ds[1..]);
        assert forall i :: 0 <= i < |ds| - 1 ==> ds[1..][i] == ds[i + 1];
        k := k + 1;
        forall j | 0 <= j < k ensures !On(g, v, ds[j].cond) {
          if j > 0 { assert !On(g, v, ds[1..][j - 1].cond); }
        }
        forall j | k < j < |ds| ensures !FirstDefaultOn(g, v, ds, j) { assert k < |ds| ==> On(g, v, ds[k].cond); }
      }
    }
  }

  /** A string symbol has the user's text if it may be seen, else the first default that is on. */
  lemma StringMeans(g: Graph, u: Users, v: seq<string>, s: SymId)
    requires IsSolution(g, u, v) && s < |g.syms| && g.syms[s].typ == String && g.syms[s].special.None?
    ensures SymVis(g, v, s) != N && UserVal(u, s).Some? ==> v[s] == UserVal(u, s).value
    ensures SymVis(g, v, s) == N || UserVal(u, s).None? ==>
              var ds := g.syms[s].defaults;
              && (forall k :: FirstDefaultOn(g, v, ds, k) ==> v[s] == DefaultText(v, ds[k]))
              && ((forall k :: !FirstDefaultOn(g, v, ds, k)) ==> v[s] == "")
  {
    hide SymVis, CondLevel, FirstDefault, FirstDefaultOn, DefaultText;
    assert v[s] == Calc(g, u, v, s) == StringValue(g, u, v, s);
    var ds := g.syms[s].defaults;
    var k := FirstDefaultAt(g, v, ds);
    if k < |ds| { LeafStrIs(g, v, ds[k]); }
  }

  function Greatest(a: nat, b: nat): nat { if a >= b then a else b }

  /** What the user asks for, no more than the visibility; else the first default that is on, no
      more than its condition; else n. */
  ghost predicate IsOwn(g: Graph, u: Users, v: seq<string>, s: SymId, n: nat) {
    if SymVis(g, v, s) != N && UserVal(u, s).Some? then
      n == Least(Level(g, TriOf(UserVal(u, s).value)), Level(g, SymVis(g, v, s)))
    else
      var ds := SymOf(g, s).defaults;
      && (forall k :: FirstDefaultOn(g, v, ds, k) ==>
            n == Least(CondLevel(g, v, Some(ds[k].value)), CondLevel(g, v, ds[k].cond)))
      && ((forall k :: !FirstDefaultOn(g, v, ds, k)) ==> n == 0)
  }

  lemma OwnIsOwn(g: Graph, u: Users, v: seq<string>, s: SymId)
    ensures IsOwn(g, u, v, s, Rank(OwnTri(g, u, v, s)))
    ensures !g.modules ==> OwnTri(g, u, v, s) != M
  {
    hide SymVis, CondLevel, Cond, FirstDefault, FirstDefaultOn;
    var ds := SymOf(g, s).defaults;
    var k := FirstDefaultAt(g, v, ds);
    if k < |ds| {
      CondIsLevel(g, v, Some(ds[k].value));
      CondIsLevel(g, v, ds[k].cond);
      NotM(g, v, ds[k].cond);
      NotM(g, v, Some(ds[k].value));
    }
  }

  lemma OwnIsOne(g: Graph, u: Users, v: seq<string>, s: SymId, n: nat, n': nat)
    requires IsOwn(g, u, v, s, n) && IsOwn(g, u, v, s, n')
    ensures n == n'
  {
    hide SymVis, CondLevel, FirstDefaultOn;
    if k :| FirstDefaultOn(g, v, SymOf(g, s).defaults, k) { }
  }

  function LevelText(n: nat): string { if n == 0 then "n" else if n == 1 then "m" else "y" }

  /** Outside choices a bool or tristate has the greater of its own level and that of what
      selects it; in a bool m is y. */
  lemma TriMeans(g: Graph, u: Users, v: seq<string>, s: SymId, own: nat)
    requires IsSolution(g, u, v) && s < |g.syms| && IsTri(g.syms[s].typ) && g.syms[s].special.None?
    requires g.syms[s].choice.None? && IsOwn(g, u, v, s, own)
    ensures var n := Greatest(own, CondLevel(g, v, Some(g.syms[s].revDep)));
            v[s] == LevelText(if n == 1 && g.syms[s].typ == Bool then 2 else n)
  {
    hide SymVis, CondLevel, Cond, IsOwn, OwnTri;
    assert v[s] == Calc(g, u, v, s) == TriStr(TriValue(g, u, v, s));
    OwnIsOwn(g, u, v, s);
    OwnIsOne(g, u, v, s, own, Rank(OwnTri(g, u, v, s)));
    CondIsLevel(g, v, Some(g.syms[s].revDep));
  }

  /** In a choice: n if not visible; in mode y the selection is y and the others n; in mode m
      those the user asked for are m, or y in a bool; in mode n all are n. */
  lemma MemberMeans(g: Graph, u: Users, v: seq<string>, s: SymId, c: ChoiceId)
    requires IsSolution(g, u, v) && s < |g.syms| && IsTri(g.syms[s].typ) && g.syms[s].special.None?
    requires g.syms[s].choice == Some(c)
    ensures SymVis(g, v, s) == N || Mode(g, u, v, c) == N ==> v[s] == "n"
    ensures SymVis(g, v, s) != N && Mode(g, u, v, c) == Y ==>
              v[s] == if Selection(g, u, v, c) == Some(s) then "y" else "n"
    ensures SymVis(g, v, s) != N && Mode(g, u, v, c) == M ==>
              v[s] ==
              if UserVal(u, s) !in {Some("m"), Some("y")} then "n" else if g.syms[s].typ == Bool then "y" else "m"
  {
    hide SymVis, Mode, Selection;
    assert v[s] == Calc(g, u, v, s) == TriStr(MemberValue(g, u, v, s, c));
  }

  /** A symbol with a fixed value has that, and one without a definition its name. */
  lemma FixedMeans(g: Graph, u: Users, v: seq<string>, s: SymId)
    requires IsSolution(g, u, v) && s < |g.syms|
    ensures g.syms[s].special.Some? ==> v[s] == g.syms[s].special.value
    ensures g.syms[s].special.None? && g.syms[s].typ == Unknown ==> v[s] == g.syms[s].name
  {
    assert v[s] == Calc(g, u, v, s);
  }

  // ---------- What assignments come to ----------

  /** A member of a visible choice that is set to y and fully visible afterwards is y, and its
      siblings are n. */
  lemma SetMemberIsY(g: Graph, u: Users, v: seq<string>, s: SymId, c: ChoiceId)
    requires WellFormed(g) && UsersFit(g, u) && s < |g.syms| && IsTri(g.syms[s].typ) && g.syms[s].choice == Some(c)
    requires g.syms[s].special.None? && g.syms[s].defined && c < |g.choices|
    requires IsSolution(g, Assign(g, u, s, "y"), v) && SymVis(g, v, s) == Y && ChoiceVis(g, v, c) == Y
    ensures v[s] == "y"
    ensures forall k :: IsSibling(g, s, c, k) ==> v[k] == "n"
  {
    hide SymVis, ChoiceVis, SelectionFromDefaults;
    var u' := Assign(g, u, s, "y");
    AssignFits(g, u, s, "y");
    assert UserSel(u', c) == Some(s) && UserMode(u', c) == Some(Y);
    PlainIsSeen(g, u', v, s);
    assert Mode(g, u', v, c) == Y && Selection(g, u', v, c) == Some(s);
    MemberMeans(g, u', v, s, c);
    forall k | IsSibling(g, s, c, k) ensures v[k] == "n" { MemberMeans(g, u', v, k, c); }
  }

  predicate IsSibling(g: Graph, s: SymId, c: ChoiceId, k: int) {
    0 <= k < |g.syms| && k != s && g.syms[k].choice == Some(c) && IsTri(g.syms[k].typ) && g.syms[k].special.None?
  }

  /** A tristate member that is set to m in a visible tristate choice is m if it is visible. */
  lemma SetMemberIsM(g: Graph, u: Users, v: seq<string>, s: SymId, c: ChoiceId)
    requires WellFormed(g) && UsersFit(g, u) && s < |g.syms| && g.syms[s].typ == Tristate && g.syms[s].choice == Some(c)
    requires g.syms[s].special.None? && g.syms[s].defined && c < |g.choices|
    requires g.choices[c].typ == Tristate && g.modules
    requires IsSolution(g, Assign(g, u, s, "m"), v) && SymVis(g, v, s) != N && ChoiceVis(g, v, c) != N
    ensures v[s] == "m"
  {
    hide SymVis, ChoiceVis, Selection;
    var u' := Assign(g, u, s, "m");
    assert UserMode(u', c) == Some(M) && UserVal(u', s) == Some("m");
    MemberMeans(g, u', v, s, c);
  }

  /** A text that is legal for the type is remembered, any other ignored. */
  ghost predicate Legal(g: Graph, typ: SymType, text: string) {
    || (typ == Bool && text in {"n", "y"}) || (typ == Tristate && text in {"n", "m", "y"}) || typ == String
    || (typ == Int && g.numbers.parse(text, 10).Some?) || (typ == Hex && g.numbers.parse(text, 16).Some?)
  }

  ghost predicate Accepts(g: Graph, s: SymId, text: string) {
    SymOf(g, s).special.None? && SymOf(g, s).defined && Legal(g, SymOf(g, s).typ, text)
  }

  lemma AssignRemembers(g: Graph, u: Users, s: SymId, text: string)
    requires WellFormed(g) && UsersFit(g, u) && s < |g.syms|
    ensures var r := Assign(g, u, s, text);
            && (!Accepts(g, s, text) ==> r == u)
            && (Accepts(g, s, text) ==> UserVal(r, s) == Some(text))
            && (forall t: SymId :: t != s ==> UserVal(r, t) == UserVal(u, t))
            && (text == "n" ==> r.sel == u.sel && r.mode == u.mode)
  {
  }

  /** The last line that is accepted for s. */
  ghost predicate LastFor(g: Graph, lines: seq<(SymId, string)>, s: SymId, k: int) {
    && 0 <= k < |lines| && lines[k].0 == s && Accepts(g, s, lines[k].1)
    && forall j :: k < j < |lines| && lines[j].0 == s ==> !Accepts(g, s, lines[j].1)
  }

  /** After a file the user value is that of the last accepted line, or what it was. */
  lemma {:induction false} LastLineWins(g: Graph, u: Users, lines: seq<(SymId, string)>, s: SymId)
    requires WellFormed(g) && UsersFit(g, u) && (forall l :: l in lines ==> l.0 < |g.syms|) && s < |g.syms|
    ensures forall k :: LastFor(g, lines, s, k) ==> UserVal(AssignAll(g, u, lines), s) == Some(lines[k].1)
    ensures (forall k :: !LastFor(g, lines, s, k)) ==> UserVal(AssignAll(g, u, lines), s) == UserVal(u, s)
    decreases |lines|
  {
    hide Assign, Accepts, WellFormed, UsersFit, UserVal;
    if lines != [] {
      var n := |lines| - 1;
      var init, last := lines[..n], lines[n];
      assert last in lines && forall l :: l in init ==> l in lines;
      LastLineWins(g, u, init, s);
      AssignRemembers(g, AssignAll(g, u, init), last.0, last.1);
      if last.0 == s && Accepts(g, s, last.1) {
        assert LastFor(g, lines, s, n);
        forall k | LastFor(g, lines, s, k) ensures k == n { }
      } else {
        forall k ensures LastFor(g, lines, s, k) <==> LastFor(g, init, s, k) { LastInit(g, lines, s, k); }
      }
    }
  }

  lemma LastInit(g: Graph, lines: seq<(SymId, string)>, s: SymId, k: int)
    requires lines != [] && !(lines[|lines| - 1].0 == s && Accepts(g, s, lines[|lines| - 1].1))
    ensures LastFor(g, lines, s, k) <==> LastFor(g, lines[..|lines| - 1], s, k)
  {
    hide Accepts;
    var n := |lines| - 1;
    var init := lines[..n];
    assert forall j :: 0 <= j < n ==> init[j] == lines[j];
  }

  /** After the reset the user has no say in any value, nor in any choice that has a member. */
  lemma {:induction false} ResetForgets(g: Graph, u: Users, n: nat, s: SymId)
    requires WellFormed(g) && UsersFit(g, u) && s < n <= |g.syms|
    ensures UserVal(UnassignAll(g, u, n), s) == None
    ensures g.syms[s].choice.Some? ==>
              var c := g.syms[s].choice.value;
              UserSel(UnassignAll(g, u, n), c) == None && UserMode(UnassignAll(g, u, n), c) == None
  {
    var w := UnassignAll(g, u, n - 1);
    if s < n - 1 { ResetForgets(g, u, n - 1, s); }
    ChoiceInRange(g, n - 1);
    ChoiceInRange(g, s);
  }
}
