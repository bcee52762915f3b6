/** The grammar of expressions as derivation trees: the parser takes exactly what they yield. */
module KconfigGrammar {
  import opened KconfigExpr
  import opened KconfigParser

  /** A symbol or constant, a comparison, a negated factor, or an expression in parentheses. */
  datatype Factor = Atomic(a: Atom) | Compared(l: Atom, equal: bool, r: Atom) | Negated(f: Factor) | Enclosed(e: Sum)

  /** Factors with && between them. */
  datatype Product = Single(f: Factor) | Times(f: Factor, more: Product)

  /** Products with || between them. */
  datatype Sum = OneTerm(p: Product) | Plus(p: Product, more: Sum)

  // ---------- The tokens of a tree and the expression it stands for ----------

  function FactorTokens(f: Factor): seq<Token>
    decreases f
  {
    match f
    case Atomic(a) => [TAtom(a)]
    case Compared(l, equal, r) => [TAtom(l), if equal then TEqual else TUnequal, TAtom(r)]
    case Negated(g) => [TNot] + FactorTokens(g)
    case Enclosed(e) => [TOpenParen] + (SumTokens(e) + [TCloseParen])
  }

  function ProductTokens(p: Product): seq<Token>
    decreases p
  {
    match p
    case Single(f) => FactorTokens(f)
    case Times(f, more) => FactorTokens(f) + ([TAnd] + ProductTokens(more))
  }

  function SumTokens(e: Sum): seq<Token>
    decreases e
  {
    match e
    case OneTerm(p) => ProductTokens(p)
    case Plus(p, more) => ProductTokens(p) + ([TOr] + SumTokens(more))
  }

  function FactorExpr(f: Factor): Expr
    decreases f
  {
    match f
    case Atomic(a) => Leaf(a)
    case Compared(l, equal, r) => Rel(equal, l, r)
    case Negated(g) => Not(FactorExpr(g))
    case Enclosed(e) => SumExpr(e)
  }

  function Factors(p: Product): seq<Expr>
    decreases p, 0
  {
    match p case Single(f) => [FactorExpr(f)] case Times(f, more) => [FactorExpr(f)] + Factors(more)
  }

  /** Two factors or more make one conjunction, however many. */
  function ProductExpr(p: Product): Expr
    decreases p, 1
  {
    if p.Single? then FactorExpr(p.f) else And(Factors(p))
  }

  function Terms(e: Sum): seq<Expr>
    decreases e, 0
  {
    match e case OneTerm(p) => [ProductExpr(p)] case Plus(p, more) => [ProductExpr(p)] + Terms(more)
  }

  function SumExpr(e: Sum): Expr
    decreases e, 1
  {
    if e.OneTerm? then ProductExpr(e.p) else Or(Terms(e))
  }

  // ---------- What may follow ----------

  /** A comparison takes the place of a symbol wherever it can. */
  predicate FactorEnds(f: Factor, rest: seq<Token>) {
    match f
    case Atomic(_) => !StartsWith(rest, TEqual) && !StartsWith(rest, TUnequal)
    case Negated(g) => FactorEnds(g, rest)
    case _ => true
  }

  predicate ProductEnds(p: Product, rest: seq<Token>) {
    match p
    case Single(f) => FactorEnds(f, rest) && !StartsWith(rest, TAnd)
    case Times(_, more) => ProductEnds(more, rest)
  }

  predicate SumEnds(e: Sum, rest: seq<Token>) {
    match e
    case OneTerm(p) => ProductEnds(p, rest) && !StartsWith(rest, TOr)
    case Plus(_, more) => SumEnds(more, rest)
  }

  // ---------- What a tree yields is parsed as it ----------

  lemma {:induction false} FactorParses(f: Factor, rest: seq<Token>)
    requires FactorEnds(f, rest)
    ensures ParseFactor(FactorTokens(f) + rest) == Ok(FactorExpr(f), rest)
    decreases f, 0
  {
    hide ParseExpr;
    var ts := FactorTokens(f) + rest;
    match f
    case Atomic(a) => assert ts[1..] == rest;
    case Compared(l, equal, r) => assert ts[3..] == rest && ts[1..][0] == ts[1];
    case Negated(g) =>
      assert ts[1..] == FactorTokens(g) + rest;
      FactorParses(g, rest);
    case Enclosed(e) =>
      var after := [TCloseParen] + rest;
      assert ts[1..] == SumTokens(e) + after && after[1..] == rest;
      CloserEnds(e, after);
      SumParses(e, after);
  }

  lemma {:induction false} ProductParses(p: Product, rest: seq<Token>)
    requires ProductEnds(p, rest)
    ensures ParseAndTerms(ProductTokens(p) + rest) == Ok(Factors(p), rest)
    ensures ParseOrTerm(ProductTokens(p) + rest) == Ok(ProductExpr(p), rest)
    decreases p, 1
  {
    hide ParseFactor;
    match p
    case Single(f) =>
      FactorParses(f, rest);
      AndTerms(FactorTokens(f) + rest, FactorExpr(f), rest);
      assert [FactorExpr(f)] + [] == [FactorExpr(f)];
    case Times(f, more) =>
      var after := [TAnd] + (ProductTokens(more) + rest);
      assert ProductTokens(p) + rest == FactorTokens(f) + after && after[1..] == ProductTokens(more) + rest;
      OperatorEnds(f, after);
      FactorParses(f, after);
      ProductParses(more, rest);
      AndTerms(FactorTokens(f) + after, FactorExpr(f), after);
      AtLeastOne(more);
  }

  lemma {:induction false} SumParses(e: Sum, rest: seq<Token>)
    requires SumEnds(e, rest)
    ensures ParseOrTerms(SumTokens(e) + rest) == Ok(Terms(e), rest)
    ensures ParseExpr(SumTokens(e) + rest) == Ok(SumExpr(e), rest)
    decreases e, 2
  {
    hide ParseOrTerm, ParseAndTerms;
    match e
    case OneTerm(p) =>
      ProductParses(p, rest);
      OrTerms(ProductTokens(p) + rest, ProductExpr(p), rest);
      assert [ProductExpr(p)] + [] == [ProductExpr(p)];
    case Plus(p, more) =>
      var after := [TOr] + (SumTokens(more) + rest);
      assert SumTokens(e) + rest == ProductTokens(p) + after && after[1..] == SumTokens(more) + rest;
      OrEnds(p, after);
      ProductParses(p, after);
      SumParses(more, rest);
      OrTerms(ProductTokens(p) + after, ProductExpr(p), after);
      SomeTerm(more);
  }

  lemma AtLeastOne(p: Product)
    ensures Factors(p) != []
  {
  }

  lemma SomeTerm(e: Sum)
    ensures Terms(e) != []
  {
  }

  lemma {:induction false} OperatorEnds(f: Factor, rest: seq<Token>)
    requires rest != [] && rest[0] != TEqual && rest[0] != TUnequal
    ensures FactorEnds(f, rest)
  {
    if f.Negated? { OperatorEnds(f.f, rest); }
  }

  lemma {:induction false} OrEnds(p: Product, rest: seq<Token>)
    requires rest != [] && rest[0] in {TOr, TCloseParen}
    ensures ProductEnds(p, rest)
  {
    match p
    case Single(f) => OperatorEnds(f, rest);
    case Times(_, more) => OrEnds(more, rest);
  }

  lemma {:induction false} CloserEnds(e: Sum, rest: seq<Token>)
    requires rest != [] && rest[0] == TCloseParen
    ensures SumEnds(e, rest)
  {
    match e
    case OneTerm(p) => OrEnds(p, rest);
    case Plus(_, more) => CloserEnds(more, rest);
  }

  // ---------- What is parsed is what a tree yields ----------

  lemma {:induction false} FactorTree(ts: seq<Token>) returns (f: Factor)
    requires ParseFactor(ts).Ok?
    ensures var r := ParseFactor(ts);
            ts == FactorTokens(f) + r.rest && FactorExpr(f) == r.value && FactorEnds(f, r.rest)
    decreases |ts|, 0
  {
    hide ParseExpr;
    match ts[0]
    case TAtom(a) =>
      if !StartsWith(ts[1..], TEqual) && !StartsWith(ts[1..], TUnequal) {
        f := Atomic(a);
      } else {
        f := Compared(a, ts[1] == TEqual, ts[2].a);
      }
    case TNot =>
      var g := FactorTree(ts[1..]);
      f := Negated(g);
      assert ts == [TNot] + ts[1..];
    case TOpenParen =>
      var e := SumTree(ts[1..]);
      var rest := ParseExpr(ts[1..]).rest;
      assert rest == [TCloseParen] + rest[1..];
      assert ts == [TOpenParen] + (SumTokens(e) + ([TCloseParen] + rest[1..]));
      f := Enclosed(e);
  }

  lemma {:induction false} ProductTree(ts: seq<Token>) returns (p: Product)
    requires ParseAndTerms(ts).Ok?
    ensures var r := ParseAndTerms(ts);
            && ts == ProductTokens(p) + r.rest && Factors(p) == r.value && ProductEnds(p, r.rest)
            && ParseOrTerm(ts) == Ok(ProductExpr(p), r.rest)
    decreases |ts|, 1
  {
    hide ParseFactor;
    var f := FactorTree(ts);
    var left := ParseFactor(ts).rest;
    AndTerms(ts, FactorExpr(f), left);
    if StartsWith(left, TAnd) {
      var more := ProductTree(left[1..]);
      p := Times(f, more);
      assert left == [TAnd] + left[1..];
      AtLeastOne(more);
    } else {
      p := Single(f);
      assert [FactorExpr(f)] + [] == [FactorExpr(f)];
    }
  }

  lemma {:induction false} SumTree(ts: seq<Token>) returns (e: Sum)
    requires ParseExpr(ts).Ok?
    ensures var r := ParseExpr(ts); ts == SumTokens(e) + r.rest && SumExpr(e) == r.value && SumEnds(e, r.rest)
    decreases |ts|, 3
  {
    hide ParseOrTerms;
    e := TermsTree(ts);
  }

  lemma {:induction false} TermsTree(ts: seq<Token>) returns (e: Sum)
    requires ParseOrTerms(ts).Ok?
    ensures var r := ParseOrTerms(ts);
            && ts == SumTokens(e) + r.rest && Terms(e) == r.value && SumEnds(e, r.rest)
            && ParseExpr(ts) == Ok(SumExpr(e), r.rest)
    decreases |ts|, 2
  {
    hide ParseAndTerms;
    ParseOrTermsRaise(ts);
    TermOk(ts);
    var p := ProductTree(ts);
    var left := ParseAndTerms(ts).rest;
    OrTerms(ts, ProductExpr(p), left);
    if StartsWith(left, TOr) {
      var more := TermsTree(left[1..]);
      e := Plus(p, more);
      assert left == [TOr] + left[1..];
      SomeTerm(more);
    } else {
      e := OneTerm(p);
      assert [ProductExpr(p)] + [] == [ProductExpr(p)];
    }
  }

  lemma TermOk(ts: seq<Token>)
    ensures ParseOrTerm(ts).Ok? <==> ParseAndTerms(ts).Ok?
  {
  }

  ghost predicate Derives(ts: seq<Token>, e: Expr, rest: seq<Token>, tree: Sum) {
    ts == SumTokens(tree) + rest && SumExpr(tree) == e && SumEnds(tree, rest)
  }

  /** The parser returns an expression and what is left exactly if some tree yields the tokens
      before that, stands for the expression, and could not go on. */
  lemma ParsesExactly(ts: seq<Token>, e: Expr, rest: seq<Token>)
    ensures ParseExpr(ts) == Ok(e, rest) <==> exists tree :: Derives(ts, e, rest, tree)
  {
    hide ParseExpr, SumTokens, SumExpr, SumEnds;
    if ParseExpr(ts) == Ok(e, rest) {
      var tree := SumTree(ts);
      assert Derives(ts, e, rest, tree);
    }
    if tree :| Derives(ts, e, rest, tree) { SumParses(tree, rest); }
  }

  /** An opened parenthesis that is not closed after a whole expression is that error. */
  lemma MissingParenthesis(tree: Sum, rest: seq<Token>)
    requires SumEnds(tree, rest) && !StartsWith(rest, TCloseParen)
    ensures ParseFactor([TOpenParen] + (SumTokens(tree) + rest)) == Err(MissingEndParenthesis)
  {
    hide ParseExpr, SumTokens, SumExpr, SumEnds;
    var ts := [TOpenParen] + (SumTokens(tree) + rest);
    assert ts[1..] == SumTokens(tree) + rest;
    SumParses(tree, rest);
  }

  function Lone(f: Factor): Sum { OneTerm(Single(f)) }

  lemma LoneParses(f: Factor, ts: seq<Token>)
    requires ts == FactorTokens(f) && FactorEnds(f, [])
    ensures ParseExpr(ts) == Ok(FactorExpr(f), [])
  {
    hide ParseExpr;
    LoneIs(f);
    SumParses(Lone(f), []);
    assert ts + [] == ts;
  }

  lemma LoneIs(f: Factor)
    ensures SumTokens(Lone(f)) == FactorTokens(f) && SumExpr(Lone(f)) == FactorExpr(f)
    ensures FactorEnds(f, []) ==> SumEnds(Lone(f), [])
  {
  }

  lemma NegatedTokens(f: Factor)
    ensures FactorTokens(Negated(f)) == [TNot] + FactorTokens(f) && FactorExpr(Negated(f)) == Not(FactorExpr(f))
    ensures FactorEnds(Negated(f), []) <==> FactorEnds(f, [])
  {
  }

  lemma EnclosedTokens(f: Factor)
    ensures FactorTokens(Enclosed(Lone(f))) == [TOpenParen] + (FactorTokens(f) + [TCloseParen])
    ensures FactorExpr(Enclosed(Lone(f))) == FactorExpr(f) && FactorEnds(Enclosed(Lone(f)), [])
  {
    LoneIs(f);
  }

  lemma AtomTokens(a: Atom, b: Atom)
    ensures FactorTokens(Atomic(a)) == [TAtom(a)] && FactorExpr(Atomic(a)) == Leaf(a) && FactorEnds(Atomic(a), [])
    ensures FactorTokens(Compared(a, true, b)) == [TAtom(a), TEqual, TAtom(b)]
    ensures FactorExpr(Compared(a, true, b)) == Rel(true, a, b) && FactorEnds(Compared(a, true, b), [])
  {
  }

  /** Double negation, a negated comparison, and parentheses around parentheses. */
  lemma SomeParses(a: Atom, b: Atom)
    ensures ParseExpr([TNot, TNot, TAtom(a)]) == Ok(Not(Not(Leaf(a))), [])
    ensures ParseExpr([TNot, TAtom(a), TEqual, TAtom(b)]) == Ok(Not(Rel(true, a, b)), [])
    ensures ParseExpr([TOpenParen, TOpenParen, TAtom(a), TCloseParen, TCloseParen]) == Ok(Leaf(a), [])
  {
    hide *;
    AtomTokens(a, b);
    NegatedTokens(Atomic(a));
    NegatedTokens(Negated(Atomic(a)));
    LoneParses(Negated(Negated(Atomic(a))), [TNot, TNot, TAtom(a)]);
    NegatedTokens(Compared(a, true, b));
    LoneParses(Negated(Compared(a, true, b)), [TNot, TAtom(a), TEqual, TAtom(b)]);
    EnclosedTokens(Atomic(a));
    var inner := Enclosed(Lone(Atomic(a)));
    EnclosedTokens(inner);
    LoneParses(Enclosed(Lone(inner)), [TOpenParen, TOpenParen, TAtom(a), TCloseParen, TCloseParen]);
  }
}
