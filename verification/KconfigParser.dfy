/** Printing an expression as tokens, and the top-down parser that reads it back. */
module KconfigParser {
  import opened Options
  import opened KconfigExpr

  datatype Token =
    | TAtom(a: Atom)
    | TAnd | TOr | TNot | TOpenParen | TCloseParen | TEqual | TUnequal

  datatype ParseError = MissingEndParenthesis | MalformedExpression | StrayOperand

  datatype Result<+T> = Ok(value: T, rest: seq<Token>) | Err(error: ParseError)

  predicate StartsWith(ts: seq<Token>, t: Token) { ts != [] && ts[0] == t }

  // ---------- Printing ----------

  function Precedence(e: Expr): nat { match e case Or(_) => 0 case And(_) => 1 case _ => 2 }

  /** Tokens of an expression, with parentheses only where precedence asks for them. */
  function Print(e: Expr): seq<Token>
    decreases e, 0
  {
    match e
    case Leaf(a) => [TAtom(a)]
    case And(es) => Intersperse(es, TAnd)
    case Or(es) => Intersperse(es, TOr)
    case Not(f) => [TNot] + (if f.Leaf? then Print(f) else [TOpenParen] + Print(f) + [TCloseParen])
    case Rel(equal, l, r) => [TAtom(l), if equal then TEqual else TUnequal, TAtom(r)]
  }

  function PrintOperand(e: Expr, op: Token): seq<Token>
    decreases e, 1
  {
    if (if op == TAnd then 1 else 0) <= Precedence(e) then Print(e)
    else [TOpenParen] + Print(e) + [TCloseParen]
  }

  function Intersperse(es: seq<Expr>, op: Token): seq<Token>
    decreases es
  {
    if es == [] then []
    else if |es| == 1 then PrintOperand(es[0], op)
    else PrintOperand(es[0], op) + [op] + Intersperse(es[1..], op)
  }

  // ---------- The grammar, as functions on the tokens left ----------

  function Prepend(xs: seq<Expr>, r: Result<seq<Expr>>): Result<seq<Expr>> {
    match r case Ok(ys, rest) => Ok(xs + ys, rest) case Err(e) => Err(e)
  }

  function Wrap(op: Token, xs: seq<Expr>): Expr {
    if |xs| == 1 then xs[0] else if op == TAnd then And(xs) else Or(xs)
  }

  function Collect(op: Token, r: Result<seq<Expr>>): Result<Expr> {
    match r case Ok(xs, rest) => Ok(Wrap(op, xs), rest) case Err(e) => Err(e)
  }

  function ParseFactor(ts: seq<Token>): (r: Result<Expr>)
    ensures r.Ok? ==> |r.rest| < |ts|
    decreases |ts|, 0
  {
    if ts == [] then Err(MalformedExpression)
    else match ts[0]
      case TAtom(a) =>
        if !StartsWith(ts[1..], TEqual) && !StartsWith(ts[1..], TUnequal) then Ok(Leaf(a), ts[1..])
        else if |ts| > 2 && ts[2].TAtom? then Ok(Rel(ts[1] == TEqual, a, ts[2].a), ts[3..])
        else Err(StrayOperand)
      case TNot =>
        (match ParseFactor(ts[1..]) case Ok(e, rest) => Ok(Not(e), rest) case Err(x) => Err(x))
      case TOpenParen =>
        (match ParseExpr(ts[1..])
         case Ok(e, rest) => if StartsWith(rest, TCloseParen) then Ok(e, rest[1..]) else Err(MissingEndParenthesis)
         case Err(x) => Err(x))
      case _ => Err(MalformedExpression)
  }

  function ParseAndTerms(ts: seq<Token>): (r: Result<seq<Expr>>)
    ensures r.Ok? ==> |r.rest| < |ts| && r.value != []
    decreases |ts|, 1
  {
    match ParseFactor(ts)
    case Ok(e, rest) => Prepend([e], MoreAndTerms(rest))
    case Err(x) => Err(x)
  }

  function MoreAndTerms(ts: seq<Token>): (r: Result<seq<Expr>>)
    ensures r.Ok? ==> |r.rest| <= |ts|
    decreases |ts|
  {
    if StartsWith(ts, TAnd) then ParseAndTerms(ts[1..]) else Ok([], ts)
  }

  function ParseOrTerm(ts: seq<Token>): (r: Result<Expr>)
    ensures r.Ok? ==> |r.rest| < |ts|
    decreases |ts|, 2
  {
    Collect(TAnd, ParseAndTerms(ts))
  }

  function ParseOrTerms(ts: seq<Token>): (r: Result<seq<Expr>>)
    ensures r.Ok? ==> |r.rest| < |ts| && r.value != []
    decreases |ts|, 3
  {
    match ParseOrTerm(ts)
    case Ok(e, rest) => Prepend([e], MoreOrTerms(rest))
    case Err(x) => Err(x)
  }

  function MoreOrTerms(ts: seq<Token>): (r: Result<seq<Expr>>)
    ensures r.Ok? ==> |r.rest| <= |ts|
    decreases |ts|
  {
    if StartsWith(ts, TOr) then ParseOrTerms(ts[1..]) else Ok([], ts)
  }

  function ParseExpr(ts: seq<Token>): (r: Result<Expr>)
    ensures r.Ok? ==> |r.rest| < |ts|
    decreases |ts|, 4
  {
    Collect(TOr, ParseOrTerms(ts))
  }

  // ---------- The parser as it is: a feed read step by step ----------

  class Feed {
    const items: seq<Token>
    var i: nat

    ghost predicate Valid()
      reads this
    {
      i <= |items|
    }

    ghost function Left(): seq<Token>
      reads this
      requires Valid()
    {
      items[i..]
    }

    constructor (items: seq<Token>)
      ensures Valid() && Left() == items
    {
      this.items := items;
      i := 0;
    }

    method GetNext() returns (t: Option<Token>)
      requires Valid()
      modifies this
      ensures Valid()
      ensures old(Left()) == [] ==> t == None && Left() == []
      ensures old(Left()) != [] ==> t == Some(old(Left())[0]) && Left() == old(Left())[1..]
    {
      if i >= |items| { return None; }
      t := Some(items[i]);
      i := i + 1;
    }

    method PeekNext() returns (t: Option<Token>)
      requires Valid()
      ensures t == if Left() == [] then None else Some(Left()[0])
    {
      t := if i >= |items| then None else Some(items[i]);
    }

    method Check(token: Token) returns (b: bool)
      requires Valid()
      modifies this
      ensures Valid()
      ensures b == StartsWith(old(Left()), token)
      ensures Left() == if b then old(Left())[1..] else old(Left())
    {
      if i < |items| && items[i] == token {
        i := i + 1;
        return true;
      }
      return false;
    }
  }

  datatype Outcome<+T> = Parsed(value: T) | Raised(error: ParseError)

  ghost predicate Agrees<T>(o: Outcome<T>, left: seq<Token>, spec: Result<T>) {
    match o
    case Parsed(e) => spec == Ok(e, left)
    case Raised(x) => spec == Err(x)
  }

  /** After one term, the list either goes on past an operator or ends. */
  lemma OrTerms(from: seq<Token>, e: Expr, left: seq<Token>)
    requires ParseOrTerm(from) == Ok(e, left)
    ensures ParseOrTerms(from) ==
            Prepend([e], if StartsWith(left, TOr) then ParseOrTerms(left[1..]) else Ok([], left))
    ensures !StartsWith(left, TOr) ==> ParseExpr(from) == Ok(e, left)
  {
    assert [e] + [] == [e];
  }

  lemma AndTerms(from: seq<Token>, e: Expr, left: seq<Token>)
    requires ParseFactor(from) == Ok(e, left)
    ensures ParseAndTerms(from) ==
            Prepend([e], if StartsWith(left, TAnd) then ParseAndTerms(left[1..]) else Ok([], left))
    ensures !StartsWith(left, TAnd) ==> ParseOrTerm(from) == Ok(e, left)
  {
    assert [e] + [] == [e];
  }

  lemma ParseOrTermsRaise(from: seq<Token>)
    ensures ParseOrTerm(from).Err? ==> ParseOrTerms(from) == Err(ParseOrTerm(from).error)
  {
  }

  lemma ParseAndTermsRaise(from: seq<Token>)
    ensures ParseFactor(from).Err? ==> ParseAndTerms(from) == Err(ParseFactor(from).error)
  {
  }

  method ParseExprRec(feed: Feed) returns (o: Outcome<Expr>)
    requires feed.Valid()
    modifies feed
    ensures feed.Valid()
    ensures Agrees(o, feed.Left(), ParseExpr(old(feed.Left())))
    decreases |feed.Left()|, 4
  {
    hide ParseFactor, ParseAndTerms, ParseOrTerm, ParseOrTerms;
    ghost var start := feed.Left();
    var first := ParseOrTermRec(feed);
    if first.Raised? { ParseOrTermsRaise(start); return first; }
    ghost var left := feed.Left();
    var more := feed.Check(TOr);
    OrTerms(start, first.value, left);
    if !more { return first; }
    ghost var from := feed.Left();
    var next := ParseOrTermRec(feed);
    if next.Raised? { ParseOrTermsRaise(from); return next; }
    left := feed.Left();
    var orTerms := [first.value, next.value];
    assert orTerms == [first.value] + [next.value];
    more := feed.Check(TOr);
    OrTerms(from, next.value, left);
    PrependTwice([first.value], [next.value], if more then ParseOrTerms(feed.Left()) else Ok([], left));
    while more
      invariant feed.Valid() && |feed.Left()| < |start|
      invariant |orTerms| >= 2
      invariant ParseOrTerms(start) ==
                Prepend(orTerms, if more then ParseOrTerms(feed.Left()) else Ok([], feed.Left()))
      decreases more, |feed.Left()|
    {
      from := feed.Left();
      next := ParseOrTermRec(feed);
      if next.Raised? { ParseOrTermsRaise(from); return next; }
      left := feed.Left();
      more := feed.Check(TOr);
      OrTerms(from, next.value, left);
      PrependTwice(orTerms, [next.value], if more then ParseOrTerms(feed.Left()) else Ok([], left));
      orTerms := orTerms + [next.value];
    }
    assert orTerms + [] == orTerms;
    return Parsed(Or(orTerms));
  }

  method ParseOrTermRec(feed: Feed) returns (o: Outcome<Expr>)
    requires feed.Valid()
    modifies feed
    ensures feed.Valid()
    ensures Agrees(o, feed.Left(), ParseOrTerm(old(feed.Left())))
    decreases |feed.Left()|, 2
  {
    hide ParseFactor, ParseAndTerms, ParseOrTerms;
    ghost var start := feed.Left();
    var first := ParseFactorRec(feed);
    if first.Raised? { ParseAndTermsRaise(start); return first; }
    ghost var left := feed.Left();
    var more := feed.Check(TAnd);
    AndTerms(start, first.value, left);
    if !more { return first; }
    ghost var from := feed.Left();
    var next := ParseFactorRec(feed);
    if next.Raised? { ParseAndTermsRaise(from); return next; }
    left := feed.Left();
    var andTerms := [first.value, next.value];
    assert andTerms == [first.value] + [next.value];
    more := feed.Check(TAnd);
    AndTerms(from, next.value, left);
    PrependTwice([first.value], [next.value], if more then ParseAndTerms(feed.Left()) else Ok([], left));
    while more
      invariant feed.Valid() && |feed.Left()| < |start|
      invariant |andTerms| >= 2
      invariant ParseAndTerms(start) ==
                Prepend(andTerms, if more then ParseAndTerms(feed.Left()) else Ok([], feed.Left()))
      decreases more, |feed.Left()|
    {
      from := feed.Left();
      next := ParseFactorRec(feed);
      if next.Raised? { ParseAndTermsRaise(from); return next; }
      left := feed.Left();
      more := feed.Check(TAnd);
      AndTerms(from, next.value, left);
      PrependTwice(andTerms, [next.value], if more then ParseAndTerms(feed.Left()) else Ok([], left));
      andTerms := andTerms + [next.value];
    }
    assert andTerms + [] == andTerms;
    return Parsed(And(andTerms));
  }

  method ParseFactorRec(feed: Feed) returns (o: Outcome<Expr>)
    requires feed.Valid()
    modifies feed
    ensures feed.Valid()
    ensures Agrees(o, feed.Left(), ParseFactor(old(feed.Left())))
    decreases |feed.Left()|, 0
  {
    var token := feed.GetNext();
    if token.Some? && token.value.TAtom? {
      var nextToken := feed.PeekNext();
      if nextToken != Some(TEqual) && nextToken != Some(TUnequal) {
        return Parsed(Leaf(token.value.a));
      }
      var relation := feed.GetNext();
      var token2 := feed.GetNext();
      if token2.Some? && token2.value.TAtom? {
        return Parsed(Rel(relation == Some(TEqual), token.value.a, token2.value.a));
      }
      return Raised(StrayOperand);
    }
    if token == Some(TNot) {
      var sub := ParseFactorRec(feed);
      if sub.Raised? { return sub; }
      return Parsed(Not(sub.value));
    }
    if token == Some(TOpenParen) {
      var sub := ParseExprRec(feed);
      if sub.Raised? { return sub; }
      var closed := feed.Check(TCloseParen);
      if !closed { return Raised(MissingEndParenthesis); }
      return sub;
    }
    return Raised(MalformedExpression);
  }

  // ---------- Flattening nested && and || ----------

  /** The tree with operands of the same operator merged into one list, and
      one-operand lists replaced by their operand. */
  function Flatten(e: Expr): Expr
    decreases e, 1
  {
    match e
    case And(es) => Wrap(TAnd, Operands(es, TAnd))
    case Or(es) => Wrap(TOr, Operands(es, TOr))
    case Not(f) => Not(Flatten(f))
    case _ => e
  }

  function Items(e: Expr, op: Token): seq<Expr>
    decreases e, 2
  {
    if op == TAnd && e.And? then Operands(e.es, op)
    else if op == TOr && e.Or? then Operands(e.es, op)
    else [Flatten(e)]
  }

  function Operands(es: seq<Expr>, op: Token): seq<Expr>
    decreases es
  {
    if es == [] then [] else Items(es[0], op) + Operands(es[1..], op)
  }

  /** Every operator has an operand: what the parser and the Kconfig reader build. */
  predicate HasOperands(e: Expr)
    decreases e, 0
  {
    match e
    case And(es) => es != [] && AllHaveOperands(es)
    case Or(es) => es != [] && AllHaveOperands(es)
    case Not(f) => HasOperands(f)
    case _ => true
  }

  predicate AllHaveOperands(es: seq<Expr>)
    decreases es
  {
    es == [] || (HasOperands(es[0]) && AllHaveOperands(es[1..]))
  }

  // ---------- Round trip ----------

  predicate AfterExpr(ts: seq<Token>) { ts == [] || ts[0] == TCloseParen }

  predicate AfterOrTerm(ts: seq<Token>) { AfterExpr(ts) || ts[0] == TOr }

  predicate AfterFactor(ts: seq<Token>) { AfterOrTerm(ts) || ts[0] == TAnd }

  lemma {:induction false} ParsePrintedExpr(e: Expr, rest: seq<Token>)
    requires HasOperands(e) && AfterExpr(rest)
    ensures ParseExpr(Print(e) + rest) == Ok(Flatten(e), rest)
    decreases e, 4
  {
    ParsePrintedOrOperand(e, rest);
    assert MoreOrTerms(rest) == Ok([], rest);
    assert Items(e, TOr) + [] == Items(e, TOr);
    assert PrintOperand(e, TOr) == Print(e);
  }

  lemma {:induction false} ParsePrintedOrOperand(e: Expr, rest: seq<Token>)
    requires HasOperands(e) && AfterOrTerm(rest)
    ensures ParseOrTerms(PrintOperand(e, TOr) + rest) == Prepend(Items(e, TOr), MoreOrTerms(rest))
    decreases e, 3
  {
    if e.Or? {
      ParsePrintedOrList(e.es, rest);
    } else {
      ParsePrintedAndOperand(e, rest);
      assert MoreAndTerms(rest) == Ok([], rest);
      assert Items(e, TAnd) + [] == Items(e, TAnd);
      assert PrintOperand(e, TAnd) == Print(e) == PrintOperand(e, TOr);
      assert ParseOrTerm(Print(e) + rest) == Ok(Flatten(e), rest);
    }
  }

  lemma {:induction false} ParsePrintedOrList(es: seq<Expr>, rest: seq<Token>)
    requires es != [] && AllHaveOperands(es) && AfterOrTerm(rest)
    ensures ParseOrTerms(Intersperse(es, TOr) + rest) == Prepend(Operands(es, TOr), MoreOrTerms(rest))
    decreases es
  {
    var first, tail := es[0], es[1..];
    if tail == [] {
      ParsePrintedOrOperand(first, rest);
      assert Operands(es, TOr) == Items(first, TOr);
    } else {
      var rest' := [TOr] + (Intersperse(tail, TOr) + rest);
      assert Intersperse(es, TOr) + rest == PrintOperand(first, TOr) + rest';
      assert rest'[1..] == Intersperse(tail, TOr) + rest;
      ParsePrintedOrOperand(first, rest');
      ParsePrintedOrList(tail, rest);
      PrependTwice(Items(first, TOr), Operands(tail, TOr), MoreOrTerms(rest));
    }
  }

  lemma {:induction false} ParsePrintedAndOperand(e: Expr, rest: seq<Token>)
    requires HasOperands(e) && AfterFactor(rest)
    ensures ParseAndTerms(PrintOperand(e, TAnd) + rest) == Prepend(Items(e, TAnd), MoreAndTerms(rest))
    decreases e, if e.Or? then 6 else 2
  {
    if e.And? {
      ParsePrintedAndList(e.es, rest);
    } else if e.Or? {
      ParseParenthesised(e, rest);
    } else {
      ParsePrintedFactor(e, rest);
    }
  }

  lemma {:induction false} ParsePrintedAndList(es: seq<Expr>, rest: seq<Token>)
    requires es != [] && AllHaveOperands(es) && AfterFactor(rest)
    ensures ParseAndTerms(Intersperse(es, TAnd) + rest) == Prepend(Operands(es, TAnd), MoreAndTerms(rest))
    decreases es
  {
    var first, tail := es[0], es[1..];
    if tail == [] {
      ParsePrintedAndOperand(first, rest);
      assert Operands(es, TAnd) == Items(first, TAnd);
    } else {
      var rest' := [TAnd] + (Intersperse(tail, TAnd) + rest);
      assert Intersperse(es, TAnd) + rest == PrintOperand(first, TAnd) + rest';
      assert rest'[1..] == Intersperse(tail, TAnd) + rest;
      ParsePrintedAndOperand(first, rest');
      ParsePrintedAndList(tail, rest);
      PrependTwice(Items(first, TAnd), Operands(tail, TAnd), MoreAndTerms(rest));
    }
  }

  lemma PrependTwice(xs: seq<Expr>, ys: seq<Expr>, r: Result<seq<Expr>>)
    ensures Prepend(xs, Prepend(ys, r)) == Prepend(xs + ys, r)
  {
    if r.Ok? { assert xs + (ys + r.value) == (xs + ys) + r.value; }
  }

  lemma {:induction false} ParseParenthesised(e: Expr, rest: seq<Token>)
    requires HasOperands(e)
    ensures ParseFactor([TOpenParen] + Print(e) + [TCloseParen] + rest) == Ok(Flatten(e), rest)
    decreases e, 5
  {
    var ts := [TOpenParen] + Print(e) + [TCloseParen] + rest;
    assert ts[1..] == Print(e) + ([TCloseParen] + rest);
    ParsePrintedExpr(e, [TCloseParen] + rest);
  }

  lemma {:induction false} ParsePrintedFactor(e: Expr, rest: seq<Token>)
    requires HasOperands(e) && !e.And? && !e.Or? && AfterFactor(rest)
    ensures ParseFactor(Print(e) + rest) == Ok(Flatten(e), rest)
    decreases e, 0
  {
    var ts := Print(e) + rest;
    match e
    case Leaf(a) => assert ts[1..] == rest;
    case Rel(equal, l, r) => assert ts[3..] == rest && ts[1..][0] == ts[1];
    case Not(f) =>
      if f.Leaf? {
        assert ts[1..] == Print(f) + rest;
        ParsePrintedFactor(f, rest);
      } else {
        assert ts[1..] == [TOpenParen] + Print(f) + [TCloseParen] + rest;
        ParseParenthesised(f, rest);
      }
  }

  /** Parsing the printed form of an expression gives the tree back, up to
      flattening, and uses every token. */
  lemma PrintThenParse(e: Expr)
    requires HasOperands(e)
    ensures ParseExpr(Print(e)) == Ok(Flatten(e), [])
  {
    ParsePrintedExpr(e, []);
    assert Print(e) + [] == Print(e);
  }

  /** Flattening never changes what the expression means. */
  lemma {:induction false} FlattenKeepsValue(env: Env, e: Expr)
    ensures Eval(env, Flatten(e)) == Eval(env, e)
    decreases e, 1
  {
    match e
    case And(es) =>
      OperandsKeepValue(env, es);
      WrapValue(env, Operands(es, TAnd));
    case Or(es) =>
      OperandsKeepValue(env, es);
      WrapValue(env, Operands(es, TOr));
    case Not(f) => FlattenKeepsValue(env, f);
    case _ =>
  }

  lemma WrapValue(env: Env, xs: seq<Expr>)
    ensures Eval(env, Wrap(TAnd, xs)) == EvalAll(env, xs)
    ensures Eval(env, Wrap(TOr, xs)) == EvalAny(env, xs)
  {
    if |xs| == 1 { assert xs[1..] == []; }
  }

  lemma {:induction false} OperandsKeepValue(env: Env, es: seq<Expr>)
    ensures EvalAll(env, Operands(es, TAnd)) == EvalAll(env, es)
    ensures EvalAny(env, Operands(es, TOr)) == EvalAny(env, es)
    decreases es
  {
    if es != [] {
      ItemsKeepValue(env, es[0]);
      OperandsKeepValue(env, es[1..]);
      EvalAllConcat(env, Items(es[0], TAnd), Operands(es[1..], TAnd));
      EvalAllConcat(env, Items(es[0], TOr), Operands(es[1..], TOr));
    }
  }

  lemma {:induction false} ItemsKeepValue(env: Env, e: Expr)
    ensures EvalAll(env, Items(e, TAnd)) == Eval(env, e)
    ensures EvalAny(env, Items(e, TOr)) == Eval(env, e)
    decreases e, 2
  {
    FlattenKeepsValue(env, e);
    assert [Flatten(e)][1..] == [];
    if e.And? || e.Or? { OperandsKeepValue(env, e.es); }
  }

  /** No parenthesis the printer drops changes the value: the text means, under
      every assignment, what the tree meant. */
  lemma PrintThenParseKeepsValue(env: Env, e: Expr)
    requires HasOperands(e)
    ensures ParseExpr(Print(e)).Ok?
    ensures Eval(env, ParseExpr(Print(e)).value) == Eval(env, e)
  {
    PrintThenParse(e);
    FlattenKeepsValue(env, e);
  }

  /** A tree that is already flat: every operator has at least two operands,
      none of them built with the same operator. */
  predicate Flat(e: Expr)
    decreases e, 0
  {
    match e
    case And(es) => |es| >= 2 && AllFlat(es, TAnd)
    case Or(es) => |es| >= 2 && AllFlat(es, TOr)
    case Not(f) => Flat(f)
    case _ => true
  }

  predicate AllFlat(es: seq<Expr>, op: Token)
    decreases es
  {
    es == [] ||
    (!(op == TAnd && es[0].And?) && !(op == TOr && es[0].Or?) && Flat(es[0]) && AllFlat(es[1..], op))
  }

  lemma {:induction false} FlatIsUnchanged(e: Expr)
    requires Flat(e)
    ensures Flatten(e) == e && HasOperands(e)
    decreases e, 0
  {
    match e
    case And(es) => AllFlatUnchanged(es, TAnd);
    case Or(es) => AllFlatUnchanged(es, TOr);
    case Not(f) => FlatIsUnchanged(f);
    case _ =>
  }

  lemma {:induction false} AllFlatUnchanged(es: seq<Expr>, op: Token)
    requires AllFlat(es, op)
    ensures Operands(es, op) == es && AllHaveOperands(es)
    decreases es
  {
    if es != [] {
      FlatIsUnchanged(es[0]);
      AllFlatUnchanged(es[1..], op);
    }
  }

  /** For flat trees the round trip is exact. */
  lemma FlatRoundTrip(e: Expr)
    requires Flat(e)
    ensures ParseExpr(Print(e)) == Ok(e, [])
  {
    FlatIsUnchanged(e);
    PrintThenParse(e);
  }
}
