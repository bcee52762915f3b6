/** What the loader's tokens are on the text, character by character. */
module JsonTokens {
  import opened Options
  import opened JsonNumber
  import opened JsonLexer
  import opened Json

  /** The character looked at and what follows it. */
  function Text(s: Stream): string { [s.cur] + s.rest }

  lemma TextNext(s: Stream)
    ensures s.rest != "" ==> Text(Next(s)) == s.rest
    ensures Next(s).cur != NUL ==> s.rest != ""
    ensures s.rest == "" ==> Text(Next(s)) == [NUL]
  {
  }

  // ---------- Words and numbers ----------

  lemma {:induction false} WordMeans(s: Stream, w: string)
    requires NUL !in w
    ensures Word(s, w).Some? <==> w <= Text(s)
    decreases |w|
  {
    if w != "" {
      TextNext(s);
      WordMeans(Next(s), w[1..]);
      assert w == [w[0]] + w[1..];
      if w[0] == s.cur && s.rest != "" { assert w <= Text(s) <==> w[1..] <= s.rest; }
    }
  }

  lemma WordAfter(c: char, s: Stream, w: string)
    requires NUL !in w
    ensures Word(Next(s), w).Some? && s.cur == c <==> [c] + w <= Text(s)
  {
    TextNext(s);
    WordMeans(Next(s), w);
    PrefixCons(c, w, s.cur, s.rest);
    if s.rest == "" && w != "" { assert w[0] != NUL; }
  }

  lemma PrefixCons(c: char, w: string, d: char, t: string)
    ensures [c] + w <= [d] + t <==> c == d && w <= t
  {
    assert ([c] + w)[1..] == w && ([d] + t)[1..] == t;
    if [c] + w <= [d] + t {
      assert ([c] + w)[0] == ([d] + t)[0];
      assert w == ([d] + t)[..|w| + 1][1..] == t[..|w|];
    }
  }

  const NUMBER_CHARS := "0123456789-.eE"

  /** n is a longest piece of number characters. */
  ghost predicate LongestNumber(t: string, n: string) {
    && n <= t && (forall i :: 0 <= i < |n| ==> n[i] in NUMBER_CHARS)
    && (|n| < |t| ==> t[|n|] !in NUMBER_CHARS)
  }

  lemma NumberCharIs(c: char)
    ensures IsNumberChar(c) <==> c in NUMBER_CHARS
  {
    var k := c as int - '0' as int;
    if 0 <= k < 10 { assert NUMBER_CHARS[k] == c; }
    assert NUMBER_CHARS[10] == '-' && NUMBER_CHARS[11] == '.' && NUMBER_CHARS[12] == 'e' && NUMBER_CHARS[13] == 'E';
  }

  lemma {:induction false} NumberRestMeans(s: Stream, flt: bool)
    ensures LongestNumber(Text(s), NumberRest(s, flt).0)
    decreases Left(s)
  {
    NumberCharIs(s.cur);
    if IsNumberChar(s.cur) {
      NumberRestMeans(Next(s), flt || IsFloatChar(s.cur));
      LongestCons(s, NumberRest(Next(s), flt || IsFloatChar(s.cur)).0);
    }
  }

  // ---------- Strings ----------

  /** What the loader takes between the quotes: any character but a quote, a backslash and NUL;
      a backslash and any character but u; a backslash, u and any four characters. */
  predicate AnyPart(p: Part) {
    match p
    case Plain(c) => c != '"' && c != '\\' && c != NUL
    case Short(c) => c != 'u'
    case Unicode(_, _, _, _) => true
  }

  lemma {:induction false} HexMoves(s: Stream, n: nat, num: nat)
    ensures n == 0 ==> Hex(s, n, num).1 == s
    ensures n > 0 ==> Hex(s, n, num).1 == Hex(Next(s), n - 1, 0).1
    decreases n
  {
    if n > 1 {
      HexMoves(Next(s), n - 1, BitOr(num * 16, HexNibble(Next(s).cur)));
      HexMoves(Next(s), n - 1, 0);
    }
  }

  lemma AfterHex(s: Stream)
    ensures Hex(s, 4, 0).1 == Next(Next(Next(Next(s))))
  {
    hide Hex;
    HexMoves(s, 4, 0);
    HexMoves(Next(s), 3, 0);
    HexMoves(Next(Next(s)), 2, 0);
    HexMoves(Next(Next(Next(s))), 1, 0);
    HexMoves(Next(Next(Next(Next(s)))), 0, 0);
  }

  lemma AnyPartReads(p: Part, t: string)
    requires AnyPart(p)
    ensures var s := Open(RenderPart(p) + t); s.cur != NUL && s.cur != '"' && StringStep(s).1 == Open(t)
  {
    hide Hex, Utf8;
    match p
    case Plain(c) => OpenCons(c, t);
    case Short(c) =>
      assert RenderPart(p) + t == ['\\'] + ([c] + t);
      OpenCons('\\', [c] + t);
      OpenCons(c, t);
    case Unicode(h3, h2, h1, h0) =>
      var t2 := [h1] + ([h0] + t);
      var t4 := [h3] + ([h2] + t2);
      assert RenderPart(p) + t == ['\\'] + (['u'] + t4);
      OpenCons('\\', ['u'] + t4);
      OpenCons('u', t4);
      OpenCons(h3, [h2] + t2);
      OpenCons(h2, t2);
      OpenCons(h1, [h0] + t);
      OpenCons(h0, t);
      AfterHex(Stream('u', t4));
  }

  ghost predicate AnyParts(ps: seq<Part>) { forall i :: 0 <= i < |ps| ==> AnyPart(ps[i]) }

  lemma {:induction false} AnyStringReads(ps: seq<Part>, t: string, bytes: string)
    requires AnyParts(ps)
    ensures var r := StringRest(Open(RenderParts(ps) + ("\"" + t)), bytes); r.Some? && r.value.1 == Open(t)
    decreases |ps|
  {
    hide StringStep, RenderPart, AnyPart;
    if ps == [] {
      assert RenderParts(ps) + ("\"" + t) == ['"'] + t;
      OpenCons('"', t);
    } else {
      var after := RenderParts(ps[1..]) + ("\"" + t);
      assert RenderParts(ps) + ("\"" + t) == RenderPart(ps[0]) + after;
      AnyPartReads(ps[0], after);
      AnyStringReads(ps[1..], t, bytes + StringStep(Open(RenderPart(ps[0]) + after)).0);
    }
  }

  /** The part a step has gone over, if it has not run off the end. */
  lemma StepPart(s: Stream) returns (p: Part)
    requires s.cur != NUL && s.cur != '"' && StringStep(s).1.cur != NUL
    ensures AnyPart(p) && Text(s) == RenderPart(p) + Text(StringStep(s).1)
  {
    hide Hex, Utf8;
    TextNext(s);
    var c := Next(s);
    TextNext(c);
    if s.cur != '\\' {
      p := Plain(s.cur);
    } else if c.cur != 'u' {
      p := Short(c.cur);
    } else {
      AfterHex(c);
      var c3 := Next(c);
      var c2 := Next(c3);
      var c1 := Next(c2);
      var c0 := Next(c1);
      TextNext(c3);
      TextNext(c2);
      TextNext(c1);
      TextNext(c0);
      p := Unicode(c3.cur, c2.cur, c1.cur, c0.cur);
    }
  }

  lemma {:induction false} StringParts(s: Stream, bytes: string) returns (ps: seq<Part>, t: string)
    requires StringRest(s, bytes).Some?
    ensures AnyParts(ps) && Text(s) == RenderParts(ps) + ("\"" + t)
    decreases Left(s)
  {
    hide StringStep, RenderPart, AnyPart;
    if s.cur == '"' {
      ps, t := [], s.rest;
    } else {
      var (more, s') := StringStep(s);
      var ps';
      ps', t := StringParts(s', bytes + more);
      var p := StepPart(s);
      ps := [p] + ps';
      assert ps[1..] == ps';
      assert RenderPart(p) + (RenderParts(ps') + ("\"" + t)) == RenderPart(p) + RenderParts(ps') + ("\"" + t);
    }
  }

  lemma EmptyIsNoString()
    ensures StringRest(Open(""), "").None?
  {
  }

  ghost predicate IsString(u: string, ps: seq<Part>, t: string) {
    AnyParts(ps) && u == RenderParts(ps) + ("\"" + t)
  }

  /** The text after an opening quote is a string exactly if such parts come before a quote. */
  lemma StringEnds(u: string)
    ensures StringRest(Open(u), "").Some? <==> exists ps, t: string :: IsString(u, ps, t)
  {
    hide AnyParts;
    if StringRest(Open(u), "").Some? {
      var ps, t := StringParts(Open(u), "");
      assert u != "" by { EmptyIsNoString(); }
      assert Text(Open(u)) == u;
      assert IsString(u, ps, t);
    }
    if ps, t: string :| IsString(u, ps, t) { AnyStringReads(ps, t, ""); }
  }

  // ---------- All tokens ----------

  /** The first character decides the kind of a token, and the words must be complete. */
  lemma TokenKinds(s: Stream)
    requires s.cur != NUL
    ensures Lex(s).0 == Skip <==> s.cur in {',', ':', ' ', '\t', '\n', '\r'}
    ensures Lex(s).0 == OpenList <==> s.cur == '['
    ensures Lex(s).0 == OpenDict <==> s.cur == '{'
    ensures Lex(s).0 == Close <==> s.cur == ']' || s.cur == '}'
    ensures Lex(s).0 == Primitive(PNull) <==> "null" <= Text(s)
    ensures Lex(s).0 == Primitive(PBool(true)) <==> "true" <= Text(s)
    ensures Lex(s).0 == Primitive(PBool(false)) <==> "false" <= Text(s)
  {
    hide Word, NumberRest, StringRest, Converts, NumberValue;
    NumbersOnly(s);
    WordAfter('n', s, "ull");
    WordAfter('t', s, "rue");
    WordAfter('f', s, "alse");
    assert ['n'] + "ull" == "null" && ['t'] + "rue" == "true" && ['f'] + "alse" == "false";
  }

  lemma NumbersOnly(s: Stream)
    ensures forall t: string :: NumberToken(t).Bad? || (NumberToken(t).Primitive? && IsNumberPrim(NumberToken(t).p))
  {
    hide Converts, IntegerValue;
  }

  predicate IsNumberPrim(p: Prim) { p.PInt? || p.PFloat? }

  /** A minus or a digit starts a number: the longest piece of number characters, if it converts. */
  lemma NumberTokens(s: Stream) returns (n: string)
    requires s.cur == '-' || '0' <= s.cur <= '9'
    ensures n != "" && LongestNumber(Text(s), n)
    ensures Lex(s).0 == if Converts(n) then Primitive(NumberValue(n)) else Bad
  {
    hide Word, NumberRest, StringRest, NumberToken, LongestNumber;
    var more := NumberRest(Next(s), false).0;
    NumberRestMeans(Next(s), false);
    n := [s.cur] + more;
    LongestCons(s, more);
    assert Lex(s).0 == NumberToken(n);
    NumberTokenIs(n);
  }

  lemma NumberTokenIs(n: string)
    ensures NumberToken(n) == if Converts(n) then Primitive(NumberValue(n)) else Bad
  {
  }

  lemma LongestCons(s: Stream, more: string)
    requires IsNumberChar(s.cur) && LongestNumber(Text(Next(s)), more)
    ensures LongestNumber(Text(s), [s.cur] + more)
  {
    TextNext(s);
    NumberCharIs(s.cur);
    NumberCharIs(NUL);
    PrefixCons(s.cur, more, s.cur, s.rest);
    assert more != "" ==> more[0] == Text(Next(s))[0];
  }

  /** A quote starts a string; nothing else starts a token. */
  lemma OtherTokens(s: Stream)
    requires s.cur != NUL
    ensures s.cur == '"' ==> (Lex(s).0 != Bad <==> exists ps, t: string :: IsString(s.rest, ps, t))
    ensures s.cur == '"' && Lex(s).0 != Bad ==> Lex(s).0.Primitive? && Lex(s).0.p.PString?
    ensures s.cur !in {',', ':', ' ', '\t', '\n', '\r', '[', ']', '{', '}', '"', 'n', 't', 'f', '-'} ==>
              '0' <= s.cur <= '9' || Lex(s).0 == Bad
  {
    hide Word, NumberRest, StringRest, Converts;
    StringEnds(s.rest);
    assert Open(s.rest) == Next(s);
  }

  /** After the value: white space up to the end of the text or a NUL. */
  lemma {:induction false} OnlySpaceIs(s: Stream)
    ensures EatSpace(s).cur == NUL <==> exists k :: SpacesTo(Text(s), k)
    decreases Left(s)
  {
    TextNext(s);
    if s.cur == NUL {
      assert SpacesTo(Text(s), 0);
    } else if IsSpace(s.cur) {
      OnlySpaceIs(Next(s));
      if k :| SpacesTo(Text(Next(s)), k) {
        if s.rest == "" { assert SpacesTo(Text(s), 1); } else { assert SpacesTo(Text(s), k + 1); }
      }
      if k :| SpacesTo(Text(s), k) {
        if s.rest == "" {
          assert SpacesTo(Text(Next(s)), 0);
        } else {
          assert Text(s)[1..] == s.rest && k > 0;
          assert forall i :: 0 <= i < k - 1 ==> s.rest[i] == Text(s)[i + 1];
          assert SpacesTo(Text(Next(s)), k - 1);
        }
      }
    } else {
      forall k ensures !SpacesTo(Text(s), k) { NoSpaceThere(Text(s), k); }
    }
  }

  ghost predicate SpacesTo(t: string, k: int) {
    && 0 <= k <= |t| && (k < |t| ==> t[k] == NUL)
    && forall i :: 0 <= i < k ==> t[i] as int in {9, 10, 11, 12, 13, 32}
  }

  lemma NoSpaceThere(t: string, k: int)
    requires t != "" && t[0] != NUL && !IsSpace(t[0])
    ensures !SpacesTo(t, k)
  {
  }

  // ---------- Numbers of the standard ----------

  /** Every number of RFC 4627 that is written without a plus sign is a scalar of the grammar. */
  lemma RfcNumberIsScalar(n: Number)
    requires IsRfcNumber(n) && (n.exponent.Some? ==> n.exponent.value.sign != "+")
    ensures var t := RenderNumber(n); t != "" && ValidScalar(SNumber(t[0], t[1..]))
  {
    hide Converts;
    RfcNumberConverts(n);
    var t := RenderNumber(n);
    assert [t[0]] + t[1..] == t;
    forall i | 0 <= i < |t| ensures IsNumberChar(t[i]) { PiecesAreNumberChars(n, i); }
  }

  lemma PiecesAreNumberChars(n: Number, i: nat)
    requires ValidNumber(n) && n.sign != "+" && (n.exponent.Some? ==> n.exponent.value.sign != "+")
    requires i < |RenderNumber(n)|
    ensures IsNumberChar(RenderNumber(n)[i])
  {
    var p := RenderPower(n.exponent);
    forall j | 0 <= j < |p| ensures IsNumberChar(p[j]) {
      var x := n.exponent.value;
      if j > |x.sign| { assert p[j] == x.digits[j - 1 - |x.sign|]; }
    }
    var tail := RenderTail(n);
    forall j | 0 <= j < |tail| ensures IsNumberChar(tail[j]) {
      if n.fraction.Some? {
        var f := n.fraction.value;
        if j > |f| { assert tail[j] == p[j - 1 - |f|]; }
      }
    }
    var a, b := |n.sign|, |n.sign| + |n.whole|;
    assert RenderNumber(n)[i] == if i < a then n.sign[i] else if i < b then n.whole[i - a] else tail[i - b];
  }
}
