/** The JSON loader's stream and its reading of primitives (section 2 of RFC 4627).
    A char stands for one byte. */
module JsonLexer {
  import opened Options
  import opened Arithmetic
  import opened JsonNumber

  const NUL := '\0'

  /** cur is the character looked at; NUL marks the end. */
  datatype Stream = Stream(cur: char, rest: string)

  function Next(s: Stream): Stream { if s.rest == "" then Stream(NUL, "") else Stream(s.rest[0], s.rest[1..]) }

  function Open(text: string): Stream { Next(Stream(NUL, text)) }

  function Left(s: Stream): nat { |s.rest| + (if s.cur != NUL then 1 else 0) }

  lemma NextShrinks(s: Stream)
    ensures Left(Next(s)) <= Left(s)
    ensures s.cur != NUL ==> Left(Next(s)) < Left(s)
  {
  }

  /** A float stays its text. */
  datatype Prim = PNull | PBool(b: bool) | PInt(n: int) | PFloat(text: string) | PString(bytes: string)

  datatype Token = Skip | Primitive(p: Prim) | OpenList | OpenDict | Close | Bad

  predicate IsSkip(c: char) { c in {',', ':', ' ', '\t', '\n', '\r'} }

  predicate IsNumberChar(c: char) { IsDigit(c) || c in {'-', '.', 'e', 'E'} }

  // ---------- Words ----------

  /** Matches w at the stream and moves past it. */
  function Word(s: Stream, w: string): Option<Stream>
    decreases |w|
  {
    if w == "" then Some(s) else if s.cur == w[0] then Word(Next(s), w[1..]) else None
  }

  // ---------- Numbers ----------

  function NumberRest(s: Stream, flt: bool): (r: (string, bool, Stream))
    ensures Left(r.2) <= Left(s)
    decreases Left(s)
  {
    if !IsNumberChar(s.cur) then ("", flt, s)
    else
      var (text, f, s') := NumberRest(Next(s), flt || IsFloatChar(s.cur));
      ([s.cur] + text, f, s')
  }

  lemma NumberRestNext(s: Stream, flt: bool)
    ensures NumberRest(s, flt) ==
            if !IsNumberChar(s.cur) then ("", flt, s)
            else
              var (text, f, s') := NumberRest(Next(s), flt || IsFloatChar(s.cur));
              ([s.cur] + text, f, s')
  {
  }

  /** The number a text converts to. */
  function NumberValue(text: string): Prim
    requires Converts(text)
  {
    if HasFloatChar(text) then PFloat(text) else PInt(IntegerValue(text))
  }

  /** A text that does not convert is an error like any other. */
  function NumberToken(text: string): Token { if Converts(text) then Primitive(NumberValue(text)) else Bad }

  // ---------- Strings ----------

  /** Bitwise or. */
  function BitOr(x: nat, y: nat): nat
    decreases x + y
  {
    if x == 0 && y == 0 then 0 else (if x % 2 == 1 || y % 2 == 1 then 1 else 0) + 2 * BitOr(x / 2, y / 2)
  }

  /** The byte (c | 0x20) - '0', brought from letters to 10 and up; any character is taken. */
  function HexNibble(c: char): nat {
    var b := (BitOr(c as int % 256, 0x20) - '0' as int) % 256;
    if b > 9 then (b - 39) % 256 else b
  }

  /** The number after n more characters, each taken as a hexadecimal digit. */
  function Hex(s: Stream, n: nat, num: nat): (nat, Stream)
    decreases n
  {
    if n == 0 then (num, s) else Hex(Next(s), n - 1, BitOr(num * 16, HexNibble(Next(s).cur)))
  }

  lemma {:induction false} HexShrinks(s: Stream, n: nat, num: nat)
    ensures Left(Hex(s, n, num).1) <= Left(s)
    decreases n
  {
    if n > 0 { HexShrinks(Next(s), n - 1, BitOr(num * 16, HexNibble(Next(s).cur))); }
  }

  function Low6(c: nat): char { (0x80 + c % 64) as char }

  /** The bytes a code point is stored as. */
  function Utf8(c: nat): string {
    if c < 0x80 then [c as char]
    else if c < 0x800 then [(0xC0 + c / 0x40) as char, Low6(c)]
    else if c < 0x10000 then [(0xE0 + c / 0x1000) as char, Low6(c / 0x40), Low6(c)]
    else [(0xF0 + c / 0x40000 % 8) as char, Low6(c / 0x1000), Low6(c / 0x40), Low6(c)]
  }

  /** A byte after the first of a character in UTF-8, and its six bits. */
  predicate Continues(b: char) { 0x80 <= b as int < 0xC0 }

  function Six(b: char): nat
    requires Continues(b)
  {
    b as int - 0x80
  }

  /** The code point that bs is the UTF-8 form of (section 3 of RFC 3629); the form must be the
      shortest. */
  function DecodeUtf8(bs: string): Option<nat> {
    if bs == "" || exists i :: 1 <= i < |bs| && !Continues(bs[i]) then None
    else
      var b0 := bs[0] as int;
      if |bs| == 1 && b0 < 0x80 then Some(b0)
      else if |bs| == 2 && 0xC0 <= b0 < 0xE0 then AtLeast((b0 - 0xC0) * 0x40 + Six(bs[1]), 0x80)
      else if |bs| == 3 && 0xE0 <= b0 < 0xF0 then
        AtLeast((b0 - 0xE0) * 0x1000 + Six(bs[1]) * 0x40 + Six(bs[2]), 0x800)
      else if |bs| == 4 && 0xF0 <= b0 < 0xF8 then
        AtLeast((b0 - 0xF0) * 0x40000 + Six(bs[1]) * 0x1000 + Six(bs[2]) * 0x40 + Six(bs[3]), 0x10000)
      else None
  }

  function AtLeast(c: nat, least: nat): Option<nat> { if c >= least then Some(c) else None }

  function Escaped(c: char): char {
    match c
    case 'b' => 8 as char
    case 'f' => 12 as char
    case 'n' => '\n'
    case 'r' => '\r'
    case 't' => '\t'
    case _ => c
  }

  /** One character of a string or one escape: the bytes it adds and the stream after it. */
  function StringStep(s: Stream): (r: (string, Stream))
    requires s.cur != NUL
    ensures Left(r.1) < Left(s)
  {
    if s.cur != '\\' then ([s.cur], Next(s))
    else
      var c := Next(s);
      if c.cur == 'u' then
        var (num, s') := Hex(c, 4, 0);
        HexShrinks(c, 4, 0);
        (Utf8(num), Next(s'))
      else ([Escaped(c.cur)], Next(c))
  }

  /** The rest of a string after its opening quote; None is the end of the input. */
  function StringRest(s: Stream, bytes: string): (r: Option<(string, Stream)>)
    ensures r.Some? ==> Left(r.value.1) < Left(s)
    decreases Left(s)
  {
    if s.cur == NUL then None
    else if s.cur == '"' then Some((bytes, Next(s)))
    else var (more, s') := StringStep(s); StringRest(s', bytes + more)
  }

  // ---------- One token ----------

  function WordToken(s: Stream, w: string, p: Prim): (Token, Stream) {
    var r := Word(s, w);
    if r.Some? then (Primitive(p), r.value) else (Bad, s)
  }

  function Lex(s: Stream): (Token, Stream) {
    var cur, s1 := s.cur, Next(s);
    if IsSkip(cur) then (Skip, s1)
    else if cur == 'n' then WordToken(s1, "ull", PNull)
    else if cur == 'f' then WordToken(s1, "alse", PBool(false))
    else if cur == 't' then WordToken(s1, "rue", PBool(true))
    else if cur == '"' then
      var r := StringRest(s1, "");
      if r.Some? then (Primitive(PString(r.value.0)), r.value.1) else (Bad, s1)
    else if cur == '-' || IsDigit(cur) then
      var (text, _, s') := NumberRest(s1, false);
      (NumberToken([cur] + text), s')
    else if cur == '[' then (OpenList, s1)
    else if cur == '{' then (OpenDict, s1)
    else if cur == '}' || cur == ']' then (Close, s1)
    else (Bad, s1)
  }

  lemma {:induction false} WordShrinks(s: Stream, w: string)
    ensures Word(s, w).Some? ==> Left(Word(s, w).value) <= Left(s)
    decreases |w|
  {
    if w != "" && s.cur == w[0] { WordShrinks(Next(s), w[1..]); }
  }

  lemma LexShrinks(s: Stream)
    requires s.cur != NUL
    ensures Left(Lex(s).1) < Left(s)
  {
    var s1 := Next(s);
    WordShrinks(s1, "ull");
    WordShrinks(s1, "alse");
    WordShrinks(s1, "rue");
  }

  // ---------- What primitives are written like ----------

  /** A piece of a string: a plain character, a two-character escape, or a four-digit escape. */
  datatype Part = Plain(c: char) | Short(c: char) | Unicode(h3: char, h2: char, h1: char, h0: char)

  datatype Scalar = SNull | SBool(b: bool) | SNumber(first: char, more: string) | SString(parts: seq<Part>)

  predicate IsHex(c: char) { IsDigit(c) || 'a' <= c <= 'f' || 'A' <= c <= 'F' }

  function HexValue(c: char): nat
    requires IsHex(c)
  {
    if IsDigit(c) then c as int - '0' as int
    else if 'a' <= c then c as int - 'a' as int + 10
    else c as int - 'A' as int + 10
  }

  /** The table of section 2.5 of RFC 4627. */
  const SHORT_ESCAPES := map[
    '"' := 0x22, '\\' := 0x5C, '/' := 0x2F, 'b' := 0x08, 'f' := 0x0C, 'n' := 0x0A, 'r' := 0x0D, 't' := 0x09]

  predicate ValidPart(p: Part) {
    match p
    case Plain(c) => ' ' <= c && c != '"' && c != '\\'
    case Short(c) => c in SHORT_ESCAPES
    case Unicode(h3, h2, h1, h0) => IsHex(h3) && IsHex(h2) && IsHex(h1) && IsHex(h0)
  }

  function RenderPart(p: Part): string {
    match p
    case Plain(c) => [c]
    case Short(c) => ['\\', c]
    case Unicode(h3, h2, h1, h0) => ['\\', 'u', h3, h2, h1, h0]
  }

  function PartBytes(p: Part): string
    requires ValidPart(p)
  {
    match p
    case Plain(c) => [c]
    case Short(c) => [SHORT_ESCAPES[c] as char]
    case Unicode(h3, h2, h1, h0) => Utf8(((HexValue(h3) * 16 + HexValue(h2)) * 16 + HexValue(h1)) * 16 + HexValue(h0))
  }

  function RenderParts(ps: seq<Part>): string {
    if ps == [] then "" else RenderPart(ps[0]) + RenderParts(ps[1..])
  }

  ghost predicate ValidParts(ps: seq<Part>) { forall i :: 0 <= i < |ps| ==> ValidPart(ps[i]) }

  function PartsBytes(ps: seq<Part>): string
    requires forall i :: 0 <= i < |ps| ==> ValidPart(ps[i])
  {
    if ps == [] then "" else PartBytes(ps[0]) + PartsBytes(ps[1..])
  }

  predicate AllNumberChars(t: string) { forall i :: 0 <= i < |t| ==> IsNumberChar(t[i]) }

  predicate ValidScalar(v: Scalar) {
    match v
    case SNumber(first, more) => (first == '-' || IsDigit(first)) && AllNumberChars(more) && Converts([first] + more)
    case SString(parts) => forall i :: 0 <= i < |parts| ==> ValidPart(parts[i])
    case _ => true
  }

  function RenderScalar(v: Scalar): string {
    match v
    case SNull => "null"
    case SBool(b) => if b then "true" else "false"
    case SNumber(first, more) => [first] + more
    case SString(parts) => "\"" + RenderParts(parts) + "\""
  }

  function ScalarValue(v: Scalar): Prim
    requires ValidScalar(v)
  {
    match v
    case SNull => PNull
    case SBool(b) => PBool(b)
    case SNumber(first, more) => NumberValue([first] + more)
    case SString(parts) => PString(PartsBytes(parts))
  }

  // ---------- Reading what was written ----------

  lemma OpenCons(c: char, t: string)
    ensures Open([c] + t) == Stream(c, t) && Next(Stream(c, t)) == Open(t)
  {
    assert ([c] + t)[1..] == t;
  }

  lemma {:induction false} WordReads(w: string, t: string)
    ensures Word(Open(w + t), w) == Some(Open(t))
    decreases |w|
  {
    if w == "" {
      assert w + t == t;
    } else {
      assert w + t == [w[0]] + (w[1..] + t);
      OpenCons(w[0], w[1..] + t);
      WordReads(w[1..], t);
    }
  }

  /** A number ends where no number character follows. */
  predicate EndsNumber(t: string) { t == "" || !IsNumberChar(t[0]) }

  lemma {:induction false} NumberReads(more: string, t: string, flt: bool)
    requires AllNumberChars(more) && EndsNumber(t)
    ensures NumberRest(Open(more + t), flt) == (more, flt || HasFloatChar(more), Open(t))
    decreases |more|
  {
    if more == "" {
      assert more + t == t;
    } else {
      assert more + t == [more[0]] + (more[1..] + t);
      OpenCons(more[0], more[1..] + t);
      NumberReads(more[1..], t, flt || IsFloatChar(more[0]));
      FloatTail(more);
      assert more == [more[0]] + more[1..];
    }
  }

  /** The flag kept while scanning says whether the text has a float character. */
  lemma {:induction false} NumberFlag(s: Stream, flt: bool)
    ensures NumberRest(s, flt).1 == (flt || HasFloatChar(NumberRest(s, flt).0))
    decreases Left(s)
  {
    if IsNumberChar(s.cur) {
      NumberFlag(Next(s), flt || IsFloatChar(s.cur));
      FloatTail(NumberRest(s, flt).0);
    }
  }

  lemma {:induction false} BitOrAdds(x: nat, y: nat, k: nat, p: nat)
    requires p == Pow2(k) && y < p
    ensures BitOr(x * p, y) == x * p + y
    decreases k
  {
    if k == 0 {
      BitOrZero(x);
    } else {
      var h := Pow2(k - 1);
      assert x * p == 2 * (x * h);
      BitOrAdds(x, y / 2, k - 1, h);
      BitOrParts(x * p, y);
    }
  }

  lemma BitOrParts(x: nat, y: nat)
    ensures BitOr(x, y) == (if x % 2 == 1 || y % 2 == 1 then 1 else 0) + 2 * BitOr(x / 2, y / 2)
  {
  }

  lemma {:induction false} BitOrZero(x: nat)
    ensures BitOr(x, 0) == x
  {
    if x != 0 { BitOrZero(x / 2); }
  }

  /** What is stored for a code point is its UTF-8 form, and nothing else is. */
  lemma Utf8Exactly(c: nat, bs: string)
    requires c < 0x200000
    ensures bs == Utf8(c) <==> DecodeUtf8(bs) == Some(c)
  {
    hide Utf8, DecodeUtf8;
    if c < 0x80 {
      OneByte(c);
    } else if c < 0x800 {
      TwoBytes(c);
    } else if c < 0x10000 {
      ThreeBytes(c);
    } else {
      FourBytes(c);
    }
    if DecodeUtf8(bs) == Some(c) { OnlyUtf8(c, bs); }
  }

  lemma OneByte(c: nat)
    requires c < 0x80
    ensures DecodeUtf8(Utf8(c)) == Some(c)
  {
  }

  lemma TwoBytes(c: nat)
    requires 0x80 <= c < 0x800
    ensures DecodeUtf8(Utf8(c)) == Some(c)
  {
    var bs := Utf8(c);
    assert bs == [(0xC0 + c / 0x40) as char, Low6(c)];
  }

  lemma ThreeBytes(c: nat)
    requires 0x800 <= c < 0x10000
    ensures DecodeUtf8(Utf8(c)) == Some(c)
  {
    var bs := Utf8(c);
    assert bs == [(0xE0 + c / 0x1000) as char, Low6(c / 0x40), Low6(c)];
    assert c / 0x40 / 0x40 == c / 0x1000;
  }

  lemma FourBytes(c: nat)
    requires 0x10000 <= c < 0x200000
    ensures DecodeUtf8(Utf8(c)) == Some(c)
  {
    var bs := Utf8(c);
    assert bs == [(0xF0 + c / 0x40000) as char, Low6(c / 0x1000), Low6(c / 0x40), Low6(c)];
    assert c / 0x40 / 0x40 == c / 0x1000 && c / 0x1000 / 0x40 == c / 0x40000;
  }

  /** Only one text decodes to a code point. */
  lemma OnlyUtf8(c: nat, bs: string)
    requires DecodeUtf8(bs) == Some(c)
    ensures bs == Utf8(c)
  {
    match |bs|
    case 1 => assert bs == [c as char];
    case 2 => OnlyTwo(c, bs);
    case 3 => OnlyThree(c, bs);
    case _ => OnlyFour(c, bs);
  }

  lemma Groups(c: nat, a: nat, b: nat)
    requires c == a * 0x40 + b && b < 0x40
    ensures c / 0x40 == a && c % 0x40 == b
  {
  }

  lemma OnlyTwo(c: nat, bs: string)
    requires DecodeUtf8(bs) == Some(c) && |bs| == 2
    ensures bs == Utf8(c)
  {
    Groups(c, bs[0] as int - 0xC0, Six(bs[1]));
    assert bs == [bs[0], bs[1]];
  }

  lemma OnlyThree(c: nat, bs: string)
    requires DecodeUtf8(bs) == Some(c) && |bs| == 3
    ensures bs == Utf8(c)
  {
    var high := (bs[0] as int - 0xE0) * 0x40 + Six(bs[1]);
    Groups(c, high, Six(bs[2]));
    Groups(high, bs[0] as int - 0xE0, Six(bs[1]));
    assert c / 0x1000 == high / 0x40;
    assert bs == [bs[0], bs[1], bs[2]];
  }

  lemma OnlyFour(c: nat, bs: string)
    requires DecodeUtf8(bs) == Some(c) && |bs| == 4
    ensures bs == Utf8(c)
  {
    var high := (bs[0] as int - 0xF0) * 0x40 + Six(bs[1]);
    var mid := high * 0x40 + Six(bs[2]);
    Groups(c, mid, Six(bs[3]));
    Groups(mid, high, Six(bs[2]));
    Groups(high, bs[0] as int - 0xF0, Six(bs[1]));
    assert c / 0x1000 == mid / 0x40 && c / 0x40000 == high / 0x40;
    assert bs == [bs[0], bs[1], bs[2], bs[3]];
  }

  /** The arithmetic on the character gives its value when it is a hexadecimal digit. */
  lemma HexNibbleIs(c: char)
    requires IsHex(c)
    ensures HexNibble(c) == HexValue(c) < 16
  {
    hide BitOr;
    var x := c as int;
    OrBit5(x % 32, x / 32 % 2, x / 64);
    assert BitOr(x, 0x20) == if x % 64 < 32 then x + 32 else x;
    NibbleOf(x);
  }

  /** The letters of both cases, and the digits, become 0 to 15. */
  lemma NibbleOf(x: nat)
    requires 48 <= x <= 57 || 97 <= x <= 102 || 65 <= x <= 70
    ensures x % 256 == x
    ensures var b := ((if x % 64 < 32 then x + 32 else x) - 48) % 256;
            (if b > 9 then (b - 39) % 256 else b) == if x <= 57 then x - 48 else if x >= 97 then x - 87 else x - 55
  {
    if 65 <= x <= 70 { assert x % 64 == x - 64; }
    if 97 <= x { assert x % 64 == x - 64; }
  }

  /** Setting bit 5. */
  lemma OrBit5(low: nat, bit: nat, rest: nat)
    requires low < 32 && bit < 2
    ensures BitOr(low + 32 * bit + 64 * rest, 0x20) == low + 32 + 64 * rest
  {
    hide BitOr;
    OrAbove(low + 32 * bit + 64 * rest, 16);
    OrAbove((low + 32 * bit + 64 * rest) / 2, 8);
    OrAbove(low / 4 + 8 * bit + 16 * rest, 4);
    OrAbove(low / 8 + 4 * bit + 8 * rest, 2);
    OrAbove(low / 16 + 2 * bit + 4 * rest, 1);
    BitOrParts(bit + 2 * rest, 1);
    BitOrZero(rest);
    assert BitOr(bit + 2 * rest, 1) == 1 + 2 * rest;
    assert BitOr(low / 16 + 2 * bit + 4 * rest, 2) == low / 16 + 2 + 4 * rest;
    assert BitOr(low / 8 + 4 * bit + 8 * rest, 4) == low / 8 + 4 + 8 * rest;
    assert BitOr(low / 4 + 8 * bit + 16 * rest, 8) == low / 4 + 8 + 16 * rest;
    assert (low + 32 * bit + 64 * rest) / 2 / 2 == low / 4 + 8 * bit + 16 * rest;
  }

  /** Or with an even number leaves the last bit alone. */
  lemma OrAbove(x: nat, y: nat)
    ensures BitOr(x, 2 * y) == x % 2 + 2 * BitOr(x / 2, y)
  {
    BitOrParts(x, 2 * y);
  }

  lemma HexStep(h: char, t: string, s: Stream, n: nat, num: nat)
    requires IsHex(h) && Next(s) == Stream(h, t) && n > 0
    ensures Hex(s, n, num) == Hex(Stream(h, t), n - 1, num * 16 + HexValue(h))
  {
    HexNibbleIs(h);
    assert Pow2(4) == 16;
    BitOrAdds(num, HexNibble(h), 4, 16);
  }

  lemma PartReads(p: Part, t: string)
    requires ValidPart(p)
    ensures var s := Open(RenderPart(p) + t); s.cur != NUL && s.cur != '"' && StringStep(s) == (PartBytes(p), Open(t))
  {
    match p
    case Plain(c) => OpenCons(c, t);
    case Short(c) =>
      assert RenderPart(p) + t == ['\\'] + ([c] + t);
      OpenCons('\\', [c] + t);
      OpenCons(c, t);
    case Unicode(h3, h2, h1, h0) => UnicodeReads(h3, h2, h1, h0, t);
  }

  lemma UnicodeReads(h3: char, h2: char, h1: char, h0: char, t: string)
    requires IsHex(h3) && IsHex(h2) && IsHex(h1) && IsHex(h0)
    ensures var p := Unicode(h3, h2, h1, h0);
            var s := Open(RenderPart(p) + t);
            s.cur == '\\' && StringStep(s) == (PartBytes(p), Open(t))
  {
    hide Hex, Utf8, HexValue;
    var t4 := [h3] + ([h2] + ([h1] + ([h0] + t)));
    assert RenderPart(Unicode(h3, h2, h1, h0)) + t == ['\\'] + (['u'] + t4);
    OpenCons('\\', ['u'] + t4);
    OpenCons('u', t4);
    HexReads(h3, h2, h1, h0, t);
    OpenCons(h0, t);
  }

  lemma HexReads(h3: char, h2: char, h1: char, h0: char, t: string)
    requires IsHex(h3) && IsHex(h2) && IsHex(h1) && IsHex(h0)
    ensures Hex(Stream('u', [h3] + ([h2] + ([h1] + ([h0] + t)))), 4, 0) ==
            (((HexValue(h3) * 16 + HexValue(h2)) * 16 + HexValue(h1)) * 16 + HexValue(h0), Stream(h0, t))
  {
    hide Hex, HexValue;
    var t1, t2 := [h0] + t, [h1] + ([h0] + t);
    var t3 := [h2] + t2;
    OpenCons(h3, t3);
    OpenCons(h2, t2);
    OpenCons(h1, t1);
    OpenCons(h0, t);
    var n1, n2 := HexValue(h3), HexValue(h3) * 16 + HexValue(h2);
    HexStep(h3, t3, Stream('u', [h3] + t3), 4, 0);
    HexStep(h2, t2, Stream(h3, t3), 3, n1);
    HexStep(h1, t1, Stream(h2, t2), 2, n2);
    HexStep(h0, t, Stream(h1, t1), 1, n2 * 16 + HexValue(h1));
    HexDone(Stream(h0, t), (n2 * 16 + HexValue(h1)) * 16 + HexValue(h0));
  }

  lemma HexDone(s: Stream, num: nat)
    ensures Hex(s, 0, num) == (num, s)
  {
  }

  lemma {:induction false} StringReads(ps: seq<Part>, t: string, bytes: string)
    requires ValidParts(ps)
    ensures StringRest(Open(RenderParts(ps) + ("\"" + t)), bytes) == Some((bytes + PartsBytes(ps), Open(t)))
    decreases |ps|
  {
    hide StringStep, PartBytes, RenderPart;
    if ps == [] {
      assert RenderParts(ps) + ("\"" + t) == ['"'] + t;
      OpenCons('"', t);
      assert bytes + PartsBytes(ps) == bytes;
    } else {
      var after := RenderParts(ps[1..]) + ("\"" + t);
      assert RenderParts(ps) + ("\"" + t) == RenderPart(ps[0]) + after;
      PartReads(ps[0], after);
      StringReads(ps[1..], t, bytes + PartBytes(ps[0]));
      assert bytes + (PartBytes(ps[0]) + PartsBytes(ps[1..])) == (bytes + PartBytes(ps[0])) + PartsBytes(ps[1..]);
    }
  }

  lemma WordScalar(c: char, w: string, t: string, p: Prim)
    requires (c, w, p) in {('n', "ull", PNull), ('t', "rue", PBool(true)), ('f', "alse", PBool(false))}
    ensures var s := Open(([c] + w) + t); s.cur == c && Lex(s) == (Primitive(p), Open(t))
  {
    hide Word, StringRest, NumberRest;
    assert ([c] + w) + t == [c] + (w + t);
    OpenCons(c, w + t);
    WordReads(w, t);
  }

  /** A primitive is read back as its value, whatever follows; a number must end there. */
  lemma ScalarReads(v: Scalar, t: string)
    requires ValidScalar(v) && (v.SNumber? ==> EndsNumber(t))
    ensures var s := Open(RenderScalar(v) + t); s.cur != NUL && Lex(s) == (Primitive(ScalarValue(v)), Open(t))
  {
    hide Word, StringRest, NumberRest, PartsBytes, RenderParts, Converts, NumberValue;
    match v
    case SNull =>
      assert ['n'] + "ull" == "null";
      WordScalar('n', "ull", t, PNull);
    case SBool(b) =>
      assert ['t'] + "rue" == "true" && ['f'] + "alse" == "false";
      if b { WordScalar('t', "rue", t, PBool(true)); } else { WordScalar('f', "alse", t, PBool(false)); }
    case SNumber(first, more) =>
      assert RenderScalar(v) + t == [first] + (more + t);
      OpenCons(first, more + t);
      NumberReads(more, t, false);
    case SString(parts) =>
      assert RenderScalar(v) + t == ['"'] + (RenderParts(parts) + ("\"" + t));
      OpenCons('"', RenderParts(parts) + ("\"" + t));
      StringReads(parts, t, "");
      assert "" + PartsBytes(parts) == PartsBytes(parts);
  }
}
