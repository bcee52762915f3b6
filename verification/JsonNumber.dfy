/** The conversion of a number's text, which contains no white space, by the runtime's number
    parser: which texts it takes, and the value of an integer. */
module JsonNumber {
  import opened Options

  predicate IsDigit(c: char) { '0' <= c <= '9' }

  predicate IsSign(c: char) { c == '+' || c == '-' }

  predicate IsExponentChar(c: char) { c == 'e' || c == 'E' }

  predicate IsFloatChar(c: char) { c == '.' || IsExponentChar(c) }

  predicate AllDigits(t: string) { forall i :: 0 <= i < |t| ==> IsDigit(t[i]) }

  predicate HasFloatChar(t: string) { exists i :: 0 <= i < |t| && IsFloatChar(t[i]) }

  function DigitValue(c: char): nat
    requires IsDigit(c)
  {
    c as int - '0' as int
  }

  /** What the digits of t are worth in base ten. */
  function DigitsValue(t: string): nat
    requires AllDigits(t)
  {
    if t == "" then 0 else 10 * DigitsValue(t[..|t| - 1]) + DigitValue(t[|t| - 1])
  }

  function Unsigned(t: string): string { if t != "" && IsSign(t[0]) then t[1..] else t }

  predicate IsInteger(t: string) { Unsigned(t) != "" && AllDigits(Unsigned(t)) }

  function IntegerValue(t: string): int
    requires IsInteger(t)
  {
    var value: int := DigitsValue(Unsigned(t));
    if t[0] == '-' then -value else value
  }

  /** Where the decimal parser is in a number. */
  datatype Phase = Whole | Fraction | Exponent

  /** Whether it gets to the end of t. */
  predicate DecimalRest(t: string, phase: Phase)
    decreases |t|
  {
    if t == "" then true
    else if IsDigit(t[0]) then DecimalRest(t[1..], phase)
    else if phase == Whole && t[0] == '.' then DecimalRest(t[1..], Fraction)
    else if phase != Exponent && IsExponentChar(t[0]) then
      Unsigned(t[1..]) != "" && DecimalRest(Unsigned(t[1..]), Exponent)
    else false
  }

  predicate IsDecimal(t: string) { Unsigned(t) != "" && DecimalRest(Unsigned(t), Whole) }

  /** A text goes to the decimal parser if it has a point or an exponent, else to the integer parser. */
  predicate Converts(t: string) { if HasFloatChar(t) then IsDecimal(t) else IsInteger(t) }

  // ---------- The parsers ----------

  const SMALL_INT_MAX := 0x3fff_ffff

  lemma DigitsValueNext(t: string, i: nat)
    requires i < |t| && AllDigits(t[..i + 1])
    ensures AllDigits(t[..i]) && DigitsValue(t[..i + 1]) == 10 * DigitsValue(t[..i]) + DigitValue(t[i])
  {
    assert t[..i + 1][..i] == t[..i];
  }

  /** The first character that is no digit, and the value of the digits before it. */
  method ParseLong(t: string) returns (n: nat, end: nat)
    ensures end <= |t| && AllDigits(t[..end]) && n == DigitsValue(t[..end])
    ensures end < |t| ==> !IsDigit(t[end])
  {
    n, end := 0, 0;
    while end < |t| && IsDigit(t[end])
      invariant end <= |t| && AllDigits(t[..end]) && n == DigitsValue(t[..end])
    {
      DigitsValueNext(t, end);
      n := 10 * n + DigitValue(t[end]);
      end := end + 1;
    }
  }

  /** The digits as a small integer while it fits, and over again as a long one when it does not. */
  method ParseDigits(t: string) returns (n: nat, end: nat)
    ensures end <= |t| && AllDigits(t[..end]) && n == DigitsValue(t[..end])
    ensures end < |t| ==> !IsDigit(t[end])
  {
    n, end := 0, 0;
    while end < |t| && IsDigit(t[end])
      invariant end <= |t| && AllDigits(t[..end]) && n == DigitsValue(t[..end]) <= SMALL_INT_MAX
    {
      DigitsValueNext(t, end);
      if n > SMALL_INT_MAX / 10 || n * 10 + DigitValue(t[end]) > SMALL_INT_MAX {
        n, end := ParseLong(t);
        return;
      }
      n := n * 10 + DigitValue(t[end]);
      end := end + 1;
    }
  }

  /** None is the ValueError. */
  method ParseInteger(text: string) returns (r: Option<int>)
    ensures r == if IsInteger(text) then Some(IntegerValue(text)) else None
  {
    var negative := text != "" && text[0] == '-';
    var t := Unsigned(text);
    var n, end := ParseDigits(t);
    if end == 0 || end != |t| {
      assert end < |t| ==> !AllDigits(t);
      return None;
    }
    assert t[..end] == t;
    var value: int := n;
    return Some(if negative then -value else value);
  }

  method ParseDecimal(text: string) returns (ok: bool)
    ensures ok == IsDecimal(text)
  {
    var start := if text != "" && IsSign(text[0]) then 1 else 0;
    var i, phase := start, Whole;
    while i < |text|
      invariant start <= i <= |text|
      invariant DecimalRest(text[i..], phase) == DecimalRest(Unsigned(text), Whole)
    {
      var c := text[i];
      assert text[i..][0] == c && text[i..][1..] == text[i + 1..];
      if IsDigit(c) {
      } else if phase == Whole && c == '.' {
        phase := Fraction;
      } else if phase != Exponent && IsExponentChar(c) {
        phase := Exponent;
        if i + 1 < |text| && IsSign(text[i + 1]) { i := i + 1; }
        if i + 1 == |text| { return false; }
      } else {
        break;
      }
      i := i + 1;
    }
    return i != start && i == |text|;
  }

  // ---------- The texts they take ----------

  /** Any of the digit strings may be empty, but for those of the exponent. */
  datatype Number = Number(sign: string, whole: string, fraction: Option<string>, exponent: Option<Power>)

  datatype Power = Power(e: char, sign: string, digits: string)

  predicate MaySign(sign: string) { sign == "" || (|sign| == 1 && IsSign(sign[0])) }

  predicate ValidPower(p: Option<Power>) {
    p.Some? ==> IsExponentChar(p.value.e) && MaySign(p.value.sign) && p.value.digits != "" && AllDigits(p.value.digits)
  }

  predicate ValidNumber(n: Number) {
    && MaySign(n.sign) && AllDigits(n.whole) && (n.fraction.Some? ==> AllDigits(n.fraction.value))
    && ValidPower(n.exponent)
    && (n.whole != "" || n.fraction.Some? || n.exponent.Some?)
  }

  function RenderPower(p: Option<Power>): string {
    if p.None? then "" else [p.value.e] + (p.value.sign + p.value.digits)
  }

  function RenderTail(n: Number): string {
    (if n.fraction.None? then "" else ['.'] + n.fraction.value) + RenderPower(n.exponent)
  }

  function RenderNumber(n: Number): string { n.sign + (n.whole + RenderTail(n)) }

  lemma UnsignedIs(sign: string, t: string)
    requires MaySign(sign) && (t != "" ==> !IsSign(t[0]))
    ensures Unsigned(sign + t) == t
  {
    if sign == "" { assert sign + t == t; } else { assert (sign + t)[1..] == t; }
  }

  lemma {:induction false} DigitsPass(ds: string, t: string, phase: Phase)
    requires AllDigits(ds)
    ensures DecimalRest(ds + t, phase) == DecimalRest(t, phase)
    decreases |ds|
  {
    if ds == "" {
      assert ds + t == t;
    } else {
      assert (ds + t)[1..] == ds[1..] + t;
      DigitsPass(ds[1..], t, phase);
    }
  }

  lemma PowerPasses(p: Option<Power>, phase: Phase)
    requires ValidPower(p) && phase != Exponent
    ensures DecimalRest(RenderPower(p), phase)
  {
    if p.Some? {
      var digits := p.value.digits;
      UnsignedIs(p.value.sign, digits);
      assert RenderPower(p)[1..] == p.value.sign + digits;
      DigitsPass(digits, "", Exponent);
      assert digits + "" == digits;
    }
  }

  lemma NumberConverts(n: Number)
    requires ValidNumber(n)
    ensures IsDecimal(RenderNumber(n))
  {
    hide DecimalRest, ValidPower, RenderPower;
    var tail := RenderTail(n);
    TailStarts(n);
    UnsignedIs(n.sign, n.whole + tail);
    DigitsPass(n.whole, tail, Whole);
    if n.fraction.Some? {
      var f, p := n.fraction.value, RenderPower(n.exponent);
      assert tail == ['.'] + (f + p);
      PowerPasses(n.exponent, Fraction);
      DigitsPass(f, p, Fraction);
      PointPasses(f + p);
    } else {
      assert tail == RenderPower(n.exponent);
      PowerPasses(n.exponent, Whole);
    }
  }

  lemma TailStarts(n: Number)
    requires ValidNumber(n)
    ensures n.whole + RenderTail(n) != "" && !IsSign((n.whole + RenderTail(n))[0])
  {
  }

  lemma PointPasses(t: string)
    ensures DecimalRest(['.'] + t, Whole) == DecimalRest(t, Fraction)
  {
    assert (['.'] + t)[1..] == t;
  }

  lemma {:induction false} ExponentIsDigits(t: string)
    ensures DecimalRest(t, Exponent) <==> AllDigits(t)
    decreases |t|
  {
    if t != "" {
      ExponentIsDigits(t[1..]);
      assert t == [t[0]] + t[1..];
    }
  }

  lemma PowerOf(t: string) returns (p: Option<Power>)
    requires t != "" && IsExponentChar(t[0]) && Unsigned(t[1..]) != "" && DecimalRest(Unsigned(t[1..]), Exponent)
    ensures ValidPower(p) && RenderPower(p) == t && p.Some?
  {
    var u := t[1..];
    ExponentIsDigits(Unsigned(u));
    var sign := if IsSign(u[0]) then [u[0]] else "";
    assert u == sign + Unsigned(u);
    p := Some(Power(t[0], sign, Unsigned(u)));
    assert t == [t[0]] + u;
  }

  lemma NoPower()
    ensures RenderPower(None) == "" && ValidPower(None)
  {
  }

  lemma {:induction false} FractionOf(t: string) returns (f: string, p: Option<Power>)
    requires DecimalRest(t, Fraction)
    ensures AllDigits(f) && ValidPower(p) && t == f + RenderPower(p)
    decreases |t|
  {
    hide ValidPower, RenderPower;
    NoPower();
    if t == "" {
      f, p := "", None;
    } else if IsDigit(t[0]) {
      f, p := FractionOf(t[1..]);
      assert t == [t[0]] + t[1..];
      f := [t[0]] + f;
    } else {
      f := "";
      p := PowerOf(t);
    }
  }

  lemma {:induction false} NumberOf(t: string) returns (n: Number)
    requires DecimalRest(t, Whole)
    ensures n.sign == "" && t == n.whole + RenderTail(n) && (t != "" ==> ValidNumber(n))
    ensures t == "" ==> n == Number("", "", None, None)
    decreases |t|
  {
    hide ValidPower, RenderPower;
    if t == "" {
      n := Number("", "", None, None);
      NoPower();
    } else if IsDigit(t[0]) {
      var m := NumberOf(t[1..]);
      n := OneDigitMore(t, m);
    } else if t[0] == '.' {
      var f, p := FractionOf(t[1..]);
      assert t == ['.'] + t[1..];
      n := Number("", "", Some(f), p);
    } else {
      var p := PowerOf(t);
      n := Number("", "", None, p);
      assert RenderTail(n) == RenderPower(p);
    }
  }

  lemma OneDigitMore(t: string, m: Number) returns (n: Number)
    requires t != "" && IsDigit(t[0])
    requires m.sign == "" && t[1..] == m.whole + RenderTail(m) && (t[1..] != "" ==> ValidNumber(m))
    requires t[1..] == "" ==> m == Number("", "", None, None)
    ensures n.sign == "" && t == n.whole + RenderTail(n) && ValidNumber(n)
  {
    hide ValidPower, RenderPower;
    NoPower();
    n := m.(whole := [t[0]] + m.whole);
    assert RenderTail(n) == RenderTail(m);
    assert t == [t[0]] + t[1..];
  }

  /** The decimal parser takes exactly the texts of numbers. */
  lemma DecimalExactly(t: string)
    ensures IsDecimal(t) <==> exists n: Number :: ValidNumber(n) && RenderNumber(n) == t
  {
    hide DecimalRest;
    if IsDecimal(t) {
      var n := NumberOf(Unsigned(t));
      var m := n.(sign := if IsSign(t[0]) then [t[0]] else "");
      assert RenderTail(m) == RenderTail(n);
      assert RenderNumber(m) == t && ValidNumber(m);
    }
    forall n: Number | ValidNumber(n) && RenderNumber(n) == t ensures IsDecimal(t) { NumberConverts(n); }
  }

  lemma FloatTail(t: string)
    requires t != ""
    ensures HasFloatChar(t) <==> IsFloatChar(t[0]) || HasFloatChar(t[1..])
  {
    if i :| 0 <= i < |t| && IsFloatChar(t[i]) {
      if i > 0 { assert IsFloatChar(t[1..][i - 1]); }
    }
    if i :| 0 <= i < |t[1..]| && IsFloatChar(t[1..][i]) {
      assert IsFloatChar(t[i + 1]);
    }
  }

  lemma {:induction false} PlainIsDigits(t: string)
    requires !HasFloatChar(t)
    ensures DecimalRest(t, Whole) <==> AllDigits(t)
    decreases |t|
  {
    if t != "" {
      FloatTail(t);
      PlainIsDigits(t[1..]);
      assert t == [t[0]] + t[1..];
    }
  }

  /** Both parsers together: a text converts exactly if it is a number's. */
  lemma ConvertsExactly(t: string)
    ensures Converts(t) <==> exists n: Number :: ValidNumber(n) && RenderNumber(n) == t
  {
    hide DecimalRest, HasFloatChar;
    DecimalExactly(t);
    if !HasFloatChar(t) {
      if t != "" { FloatTail(t); }
      PlainIsDigits(Unsigned(t));
    }
  }

  /** A number of section 2.4 of RFC 4627: digits without a leading zero, and some after a point. */
  predicate IsRfcNumber(n: Number) {
    && ValidNumber(n) && n.sign != "+"
    && n.whole != "" && (n.whole[0] == '0' ==> |n.whole| == 1)
    && n.fraction != Some("")
  }

  lemma RfcNumberConverts(n: Number)
    requires IsRfcNumber(n)
    ensures Converts(RenderNumber(n))
  {
    ConvertsExactly(RenderNumber(n));
  }

  lemma NumberTaken(n: Number, t: string)
    requires ValidNumber(n) && RenderNumber(n) == t
    ensures Converts(t)
  {
    hide *;
    ConvertsExactly(t);
  }

  /** A sign and a point are enough for the parser, or a sign and an exponent. */
  lemma NotOnlyRfcNumbers()
    ensures Converts("-.") && Converts("-e5") && Converts("007")
  {
    hide Converts;
    NumberTaken(Number("-", "", Some(""), None), "-.");
    NumberTaken(Number("-", "", None, Some(Power('e', "", "5"))), "-e5");
    NumberTaken(Number("", "007", None, None), "007");
  }

  /** Some texts of number characters that do not convert. */
  lemma RefusedNumbers()
    ensures !Converts("-") && !Converts("1-2") && !Converts("1e")
  {
    hide DecimalRest, HasFloatChar;
    assert Unsigned("-") == "" && Unsigned("1-2") == "1-2" && Unsigned("1e") == "1e";
    assert "1-2"[1] == '-' && "1e"[1] == 'e';
    EndsEarly();
  }

  lemma EndsEarly()
    ensures !DecimalRest("1-2", Whole) && !DecimalRest("1e", Whole)
  {
    assert "1-2"[1..] == "-2";
    assert "1e"[1..] == "e" && "e"[1..] == "";
  }

  // ---------- Integers written and read ----------

  function Printed(n: nat): string {
    if n < 10 then [('0' as int + n) as char] else Printed(n / 10) + Printed(n % 10)
  }

  function PrintedInt(n: int): string { if n < 0 then "-" + Printed(-n) else Printed(n) }

  lemma {:induction false} PrintedReads(n: nat)
    ensures Printed(n) != "" && AllDigits(Printed(n)) && DigitsValue(Printed(n)) == n
  {
    if n >= 10 {
      PrintedReads(n / 10);
      var t := Printed(n);
      assert t[..|t| - 1] == Printed(n / 10) && t[|t| - 1] == Printed(n % 10)[0];
    }
  }

  /** Every integer, however long, is read back from its decimal text. */
  lemma IntegerReadsBack(n: int)
    ensures IsInteger(PrintedInt(n)) && IntegerValue(PrintedInt(n)) == n
  {
    PrintedReads(if n < 0 then -n else n);
    if n < 0 { assert PrintedInt(n)[1..] == Printed(-n); }
  }
}
