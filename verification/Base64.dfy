/** The base64 codec of the binascii module (section 4 of RFC 4648). */
module Base64 {
  import opened Arithmetic

  type Digit = d: int | 0 <= d < 64

  datatype Result = Ok(bytes: seq<Byte>) | ValueError(message: string)

  const PAD: Byte := '=' as int
  const NEWLINE: Byte := '\n' as int

  /** Table 1 of RFC 4648. */
  const UPPER := "ABCDEFGHIJKLM" + "NOPQRSTUVWXYZ"
  const LOWER := "abcdefghijklm" + "nopqrstuvwxyz"
  const ALPHABET := UPPER + LOWER + "0123456789" + "+/"

  /** The digit a character stands for, or -1. */
  function Sextet(ch: Byte): int {
    if 'A' as int <= ch <= 'Z' as int then ch - 'A' as int
    else if 'a' as int <= ch <= 'z' as int then ch - 'a' as int + 26
    else if '0' as int <= ch <= '9' as int then ch - '0' as int + 52
    else if ch == '+' as int then 62
    else if ch == '/' as int then 63
    else -1
  }

  /** The second pass on one cell: a digit or 64 becomes its character. */
  function Ascii(v: Byte): Byte
    requires v <= 64
  {
    if v < 26 then v + 'A' as int
    else if v < 52 then v + 'a' as int - 26
    else if v < 62 then v + '0' as int - 52
    else if v == 62 then '+' as int
    else if v == 63 then '/' as int
    else PAD
  }

  lemma UpperIs(d: nat)
    requires d < 26
    ensures |UPPER| == 26 && UPPER[d] as int == d + 65
  {
    if d < 13 {
      assert UPPER[d] == "ABCDEFGHIJKLM"[d];
    } else {
      assert UPPER[d] == "NOPQRSTUVWXYZ"[d - 13];
    }
  }

  lemma LowerIs(d: nat)
    requires d < 26
    ensures |LOWER| == 26 && LOWER[d] as int == d + 97
  {
    if d < 13 {
      assert LOWER[d] == "abcdefghijklm"[d];
    } else {
      assert LOWER[d] == "nopqrstuvwxyz"[d - 13];
    }
  }

  lemma AsciiIsAlphabet(d: Digit)
    ensures |ALPHABET| == 64 && Ascii(d) == ALPHABET[d] as int
  {
    if d < 26 {
      assert ALPHABET[d] == UPPER[d];
      UpperIs(d);
    } else if d < 52 {
      assert ALPHABET[d] == LOWER[d - 26];
      LowerIs(d - 26);
    } else if d < 62 {
      assert ALPHABET[d] == "0123456789"[d - 52];
    } else {
      assert ALPHABET[d] == "+/"[d - 62];
    }
  }

  /** Sextet and Ascii undo each other on the 64 characters. */
  lemma SextetInvertsAscii(ch: Byte, d: Digit)
    ensures Sextet(ch) == d <==> Ascii(d) == ch
    ensures Sextet(PAD) == Sextet(NEWLINE) == -1
  {
  }

  // ---------- Encoding as RFC 4648 states it ----------

  /** The k-th group of six bits of a 24-bit group. */
  function SixBits(group: nat, k: nat): Digit
    requires k < 4
  {
    group / (if k == 0 then 0x40000 else if k == 1 then 0x1000 else if k == 2 then 0x40 else 1) % 64
  }

  function ByteAt(b: seq<Byte>, i: nat): Byte { if i < |b| then b[i] else 0 }

  /** The first three bytes as a 24-bit group, zero bits added on the right. */
  function Group(b: seq<Byte>): nat { ByteAt(b, 0) * 0x10000 + ByteAt(b, 1) * 0x100 + ByteAt(b, 2) }

  /** The digits of the first group; n bytes give n+1 digits, and 64 stands for padding. */
  function Quad(b: seq<Byte>): (r: seq<Byte>)
    ensures |r| == 4 && forall k :: 0 <= k < 4 ==> r[k] <= 64
  {
    var g := Group(b);
    [SixBits(g, 0), SixBits(g, 1), if |b| > 1 then SixBits(g, 2) else 64, if |b| > 2 then SixBits(g, 3) else 64]
  }

  function Tail(b: seq<Byte>): (t: seq<Byte>)
    ensures |t| == if |b| > 3 then |b| - 3 else 0
  {
    if |b| > 3 then b[3..] else []
  }

  /** Four characters for every three bytes. */
  function Quads(b: seq<Byte>): (r: seq<Byte>)
    decreases |b|
    ensures |r| == (|b| + 2) / 3 * 4
    ensures forall k :: 0 <= k < |r| ==> r[k] <= 64
  {
    if b == [] then [] else Quad(b) + Quads(Tail(b))
  }

  function Encoding(b: seq<Byte>): (r: seq<Byte>)
    ensures |r| == |Quads(b)|
  {
    seq(|Quads(b)|, k requires 0 <= k < |Quads(b)| => Ascii(Quads(b)[k]))
  }

  // ---------- Decoding ----------

  predicate IsSignificant(ch: Byte) { ch == PAD || Sextet(ch) != -1 }

  function Significant(s: seq<Byte>): seq<Byte> {
    if s == [] then []
    else (if IsSignificant(s[0]) then [s[0]] else []) + Significant(s[1..])
  }

  /** The digits up to complete padding, and whether there was any. Padding is complete
      at '=' after three digits of a group, or at a second '=' after two. */
  datatype Scanned = Scanned(digits: seq<Digit>, complete: bool)

  predicate Completes(n: nat, padded: bool) { n % 4 == 3 || (n % 4 == 2 && padded) }

  function Scan(s: seq<Byte>, n: nat, padded: bool): Scanned {
    if s == [] then Scanned([], false)
    else if s[0] == PAD then (if Completes(n, padded) then Scanned([], true) else Scan(s[1..], n, true))
    else if Sextet(s[0]) == -1 then Scan(s[1..], n, padded)
    else var r := Scan(s[1..], n + 1, false); Scanned([Sextet(s[0])] + r.digits, r.complete)
  }

  function Value(d: seq<Digit>): nat { if d == [] then 0 else 64 * Value(d[..|d| - 1]) + d[|d| - 1] }

  function LastByte(v: nat): Byte { v % 256 }

  /** Each four digits are three bytes; a rest of two is one byte, of three two bytes. */
  function Unpack(d: seq<Digit>): seq<Byte> {
    if |d| < 2 then []
    else if |d| == 2 then [LastByte(Value(d) / 16)]
    else if |d| == 3 then [LastByte(Value(d) / 1024), LastByte(Value(d) / 4)]
    else ThreeBytes(Value(d[..4])) + Unpack(d[4..])
  }

  function ThreeBytes(v: nat): seq<Byte> { [LastByte(v / 0x10000), LastByte(v / 0x100), LastByte(v)] }

  function Decoded(s: seq<Byte>): Result {
    var r := Scan(s, 0, false);
    if r.complete || |r.digits| % 4 == 0 then Ok(Unpack(r.digits)) else ValueError("incorrect padding")
  }

  // ---------- The methods ----------

  /** The first pass writes digits over the output, the second turns them into text in place. */
  method B2aBase64(input: seq<Byte>) returns (out: array<Byte>)
    ensures fresh(out)
    ensures out[..] == Encoding(input) + [NEWLINE]
  {
    hide Ascii, Quads;
    var size := (if |input| != 0 then ((|input| - 1) / 3 + 1) * 4 else 0) + 1;
    out := new Byte[size];
    ToDigits(input, out);
    ghost var digits := out[..size - 1];
    for j := 0 to size - 1
      invariant forall k :: 0 <= k < j ==> out[k] == Ascii(digits[k])
      invariant forall k :: j <= k < size - 1 ==> out[k] == digits[k]
    {
      out[j] := Ascii(out[j]);
    }
    out[size - 1] := NEWLINE;
    assert out[..size - 1] == Encoding(input);
    assert out[..] == out[..size - 1] + [NEWLINE];
  }

  lemma QuadIs(b: seq<Byte>)
    requires b != []
    ensures Quad(b) == [ByteAt(b, 0) / 4, ByteAt(b, 0) % 4 * 16 + ByteAt(b, 1) / 16,
                        if |b| > 1 then ByteAt(b, 1) % 16 * 4 + ByteAt(b, 2) / 64 else 64,
                        if |b| > 2 then ByteAt(b, 2) % 64 else 64]
  {
    hide SixBits, Group;
    SixBitsAre(b);
  }

  lemma SixBitsAre(b: seq<Byte>)
    ensures SixBits(Group(b), 0) == ByteAt(b, 0) / 4
    ensures SixBits(Group(b), 1) == ByteAt(b, 0) % 4 * 16 + ByteAt(b, 1) / 16
    ensures SixBits(Group(b), 2) == ByteAt(b, 1) % 16 * 4 + ByteAt(b, 2) / 64
    ensures SixBits(Group(b), 3) == ByteAt(b, 2) % 64
  {
    SixBitsOf(ByteAt(b, 0), ByteAt(b, 1), ByteAt(b, 2));
  }

  lemma SplitDigits(d0: nat, d1: nat, d2: nat, d3: nat)
    requires d0 < 64 && d1 < 64 && d2 < 64 && d3 < 64
    ensures var g := 0x40000 * d0 + 0x1000 * d1 + 0x40 * d2 + d3;
            g / 0x40000 % 64 == d0 && g / 0x1000 % 64 == d1 && g / 0x40 % 64 == d2 && g % 64 == d3
  {
    var g := 0x40000 * d0 + 0x1000 * d1 + 0x40 * d2 + d3;
    assert g / 0x40000 == d0;
    assert g / 0x1000 == 64 * d0 + d1;
    assert g / 0x40 == 64 * (64 * d0 + d1) + d2;
  }

  lemma SixBitsOf(x: Byte, y: Byte, z: Byte)
    ensures var g := x * 0x10000 + y * 0x100 + z;
            && g / 0x40000 % 64 == x / 4 && g / 0x1000 % 64 == x % 4 * 16 + y / 16
            && g / 0x40 % 64 == y % 16 * 4 + z / 64 && g % 64 == z % 64
  {
    var g := x * 0x10000 + y * 0x100 + z;
    var d1, d2 := x % 4 * 16 + y / 16, y % 16 * 4 + z / 64;
    assert g == 0x40000 * (x / 4) + 0x1000 * d1 + 0x40 * d2 + z % 64;
    SplitDigits(x / 4, d1, d2, z % 64);
  }

  /** The first pass on one group of i bytes, three or fewer at the end. */
  method PutQuad(out: array<Byte>, o: nat, b: seq<Byte>)
    requires o + 4 <= out.Length && b != []
    modifies out
    ensures out[..o + 4] == old(out[..o]) + Quad(b)
  {
    hide Quad;
    QuadIs(b);
    if |b| >= 3 {
      out[o], out[o + 1], out[o + 2], out[o + 3] :=
        b[0] / 4, b[0] % 4 * 16 + b[1] / 16, b[1] % 16 * 4 + b[2] / 64, b[2] % 64;
    } else {
      out[o] := b[0] / 4;
      if |b| == 2 {
        out[o + 1] := b[0] % 4 * 16 + b[1] / 16;
        out[o + 2] := b[1] % 16 * 4;
      } else {
        out[o + 1] := b[0] % 4 * 16;
        out[o + 2] := 64;
      }
      out[o + 3] := 64;
    }
  }

  /** What is left to write after the group at p. */
  function ToWrite(input: seq<Byte>, p: nat): seq<Byte> { if p <= |input| then Quads(input[p..]) else [] }

  lemma QuadsSplit(input: seq<Byte>, p: nat, before: seq<Byte>)
    requires p < |input|
    ensures before + ToWrite(input, p) == (before + Quad(input[p..])) + ToWrite(input, p + 3)
    ensures |ToWrite(input, p)| == (|input| - p + 2) / 3 * 4
  {
    var b := input[p..];
    assert Quads(b) == Quad(b) + Quads(Tail(b));
    if p + 3 <= |input| { assert Tail(b) == input[p + 3..]; } else { assert Tail(b) == []; }
  }

  method ToDigits(input: seq<Byte>, out: array<Byte>)
    requires out.Length == |Quads(input)| + 1
    modifies out
    ensures out[..out.Length - 1] == Quads(input)
  {
    hide Quad, Quads, ToWrite;
    WholeRest(input);
    var i, o, p := |input|, 0, 0;
    while i >= 3
      invariant 0 <= i && p == |input| - i && 0 <= o
      invariant o + (i + 2) / 3 * 4 == out.Length - 1
      invariant out[..o] + ToWrite(input, p) == Quads(input)
    {
      QuadsSplit(input, p, out[..o]);
      PutQuad(out, o, input[p..]);
      o, p, i := o + 4, p + 3, i - 3;
    }
    if i != 0 {
      QuadsSplit(input, p, out[..o]);
      PutQuad(out, o, input[p..]);
      o, p := o + 4, p + 3;
    }
    NoRest(input, p);
    assert out[..o] + [] == out[..o];
  }

  lemma WholeRest(input: seq<Byte>)
    ensures [] + ToWrite(input, 0) == Quads(input)
  {
    assert input[0..] == input;
  }

  lemma NoRest(input: seq<Byte>, p: nat)
    requires p >= |input|
    ensures ToWrite(input, p) == []
  {
    if p == |input| { assert input[p..] == []; }
  }

  /** The last |d| % 4 digits: those not yet turned into whole bytes. */
  function Rest(d: seq<Digit>): seq<Digit> { d[|d| - |d| % 4..] }

  function Bits(n: nat): nat { if n % 4 == 0 then 0 else if n % 4 == 1 then 6 else if n % 4 == 2 then 4 else 2 }

  /** v >> n for the shifts the decoder makes. */
  function Shr(v: nat, n: nat): nat
    requires n in {0, 2, 4, 6}
  {
    if n == 0 then v else if n == 2 then v / 4 else if n == 4 then v / 16 else v / 64
  }

  /** The byte that one more digit completes, from the value of the digits at rest and it. */
  function NewByte(v: nat, k: nat): Byte { LastByte(Shr(v, Bits(k + 1))) }

  /** One more digit: the byte it completes, if any, comes from the digits at rest. */
  lemma {:induction false} UnpackStep(d: seq<Digit>, x: Digit)
    ensures Unpack(d + [x]) ==
            if |d| % 4 == 0 then Unpack(d) else Unpack(d) + [NewByte(Value(Rest(d) + [x]), |d|)]
  {
    hide Value, NewByte, Rest, Unpack;
    if |d| >= 4 {
      UnpackStep(d[4..], x);
      UnpackHead(d, x);
      RestOfTail(d);
      NewByteIsPeriodic(Value(Rest(d) + [x]), |d|);
    } else if |d| > 0 {
      RestOfShort(d);
      UnpackShort(d, x);
    } else {
      UnpackUpTo4(d);
      UnpackUpTo4(d + [x]);
    }
  }

  /** The first four digits are the first three bytes, whatever follows. */
  lemma UnpackHead(d: seq<Digit>, x: Digit)
    requires |d| >= 4
    ensures Unpack(d) == ThreeBytes(Value(d[..4])) + Unpack(d[4..])
    ensures Unpack(d + [x]) == ThreeBytes(Value(d[..4])) + Unpack(d[4..] + [x])
  {
    hide Value, ThreeBytes, Unpack;
    UnpackIs(d);
    UnpackIs(d + [x]);
    assert (d + [x])[4..] == d[4..] + [x] && (d + [x])[..4] == d[..4];
  }

  lemma UnpackIs(d: seq<Digit>)
    requires |d| >= 4
    ensures Unpack(d) == ThreeBytes(Value(d[..4])) + Unpack(d[4..])
  {
    hide Value, ThreeBytes;
  }

  lemma RestOfTail(d: seq<Digit>)
    requires |d| >= 4
    ensures Rest(d[4..]) == Rest(d)
  {
  }

  lemma NewByteIsPeriodic(v: nat, k: nat)
    requires k >= 4
    ensures NewByte(v, k) == NewByte(v, k - 4)
  {
  }

  lemma UnpackShort(d: seq<Digit>, x: Digit)
    requires 0 < |d| < 4
    ensures Unpack(d + [x]) == Unpack(d) + [NewByte(Value(d + [x]), |d|)]
  {
    hide Value, Unpack, NewByte, LastByte;
    UnpackUpTo4(d);
    UnpackUpTo4(d + [x]);
    ValueStep(d, x);
    ShiftOut(Value(d), x);
    NewByteIs(Value(d + [x]));
  }

  lemma NewByteIs(v: nat)
    ensures NewByte(v, 1) == LastByte(v / 16) && NewByte(v, 2) == LastByte(v / 4) && NewByte(v, 3) == LastByte(v)
  {
  }

  lemma RestOfShort(d: seq<Digit>)
    requires |d| < 4
    ensures Rest(d) == d
  {
  }

  lemma UnpackUpTo4(d: seq<Digit>)
    requires |d| <= 4
    ensures Unpack(d) ==
            if |d| < 2 then []
            else if |d| == 2 then [LastByte(Value(d) / 16)]
            else if |d| == 3 then [LastByte(Value(d) / 1024), LastByte(Value(d) / 4)]
            else [LastByte(Value(d) / 0x10000), LastByte(Value(d) / 0x100), LastByte(Value(d))]
  {
    hide Value, LastByte;
    if |d| == 4 { assert d[..4] == d && d[4..] == [] && Unpack([]) == []; }
  }

  lemma ValueStep(d: seq<Digit>, x: Digit)
    ensures Value(d + [x]) == 64 * Value(d) + x
  {
    assert (d + [x])[..|d|] == d;
  }

  lemma ShiftOut(v: nat, x: Digit)
    ensures (64 * v + x) / 1024 == v / 16 && (64 * v + x) / 0x10000 == v / 1024 && (64 * v + x) / 0x100 == v / 4
  {
  }

  function Span(k: nat): nat
    requires k <= 4
  {
    if k == 0 then 1 else if k == 1 then 0x40 else if k == 2 then 0x1000 else if k == 3 then 0x40000 else 0x100_0000
  }

  /** shift agrees with the digits at rest in its low bits, which wrapping does not touch. */
  ghost predicate Carries(shift: nat, d: seq<Digit>) { shift % Span(|d| % 4) == Value(Rest(d)) }

  lemma ShiftStep(shift: nat, d: seq<Digit>, x: Digit)
    requires Carries(shift, d)
    ensures var next := (shift * 64 + x) % 0x1_0000_0000;
            && Carries(next, d + [x])
            && next % Span(|d| % 4 + 1) == Value(Rest(d) + [x])
  {
    hide Value, Span;
    var k := |d| % 4;
    ValueStep(Rest(d), x);
    ShiftWraps(shift, k, Value(Rest(d)), x);
    RestStep(d, x);
  }

  lemma NextMod(n: nat)
    ensures (n + 1) % 4 == if n % 4 < 3 then n % 4 + 1 else 0
  {
  }

  lemma RestStep(d: seq<Digit>, x: Digit)
    ensures |d| % 4 < 3 ==> Rest(d + [x]) == Rest(d) + [x] && |d + [x]| % 4 == |d| % 4 + 1
    ensures |d| % 4 == 3 ==> Rest(d + [x]) == [] && |d + [x]| % 4 == 0 && Value(Rest(d + [x])) == 0 && Span(0) == 1
  {
    NextMod(|d|);
    var from := |d| - |d| % 4;
    if |d| % 4 < 3 { assert (d + [x])[from..] == d[from..] + [x]; } else { assert Rest(d + [x]) == []; }
  }

  lemma ShiftWraps(shift: nat, k: nat, v: nat, x: Digit)
    requires k < 4 && shift % Span(k) == v
    ensures (shift * 64 + x) % 0x1_0000_0000 % Span(k + 1) == 64 * v + x
  {
    var y := shift * 64 + x;
    var q := shift / Span(k);
    if k == 0 {
      ModMod(y, 64, 0x400_0000);
      ModUnique(y, 64, q, x);
    } else if k == 1 {
      ModMod(y, 0x1000, 0x10_0000);
      ModUnique(y, 0x1000, q, 64 * v + x);
    } else if k == 2 {
      ModMod(y, 0x40000, 0x4000);
      ModUnique(y, 0x40000, q, 64 * v + x);
    } else {
      ModMod(y, 0x100_0000, 0x100);
      ModUnique(y, 0x100_0000, q, 64 * v + x);
    }
  }

  lemma SameByte(next: nat, d: seq<Digit>, x: Digit)
    requires |d| % 4 != 0 && next % Span(|d| % 4 + 1) == Value(Rest(d) + [x])
    ensures NewByte(next, |d|) == NewByte(Value(Rest(d) + [x]), |d|)
  {
    hide Value, Rest, NewByte, Span;
    NewByteMod(next, |d|);
    NewByteMod(Value(Rest(d) + [x]), |d|);
    BitsAbove(next, |d| % 4, Value(Rest(d) + [x]));
  }

  lemma NewByteMod(v: nat, k: nat)
    ensures NewByte(v, k) == NewByte(v, k % 4)
  {
    assert (k + 1) % 4 == (k % 4 + 1) % 4;
  }

  lemma BitsAbove(next: nat, k: nat, v: nat)
    requires 1 <= k <= 3 && next % Span(k + 1) == v
    ensures NewByte(next, k) == NewByte(v, k)
  {
    var q := next / Span(k + 1);
    if k == 1 {
      assert next / 16 == 256 * q + v / 16;
    } else if k == 2 {
      assert next / 4 == 256 * (256 * q) + v / 4;
      ModUnique(next / 4, 256, 256 * q + v / 4 / 256, v / 4 % 256);
    } else {
      ModMod(next, 256, 0x10000);
    }
  }

  /** The decoder's registers after the given digits. */
  ghost predicate Tracks(digits: seq<Digit>, shift: nat, nbits: nat, out: seq<Byte>) {
    out == Unpack(digits) && nbits == Bits(|digits|) && Carries(shift, digits)
  }

  lemma TakeDigit(digits: seq<Digit>, shift: nat, nbits: nat, out: seq<Byte>, x: Digit)
    requires Tracks(digits, shift, nbits, out)
    ensures var next := (shift * 64 + x) % 0x1_0000_0000;
            if nbits + 6 >= 8 then
              Tracks(digits + [x], next, nbits - 2, out + [LastByte(Shr(next, nbits - 2))])
            else Tracks(digits + [x], next, nbits + 6, out)
  {
    hide Unpack, Rest, Value, Span, LastByte;
    UnpackStep(digits, x);
    ShiftStep(shift, digits, x);
    if |digits| % 4 != 0 { SameByte((shift * 64 + x) % 0x1_0000_0000, digits, x); }
  }

  method A2bBase64(input: seq<Byte>) returns (r: Result)
    ensures r == Decoded(input)
  {
    hide Sextet, Unpack, Carries, Scan, Shr, LastByte;
    StartTracks();
    assert input[0..] == input && forall r: seq<Digit> :: [] + r == r;
    var shift, nbits, hadpad := 0, 0, false;
    var out: seq<Byte> := [];
    ghost var digits: seq<Digit> := [];
    var i := 0;
    ghost var whole := Scan(input, 0, false);
    while i < |input|
      invariant 0 <= i <= |input| && shift >= 0 && nbits >= 0
      invariant Tracks(digits, shift, nbits, out)
      invariant var r := Scan(input[i..], |digits|, hadpad);
                whole == Scanned(digits + r.digits, r.complete)
    {
      assert input[i..][1..] == input[i + 1..];
      ScanAt(input[i..], digits, hadpad);
      if input[i] == PAD {
        if nbits == 2 || (nbits == 4 && hadpad) {
          nbits := 0;
          break;
        }
        hadpad := true;
      }
      var sextet := Sextet(input[i]);
      if sextet == -1 {
        i := i + 1;
        continue;
      }
      hadpad := false;
      SextetIsDigit(input[i]);
      TakeDigit(digits, shift, nbits, out, sextet);
      shift := (shift * 64 + sextet) % 0x1_0000_0000;
      nbits := nbits + 6;
      if nbits >= 8 {
        nbits := nbits - 8;
        out := out + [LastByte(Shr(shift, nbits))];
      }
      digits := digits + [sextet];
      i := i + 1;
    }
    if i == |input| { ScanEnd(|digits|, hadpad); }
    assert digits + [] == digits;
    if nbits != 0 { return ValueError("incorrect padding"); }
    r := Ok(out);
  }

  lemma ScanEnd(n: nat, padded: bool)
    ensures Scan([], n, padded) == Scanned([], false)
  {
  }

  /** One character of the scan after the given digits. */
  lemma ScanAt(s: seq<Byte>, digits: seq<Digit>, padded: bool)
    requires s != []
    ensures Sextet(PAD) == -1 && Sextet(s[0]) < 64
    ensures var (r, n) := (Scan(s, |digits|, padded), |digits|);
            if s[0] == PAD then r == if Completes(n, padded) then Scanned([], true) else Scan(s[1..], n, true)
            else if Sextet(s[0]) == -1 then r == Scan(s[1..], n, padded)
            else
              var after := Scan(s[1..], n + 1, false);
              digits + r.digits == (digits + [Sextet(s[0])]) + after.digits && r.complete == after.complete
  {
    hide Sextet, Completes;
    PadIsNoDigit();
    SextetIsDigit(s[0]);
    if s[0] != PAD && Sextet(s[0]) != -1 {
      Associates(digits, [Sextet(s[0])], Scan(s[1..], |digits| + 1, false).digits);
    }
  }

  lemma Associates(a: seq<Digit>, b: seq<Digit>, c: seq<Digit>)
    ensures a + (b + c) == (a + b) + c
  {
  }

  lemma StartTracks()
    ensures Tracks([], 0, 0, [])
  {
  }

  lemma SextetIsDigit(ch: Byte)
    ensures -1 <= Sextet(ch) < 64
  {
  }

  lemma DigitsOfGroup(g: nat)
    requires g < 0x1000000
    ensures var a: int, b: int, c: int, d: int := SixBits(g, 0), SixBits(g, 1), SixBits(g, 2), SixBits(g, 3);
            && a * 64 + b == g / 0x1000 && (a * 64 + b) * 64 + c == g / 0x40 && ((a * 64 + b) * 64 + c) * 64 + d == g
  {
    var h := g / 0x40;
    var i := h / 0x40;
    assert g / 0x1000 == i && g / 0x40000 == i / 0x40;
    assert i / 0x40 % 64 == i / 0x40;
  }

  /** The digits of a group are its bytes in base 64, filled up with zero bits to whole digits;
      64 is the padding. */
  lemma QuadCarries(b: seq<Byte>)
    requires b != []
    ensures var q: seq<int>, c: seq<int> := Quad(b), b;
            && (|b| == 1 ==> q[0] * 64 + q[1] == c[0] * 16 && q[2] == q[3] == 64)
            && (|b| == 2 ==> (q[0] * 64 + q[1]) * 64 + q[2] == (c[0] * 256 + c[1]) * 4 && q[3] == 64)
            && (|b| >= 3 ==>
                  ((q[0] * 64 + q[1]) * 64 + q[2]) * 64 + q[3] == (c[0] * 256 + c[1]) * 256 + c[2])
  {
    hide SixBits;
    DigitsOfGroup(Group(b));
  }

  // ---------- Decoding undoes encoding ----------

  /** Only alphabet characters and '=' matter. */
  lemma {:induction false} ScanIgnoresJunk(s: seq<Byte>, n: nat, padded: bool)
    ensures Scan(s, n, padded) == Scan(Significant(s), n, padded)
  {
    if s != [] {
      var tail := Significant(s[1..]);
      ScanIgnoresJunk(s[1..], n, padded);
      ScanIgnoresJunk(s[1..], n, true);
      ScanIgnoresJunk(s[1..], n + 1, false);
      if IsSignificant(s[0]) {
        assert Significant(s) == [s[0]] + tail;
        assert Significant(s)[0] == s[0] && Significant(s)[1..] == tail;
      } else {
        assert Significant(s) == tail;
      }
    }
  }

  lemma ScanDigit(d: Digit, s: seq<Byte>, n: nat, padded: bool)
    ensures Scan([Ascii(d)] + s, n, padded) ==
            Scanned([d] + Scan(s, n + 1, false).digits, Scan(s, n + 1, false).complete)
  {
    SextetInvertsAscii(Ascii(d), d);
    assert ([Ascii(d)] + s)[1..] == s;
  }

  lemma ScanPad(s: seq<Byte>, n: nat, padded: bool)
    ensures Scan([PAD] + s, n, padded) == if Completes(n, padded) then Scanned([], true) else Scan(s, n, true)
  {
    assert ([PAD] + s)[1..] == s;
  }

  /** The digits of the first group without the padding. */
  function QuadDigits(b: seq<Byte>): seq<Digit> {
    var g := Group(b);
    [SixBits(g, 0), SixBits(g, 1)] + (if |b| > 1 then [SixBits(g, 2)] else []) +
    (if |b| > 2 then [SixBits(g, 3)] else [])
  }

  /** The digits of the encoding of b without the padding. */
  function DigitsOf(b: seq<Byte>): (d: seq<Digit>)
    decreases |b|
  {
    if b == [] then [] else QuadDigits(b) + DigitsOf(Tail(b))
  }

  function QuadText(b: seq<Byte>): seq<Byte> {
    var q := Quad(b);
    [Ascii(q[0]), Ascii(q[1]), Ascii(q[2]), Ascii(q[3])]
  }

  lemma EncodingOfQuad(b: seq<Byte>)
    requires b != []
    ensures Encoding(b) == QuadText(b) + Encoding(Tail(b))
  {
    hide Quad, Ascii;
    assert Quads(b) == Quad(b) + Quads(Tail(b));
  }

  lemma ScanQuad(b: seq<Byte>, after: seq<Byte>, n: nat, padded: bool)
    requires b != [] && n % 4 == 0
    ensures var r := Scan(after, n + 4, false);
            Scan(QuadText(b) + after, n, padded) ==
              if |b| < 3 then Scanned(QuadDigits(b), true) else Scanned(QuadDigits(b) + r.digits, r.complete)
  {
    hide Scan, SixBits, Group, Ascii;
    var g := Group(b);
    var q := QuadText(b);
    PadText();
    assert q + after == [q[0]] + ([q[1]] + ([q[2]] + ([q[3]] + after)));
    ScanDigit(SixBits(g, 0), [q[1]] + ([q[2]] + ([q[3]] + after)), n, padded);
    ScanDigit(SixBits(g, 1), [q[2]] + ([q[3]] + after), n + 1, false);
    if |b| == 1 {
      ScanPad([q[3]] + after, n + 2, false);
      ScanPad(after, n + 2, true);
    } else if |b| == 2 {
      ScanDigit(SixBits(g, 2), [q[3]] + after, n + 2, false);
      ScanPad(after, n + 3, false);
    } else {
      ScanDigit(SixBits(g, 2), [q[3]] + after, n + 2, false);
      ScanDigit(SixBits(g, 3), after, n + 3, false);
      var r := Scan(after, n + 4, false);
      assert [SixBits(g, 0)] + ([SixBits(g, 1)] + ([SixBits(g, 2)] + ([SixBits(g, 3)] + r.digits))) ==
             QuadDigits(b) + r.digits;
    }
  }

  lemma DigitsSplit(b: seq<Byte>)
    requires b != []
    ensures DigitsOf(b) == if |b| < 3 then QuadDigits(b) else QuadDigits(b) + DigitsOf(Tail(b))
    ensures |b| < 3 ==> DigitsOf(Tail(b)) == []
  {
    assert Tail(b) == [] ==> DigitsOf(Tail(b)) == [];
  }

  lemma EmptyEncoding()
    ensures Encoding([]) == [] && DigitsOf([]) == []
  {
  }

  lemma PadText()
    ensures Ascii(64) == PAD
  {
  }

  /** The encoding needs padding. */
  predicate IsRagged(b: seq<Byte>) { |b| % 3 != 0 }

  lemma RaggedTail(b: seq<Byte>)
    ensures if b == [] then !IsRagged(b) else if |b| < 3 then IsRagged(b) else IsRagged(b) == IsRagged(Tail(b))
  {
  }

  lemma {:induction false} ScanOfEncoding(b: seq<Byte>, n: nat, padded: bool)
    requires n % 4 == 0
    ensures Scan(Encoding(b), n, padded) == Scanned(DigitsOf(b), IsRagged(b))
    decreases |b|
  {
    RaggedTail(b);
    hide Scan, IsRagged, Encoding, QuadText, QuadDigits, DigitsOf, Tail;
    if b == [] {
      ScanEnd(n, padded);
      assert Encoding(b) == [] && DigitsOf(b) == [] by { EmptyEncoding(); }
    } else {
      DigitsSplit(b);
      EncodingOfQuad(b);
      ScanQuad(b, Encoding(Tail(b)), n, padded);
      if |b| >= 3 { ScanOfEncoding(Tail(b), n + 4, false); }
    }
  }

  lemma GroupOf(x: Byte, y: Byte, z: Byte)
    ensures var g := x * 0x10000 + y * 0x100 + z;
            var q0, q1, q2, q3 := g / 0x40000 % 64, g / 0x1000 % 64, g / 0x40 % 64, g % 64;
            && q0 * 64 + q1 == x * 16 + y / 16
            && (q0 * 64 + q1) * 64 + q2 == x * 1024 + y * 4 + z / 64
            && ((q0 * 64 + q1) * 64 + q2) * 64 + q3 == g
  {
    SixBitsOf(x, y, z);
  }

  lemma GroupBytesAre(x: Byte, y: Byte, z: Byte)
    ensures LastByte((x * 16 + y / 16) / 16) == x
    ensures LastByte((x * 1024 + y * 4 + z / 64) / 1024) == x
    ensures LastByte((x * 1024 + y * 4 + z / 64) / 4) == y
    ensures LastByte((x * 0x10000 + y * 0x100 + z) / 0x10000) == x
    ensures LastByte((x * 0x10000 + y * 0x100 + z) / 0x100) == y
    ensures LastByte(x * 0x10000 + y * 0x100 + z) == z
  {
    assert (x * 1024 + y * 4 + z / 64) / 4 == x * 256 + y;
    assert (x * 0x10000 + y * 0x100 + z) / 0x100 == x * 256 + y;
  }

  lemma ValueOf4(a: Digit, b: Digit, c: Digit, d: Digit)
    ensures Value([a, b]) == a * 64 + b
    ensures Value([a, b, c]) == (a * 64 + b) * 64 + c
    ensures Value([a, b, c, d]) == ((a * 64 + b) * 64 + c) * 64 + d
  {
    assert Value([]) == 0;
    assert [a][..0] == [] && Value([a]) == a;
    assert [a, b][..1] == [a];
    assert [a, b, c][..2] == [a, b];
    assert [a, b, c, d][..3] == [a, b, c];
  }

  lemma {:induction false} UnpackOfDigits(b: seq<Byte>)
    ensures Unpack(DigitsOf(b)) == b
    ensures |DigitsOf(b)| % 4 == (if |b| % 3 == 0 then 0 else |b| % 3 + 1)
    decreases |b|
  {
    hide QuadDigits, Unpack, DigitsOf, Tail;
    if b == [] {
      EmptyEncoding();
      UnpackNothing();
    } else {
      DigitsSplit(b);
      UnpackQuad(b, DigitsOf(Tail(b)));
      if |b| < 3 {
        UnpackNothing();
        assert QuadDigits(b) + [] == QuadDigits(b);
      } else {
        UnpackOfDigits(Tail(b));
        HeadAndTail(b);
      }
    }
  }

  lemma HeadAndTail(b: seq<Byte>)
    requires |b| >= 3
    ensures b == b[..3] + Tail(b)
  {
  }

  lemma UnpackNothing()
    ensures Unpack([]) == []
  {
  }

  lemma UnpackQuad(b: seq<Byte>, rest: seq<Digit>)
    requires b != [] && (|b| < 3 ==> rest == [])
    ensures Unpack(QuadDigits(b) + rest) == (if |b| < 3 then b else b[..3]) + Unpack(rest)
    ensures |QuadDigits(b)| == if |b| < 3 then |b| + 1 else 4
  {
    hide SixBits, Value, LastByte;
    var g := Group(b);
    var d0, d1, d2, d3 := SixBits(g, 0), SixBits(g, 1), SixBits(g, 2), SixBits(g, 3);
    GroupBytes(b);
    if |b| == 1 {
      assert QuadDigits(b) + rest == [d0, d1];
    } else if |b| == 2 {
      assert QuadDigits(b) + rest == [d0, d1, d2];
    } else {
      var d := QuadDigits(b) + rest;
      assert QuadDigits(b) == [d0, d1, d2, d3];
      assert d[..4] == [d0, d1, d2, d3] && d[4..] == rest;
    }
  }

  lemma GroupBytes(b: seq<Byte>)
    ensures var g := Group(b);
            var d0, d1, d2, d3 := SixBits(g, 0), SixBits(g, 1), SixBits(g, 2), SixBits(g, 3);
            && LastByte(Value([d0, d1]) / 16) == ByteAt(b, 0)
            && LastByte(Value([d0, d1, d2]) / 1024) == ByteAt(b, 0)
            && LastByte(Value([d0, d1, d2]) / 4) == ByteAt(b, 1)
            && LastByte(Value([d0, d1, d2, d3]) / 0x10000) == ByteAt(b, 0)
            && LastByte(Value([d0, d1, d2, d3]) / 0x100) == ByteAt(b, 1)
            && LastByte(Value([d0, d1, d2, d3])) == ByteAt(b, 2)
  {
    hide Value, LastByte;
    var g := Group(b);
    GroupOf(ByteAt(b, 0), ByteAt(b, 1), ByteAt(b, 2));
    GroupBytesAre(ByteAt(b, 0), ByteAt(b, 1), ByteAt(b, 2));
    ValueOf4(SixBits(g, 0), SixBits(g, 1), SixBits(g, 2), SixBits(g, 3));
  }

  lemma {:induction false} SignificantConcat(a: seq<Byte>, b: seq<Byte>)
    ensures Significant(a + b) == Significant(a) + Significant(b)
  {
    hide IsSignificant;
    if a == [] {
      assert a + b == b;
    } else {
      var first := if IsSignificant(a[0]) then [a[0]] else [];
      SignificantConcat(a[1..], b);
      assert (a + b)[0] == a[0] && (a + b)[1..] == a[1..] + b;
      assert Significant(a + b) == first + Significant(a[1..] + b);
      assert first + (Significant(a[1..]) + Significant(b)) == (first + Significant(a[1..])) + Significant(b);
    }
  }

  lemma {:induction false} AllSignificant(s: seq<Byte>)
    requires forall k :: 0 <= k < |s| ==> IsSignificant(s[k])
    ensures Significant(s) == s
  {
    if s != [] { AllSignificant(s[1..]); }
  }

  lemma EncodingIsSignificant(b: seq<Byte>)
    ensures Significant(Encoding(b) + [NEWLINE]) == Encoding(b)
  {
    forall k | 0 <= k < |Encoding(b)| ensures IsSignificant(Encoding(b)[k]) {
      if Quads(b)[k] < 64 { SextetInvertsAscii(Encoding(b)[k], Quads(b)[k]); }
    }
    AllSignificant(Encoding(b));
    SignificantConcat(Encoding(b), [NEWLINE]);
    SextetInvertsAscii(0, 0);
    assert Significant([NEWLINE]) == [];
  }

  /** Decoding any text whose alphabet and '=' characters are those of the encoding,
      whatever else stands between them, gives the bytes back. */
  lemma DecodeUndoesEncode(b: seq<Byte>, text: seq<Byte>)
    requires Significant(text) == Significant(Encoding(b) + [NEWLINE])
    ensures Decoded(text) == Ok(b)
  {
    EncodingIsSignificant(b);
    ScanIgnoresJunk(text, 0, false);
    ScanOfEncoding(b, 0, false);
    UnpackOfDigits(b);
  }

  // ---------- What the decoder refuses ----------

  /** How many alphabet characters a text has. */
  function Digits(s: seq<Byte>): nat {
    if s == [] then 0 else Digits(s[..|s| - 1]) + (if Sextet(s[|s| - 1]) != -1 then 1 else 0)
  }

  /** There is a '=' after the last alphabet character. */
  predicate EndsPadded(s: seq<Byte>) {
    s != [] && (s[|s| - 1] == PAD || (Sextet(s[|s| - 1]) == -1 && EndsPadded(s[..|s| - 1])))
  }

  /** The '=' at i is complete padding: three digits of a group stand before it, or two and
      another '=' after them. */
  predicate PadsAt(text: seq<Byte>, i: nat)
    requires i < |text|
  {
    var n := Digits(text[..i]);
    text[i] == PAD && (n % 4 == 3 || (n % 4 == 2 && EndsPadded(text[..i])))
  }

  /** Past a part of the text without complete padding the scan knows the number of
      digits and whether padding has begun. */
  lemma {:induction false} ScanPrefix(text: seq<Byte>, k: nat)
    requires k <= |text| && forall i :: 0 <= i < k ==> !PadsAt(text, i)
    ensures var (whole, r) := (Scan(text, 0, false), Scan(text[k..], Digits(text[..k]), EndsPadded(text[..k])));
            |whole.digits| == Digits(text[..k]) + |r.digits| && whole.complete == r.complete
    decreases k
  {
    hide Scan, Sextet;
    if k == 0 {
      assert text[0..] == text;
    } else {
      ScanPrefix(text, k - 1);
      var before, rest := text[..k - 1], text[k - 1..];
      assert text[..k][..k - 1] == before && rest[1..] == text[k..];
      assert !PadsAt(text, k - 1);
      ScanStep(rest, Digits(before), EndsPadded(before));
    }
  }

  lemma ScanStep(s: seq<Byte>, n: nat, padded: bool)
    requires s != []
    ensures Sextet(PAD) == -1
    ensures s[0] == PAD ==>
              Scan(s, n, padded) == if Completes(n, padded) then Scanned([], true) else Scan(s[1..], n, true)
    ensures s[0] != PAD && Sextet(s[0]) == -1 ==> Scan(s, n, padded) == Scan(s[1..], n, padded)
    ensures Sextet(s[0]) != -1 ==> |Scan(s, n, padded).digits| == 1 + |Scan(s[1..], n + 1, false).digits|
    ensures Sextet(s[0]) != -1 ==> Scan(s, n, padded).complete == Scan(s[1..], n + 1, false).complete
  {
    hide Sextet;
    PadIsNoDigit();
  }

  lemma PadIsNoDigit()
    ensures Sextet(PAD) == -1
  {
  }

  /** Where complete padding stands first, it ends the scan; without any the scan runs through. */
  lemma ScanEndsAt(text: seq<Byte>, k: nat)
    requires k <= |text| && (forall i :: 0 <= i < k ==> !PadsAt(text, i)) && (k < |text| ==> PadsAt(text, k))
    ensures var r := Scan(text, 0, false); |r.digits| == Digits(text[..k]) && (r.complete <==> k < |text|)
  {
    hide Scan, Digits, EndsPadded;
    ScanPrefix(text, k);
    if k < |text| {
      ScanStep(text[k..], Digits(text[..k]), EndsPadded(text[..k]));
    } else {
      assert text[k..] == [];
      ScanEnd(Digits(text[..k]), EndsPadded(text[..k]));
    }
  }

  /** A text is refused exactly when no '=' in it is complete padding and the number of its
      alphabet characters is no multiple of four. */
  lemma DecodeRefuses(text: seq<Byte>)
    ensures Decoded(text).ValueError? <==>
              (forall i :: 0 <= i < |text| ==> !PadsAt(text, i)) && Digits(text) % 4 != 0
  {
    hide Scan, PadsAt, Digits, Unpack;
    var k := FirstPad(text, 0);
    ScanEndsAt(text, k);
    assert text[..|text|] == text;
  }

  lemma FirstPad(text: seq<Byte>, from: nat) returns (k: nat)
    requires from <= |text| && forall i :: 0 <= i < from ==> !PadsAt(text, i)
    ensures k <= |text| && (forall i :: 0 <= i < k ==> !PadsAt(text, i)) && (k < |text| ==> PadsAt(text, k))
    decreases |text| - from
  {
    hide PadsAt;
    if from == |text| || PadsAt(text, from) { k := from; } else { k := FirstPad(text, from + 1); }
  }

  /** What is decoded has six bits for every alphabet character before the padding, whole
      bytes of them. */
  lemma DecodedSize(text: seq<Byte>, k: nat)
    requires k <= |text| && (forall i :: 0 <= i < k ==> !PadsAt(text, i)) && (k < |text| ==> PadsAt(text, k))
    requires Decoded(text).Ok?
    ensures |Decoded(text).bytes| == Digits(text[..k]) * 6 / 8
  {
    hide Scan, PadsAt, Digits, Unpack;
    ScanEndsAt(text, k);
    UnpackSize(Scan(text, 0, false).digits);
  }

  lemma {:induction false} UnpackSize(d: seq<Digit>)
    ensures |Unpack(d)| == |d| * 6 / 8
  {
    hide Value, LastByte;
    if |d| > 3 { UnpackSize(d[4..]); }
  }

  /** Encoding loses nothing: different bytes have different texts. */
  lemma EncodingIsInjective(a: seq<Byte>, b: seq<Byte>)
    requires Encoding(a) == Encoding(b)
    ensures a == b
  {
    DecodeUndoesEncode(a, Encoding(a) + [NEWLINE]);
    DecodeUndoesEncode(b, Encoding(a) + [NEWLINE]);
  }
}
