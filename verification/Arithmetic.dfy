/** Bytes, and division and remainder facts the solver does not find by itself. */
module Arithmetic {
  type Byte = x: int | 0 <= x < 256

  function Pow2(k: nat): (p: nat)
    ensures p > 0
  {
    if k == 0 then 1 else 2 * Pow2(k - 1)
  }

  /** Bit k of x. */
  predicate BitSet(x: nat, k: nat) { x / Pow2(k) % 2 == 1 }

  lemma ModUnique(x: int, d: nat, q: int, r: nat)
    requires d > 0 && r < d && x == d * q + r
    ensures x % d == r && x / d == q
  {
    var q', r' := x / d, x % d;
    assert x == d * q' + r';
    assert d * (q - q') == r' - r;
    if q - q' >= 1 { MulAtLeast(d, q - q'); }
    if q' - q >= 1 { MulAtLeast(d, q' - q); }
  }

  lemma MulAtLeast(d: nat, n: nat)
    requires n >= 1
    ensures d * n >= d
  {
  }

  lemma HalfMod(x: nat, p: nat)
    requires p > 0
    ensures x % (2 * p) == 2 * ((x / 2) % p) + x % 2
  {
    var q, r := (x / 2) / p, (x / 2) % p;
    assert x / 2 == p * q + r;
    assert (2 * p) * q == 2 * (p * q);
    ModUnique(x, 2 * p, q, 2 * r + x % 2);
  }

  lemma DroppingTheRemainder(x: nat, p: nat)
    requires p > 0
    ensures (x - x % p) % p == 0
  {
    assert x == p * (x / p) + x % p;
    ModUnique(p * (x / p), p, x / p, 0);
  }

  lemma Base256Step(val: int, p: nat)
    requires p > 0
    ensures val % (256 * p) == val % 256 + 256 * ((val / 256) % p)
  {
    var y := val / 256;
    var q, r := y / p, y % p;
    assert y == p * q + r;
    assert val == 256 * (p * q) + (256 * r + val % 256);
    assert (256 * p) * q == 256 * (p * q);
    ModUnique(val, 256 * p, q, 256 * r + val % 256);
  }

  lemma DivTwice(w: int, p: nat)
    requires p > 0
    ensures w / 256 / p == w / (256 * p)
  {
    var y := w / 256;
    var q := y / p;
    Base256Step(w, p);
    assert w == 256 * y + w % 256 && y == p * q + y % p;
    assert (256 * p) * q == 256 * (p * q);
    assert w == (256 * p) * q + w % (256 * p);
    assert w == (256 * p) * (w / (256 * p)) + w % (256 * p);
    SameFactor(256 * p, q, w / (256 * p));
  }

  /** A remainder modulo a multiple of d keeps the remainder modulo d. */
  lemma ModMod(x: int, d: nat, t: nat)
    requires d > 0 && t > 0
    ensures d * t > 0 && x % (d * t) % d == x % d
  {
    MulAtLeast(d, t);
    var y := x % (d * t);
    assert x == (d * t) * (x / (d * t)) + y;
    assert (d * t) * (x / (d * t)) == d * (t * (x / (d * t)));
    ModUnique(x, d, t * (x / (d * t)) + y / d, y % d);
  }

  lemma SameFactor(d: nat, a: int, b: int)
    requires d > 0 && d * a == d * b
    ensures a == b
  {
    assert d * (a - b) == 0;
    if a > b { MulAtLeast(d, a - b); }
    if b > a { MulAtLeast(d, b - a); }
  }
}
