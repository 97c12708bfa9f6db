/** Arithmetic modulo a 31-bit prime: the modp_* functions of keygen.c. */
module Modp {
  import opened Words
  import opened Congruence

  /** The moduli these functions accept: odd and on exactly 31 bits. */
  ghost predicate Modulus(p: int) {
    B31 / 2 < p < B31 && p % 2 == 1
  }

  /** p0i is -1/p modulo 2^31. */
  ghost predicate NegInverse(p: int, p0i: int) {
    (p * p0i + 1) % B31 == 0
  }

  // ---------------------------------------------------------------------
  // Scalar operations
  // ---------------------------------------------------------------------

  function Set(x: int, p: u32): u32 {
    var w := W32(x);
    W32(w + Mask(w / B31, p))
  }

  /** The representative of x in (-p/2, p/2], as an int32_t. */
  function Normalize(x: u32, p: u32): int {
    var d := W32(x - W32(p + 1) / 2);
    var y := W32(x - Mask(W32(d / B31 - 1), p));
    if y < B31 then y else y - B32
  }

  function R(p: u32): u32 {
    W32(B31 - p)
  }

  function Add(a: u32, b: u32, p: u32): u32 {
    var d := W32(W32(a + b) - p);
    W32(d + Mask(d / B31, p))
  }

  function Sub(a: u32, b: u32, p: u32): u32 {
    var d := W32(a - b);
    W32(d + Mask(d / B31, p))
  }

  function MontyMul(a: u32, b: u32, p: u32, p0i: u32): u32 {
    var z := W64(a * b);
    var w := W64((W64(z * p0i) % B31) * p);
    MontyTail(W64(z + w) / B31, p)
  }

  /** The final conditional subtraction of p. */
  function MontyTail(t: int, p: u32): u32 {
    var d := W32(W32(t) - p);
    W32(d + Mask(d / B31, p))
  }

  /** Set without its bit tricks; likewise NormalizeValue, AddValue and SubValue below. */
  lemma SetValue(x: int, p: u32)
    requires Modulus(p) && 0 - p < x < p
    ensures Set(x, p) == if x < 0 then x + p else x
  {
  }

  lemma NormalizeValue(x: u32, p: u32)
    requires Modulus(p) && x < p
    ensures Normalize(x, p) == if 2 * x > p then x - p else x
  {
  }

  lemma AddValue(a: u32, b: u32, p: u32)
    requires Modulus(p) && a < p && b < p
    ensures Add(a, b, p) == if a + b >= p then a + b - p else a + b
  {
  }

  lemma SubValue(a: u32, b: u32, p: u32)
    requires Modulus(p) && a < p && b < p
    ensures Sub(a, b, p) == if a < b then a - b + p else a - b
  {
  }

  /** A reduced value that differs from x by a multiple of p is x mod p. */
  lemma Reduced(r: int, x: int, p: int, k: int)
    requires 0 <= r < p && r - x == p * k
    ensures r == x % p && Cong(r, x, p)
  {
    hide Cong;
    ByQuotient(r, x, p, k);
    CongModEq(r, x, p);
    SmallMod(r, p);
  }

  lemma SmallMod(r: int, p: int)
    requires 0 <= r < p
    ensures r % p == r
  {
  }

  lemma SetSpec(x: int, p: u32)
    requires Modulus(p) && 0 - p < x < p
    ensures Set(x, p) < p && Set(x, p) == x % p && Cong(Set(x, p), x, p)
  {
    hide Set, Cong;
    SetValue(x, p);
    Reduced(Set(x, p), x, p, if x < 0 then 1 else 0);
  }

  lemma NormalizeSpec(x: u32, p: u32)
    requires Modulus(p) && x < p
    ensures 0 - p < 2 * Normalize(x, p) < p && Cong(Normalize(x, p), x, p)
  {
    hide Normalize, Cong;
    NormalizeValue(x, p);
    ByQuotient(Normalize(x, p), x, p, if 2 * x > p then -1 else 0);
  }

  lemma AddSpec(a: u32, b: u32, p: u32)
    requires Modulus(p) && a < p && b < p
    ensures Add(a, b, p) < p && Add(a, b, p) == (a + b) % p && Cong(Add(a, b, p), a + b, p)
  {
    hide Add, Cong;
    AddValue(a, b, p);
    Reduced(Add(a, b, p), a + b, p, if a + b >= p then -1 else 0);
  }

  lemma SubSpec(a: u32, b: u32, p: u32)
    requires Modulus(p) && a < p && b < p
    ensures Sub(a, b, p) < p && Sub(a, b, p) == (a - b) % p && Cong(Sub(a, b, p), a - b, p)
  {
    hide Sub, Cong;
    SubValue(a, b, p);
    Reduced(Sub(a, b, p), a - b, p, if a < b then 1 else 0);
  }

  /** The inverse of 2^31 modulo p that goes with p0i. */
  ghost function RInv(p: int, p0i: int): int {
    (p * p0i + 1) / B31
  }

  lemma RInvSpec(p: u32, p0i: u32)
    requires Modulus(p) && NegInverse(p, p0i)
    ensures Cong(B31 * RInv(p, p0i), 1, p)
  {
    ByQuotient(B31 * RInv(p, p0i), 1, p, p0i);
  }

  /** Montgomery reduction: the added multiple of p clears the low 31 bits. */
  lemma MontyClears(z: int, p: int, p0i: int)
    requires NegInverse(p, p0i)
    ensures (z + ((z * p0i) % B31) * p) % B31 == 0
  {
    var q, e := (z * p0i) / B31, (z * p0i) % B31;
    var k := (p * p0i + 1) / B31;
    calc {
      z + e * p;
      z + (z * p0i - B31 * q) * p;
      { assert (z * p0i - B31 * q) * p == (z * p0i) * p - (B31 * q) * p; MulAssoc(z, p0i, p); MulAssoc(B31, q, p); }
      z + z * (p0i * p) - B31 * (q * p);
      z * (p * p0i + 1) - B31 * (q * p);
      z * (B31 * k) - B31 * (q * p);
      B31 * (z * k) - B31 * (q * p);
      B31 * (z * k - q * p);
    }
    MultipleMod(B31, z * k - q * p);
  }

  lemma ModMod64(x: int)
    ensures (x % B64) % B31 == x % B31
  {
    assert x == B64 * (x / B64) + x % B64;
    assert B64 == B31 * (2 * B32);
  }

  lemma MontyMulUnfold(a: u32, b: u32, p: u32, p0i: u32, z: int, e: int, w: int)
    requires z == a * b && e == (z * p0i) % B31 && w == e * p
    requires 0 <= z && 0 <= w && z + w < B64
    ensures MontyMul(a, b, p, p0i) == MontyTail((z + w) / B31, p)
  {
    hide MontyTail;
    ModMod64(z * p0i);
    assert W64(a * b) == z;
    assert W64(z * p0i) % B31 == e;
    assert W64(e * p) == w;
    assert W64(z + w) == z + w;
  }

  /** No intermediate value of the Montgomery product overflows. */
  lemma MontyMulValue(a: u32, b: u32, p: u32, p0i: u32, z: int, e: int, w: int, d: int)
    requires Modulus(p) && z == a * b && z < B31 * p && e == (z * p0i) % B31 && w == e * p
    requires z + w == B31 * d
    ensures d < 2 * p && MontyMul(a, b, p, p0i) == if d < p then d else d - p
  {
    hide MontyMul, MontyTail;
    assert 0 <= z by { MulMono(0, a, b); }
    assert 0 <= w <= (B31 - 1) * p by {
      MulMono(e, B31 - 1, p);
      MulMono(0, e, p);
    }
    assert z + w < 2 * (B31 * p);
    MontyMulUnfold(a, b, p, p0i, z, e, w);
    TailValue(d, p);
  }

  lemma TailValue(d: int, p: u32)
    requires Modulus(p) && 0 <= d < 2 * p
    ensures MontyTail(d, p) == if d < p then d else d - p
  {
  }

  lemma MontyMulExact(a: u32, b: u32, p: u32, p0i: u32) returns (k: int)
    requires Modulus(p) && NegInverse(p, p0i) && a * b < B31 * p
    ensures MontyMul(a, b, p, p0i) < p
    ensures B31 * MontyMul(a, b, p, p0i) == a * b + p * k
  {
    hide MontyMul;
    var z := a * b;
    var e := (z * p0i) % B31;
    var w := e * p;
    MulMono(0, a, b);
    MulMono(0, e, p);
    MontyClears(z, p, p0i);
    var d := (z + w) / B31;
    assert z + w == B31 * d;
    MontyMulValue(a, b, p, p0i, z, e, w, d);
    k := if d < p then e else e - B31;
    assert p * (e - B31) == p * e - p * B31;
  }

  lemma MontyMulSpec(a: u32, b: u32, p: u32, p0i: u32)
    requires Modulus(p) && NegInverse(p, p0i) && a * b < B31 * p
    ensures MontyMul(a, b, p, p0i) < p
    ensures Cong(B31 * MontyMul(a, b, p, p0i), a * b, p)
    ensures Cong(MontyMul(a, b, p, p0i), a * b * RInv(p, p0i), p)
    ensures MontyMul(a, b, p, p0i) == (a * b * RInv(p, p0i)) % p
  {
    hide Cong, RInv, MontyMul, NegInverse;
    var k := MontyMulExact(a, b, p, p0i);
    var r, i := MontyMul(a, b, p, p0i), RInv(p, p0i);
    ByQuotient(B31 * r, a * b, p, k);
    assert Cong(r, a * b * i, p) by {
      RInvSpec(p, p0i);
      CongScale(B31 * r, a * b, i, p);
      CongScale(B31 * i, 1, r, p);
      assert r * (B31 * i) == B31 * r * i by { MulAssoc(r, B31, i); }
      CongSym(r * (B31 * i), r, p);
      CongTrans(r, r * (B31 * i), a * b * i, p);
    }
    CongModEq(r, a * b * i, p);
    SmallMod(r, p);
  }

  // ---------------------------------------------------------------------
  // Constants derived from a modulus
  // ---------------------------------------------------------------------

  function NewtonStep(p: u32, y: u32): u32 {
    W32(y * W32(2 - W32(p * y)))
  }

  function NInv31(p: u32): u32 {
    hide NewtonStep;
    var y0 := W32(2 - p);
    var y1 := NewtonStep(p, y0);
    var y2 := NewtonStep(p, y1);
    var y3 := NewtonStep(p, y2);
    var y4 := NewtonStep(p, y3);
    W32(0 - y4) % B31
  }

  /** Each Newton step squares the error of the inverse. */
  lemma NewtonSquares(p: u32, y: u32, m: int, n: int)
    requires m > 0 && n > 0 && m * m * n == B32
    requires (p * y - 1) % m == 0
    ensures m * m > 0 && (p * NewtonStep(p, y) - 1) % (m * m) == 0
  {
    var e := (p * y - 1) / m;
    var c := m * e;
    assert p * y == 1 + c;
    var y' := NewtonStep(p, y);
    var u, q := NewtonSplit(p, y);
    NewtonAlgebra(p, y, c, u, q, y');
    hide NewtonStep;
    MulSwap(m, e, m, e);
    var X := (1 + c) * u - p * q;
    Collect(p * y' - 1, c * c, X, m * m, n, e * e);
    MulPos(m, m);
    MultipleMod(m * m, n * X - e * e);
  }

  lemma NewtonSplit(p: u32, y: u32) returns (u: int, q: int)
    ensures NewtonStep(p, y) == y * (2 - p * y + B32 * u) - B32 * q
  {
    hide W32;
    Split32(p * y);
    Split32(2 - W32(p * y));
    u := (p * y) / B32 - (2 - W32(p * y)) / B32;
    var t := W32(2 - W32(p * y));
    assert t == 2 - p * y + B32 * u;
    Split32(y * t);
    q := (y * t) / B32;
  }

  lemma NewtonAlgebra(p: int, y: int, c: int, u: int, q: int, y': int)
    requires p * y == 1 + c
    requires y' == y * (2 - p * y + B32 * u) - B32 * q
    ensures p * y' - 1 == -(c * c) + B32 * ((1 + c) * u - p * q)
  {
    var t := 2 - p * y + B32 * u;
    calc {
      p * y';
      p * (y * t) - p * (B32 * q);
      { MulAssoc(p, y, t); }
      (1 + c) * t - B32 * (p * q);
      (1 + c) * (1 - c + B32 * u) - B32 * (p * q);
      { Expand(c, u); }
      1 - c * c + B32 * ((1 + c) * u) - B32 * (p * q);
    }
  }

  lemma Split32(x: int)
    ensures x == B32 * (x / B32) + W32(x)
  {
  }

  lemma Expand(c: int, u: int)
    ensures (1 + c) * (1 - c + B32 * u) == 1 - c * c + B32 * ((1 + c) * u)
  {
  }

  lemma Collect(d: int, s: int, x: int, m: int, n: int, e: int)
    requires d == -s + B32 * x && s == m * e && m * n == B32
    ensures d == m * (n * x - e)
  {
    MulAssoc(m, n, x);
    assert m * (n * x - e) == m * (n * x) - m * e;
  }

  lemma NInv31Spec(p: u32)
    requires p % 2 == 1
    ensures NInv31(p) < B31 && NegInverse(p, NInv31(p))
  {
    var y0 := W32(2 - p);
    NewtonStart(p);
    hide NewtonStep;
    var y1 := NewtonStep(p, y0);
    NewtonSquares(p, y0, 4, 0x1000_0000);
    var y2 := NewtonStep(p, y1);
    NewtonSquares(p, y1, 16, 0x100_0000);
    var y3 := NewtonStep(p, y2);
    NewtonSquares(p, y2, 256, 0x1_0000);
    var y4 := NewtonStep(p, y3);
    NewtonSquares(p, y3, 65536, 1);
    NegateInverse(p, y4);
  }

  lemma NewtonStart(p: u32)
    requires p % 2 == 1
    ensures (p * W32(2 - p) - 1) % 4 == 0
  {
    var h, q := (p - 1) / 2, (2 - p) / B32;
    Split32(2 - p);
    OddSquare(p, h, q, W32(2 - p));
    MultipleMod(4, -(h * h) - (B32 / 4) * (p * q));
  }

  lemma OddSquare(p: int, h: int, q: int, y: int)
    requires p == 2 * h + 1 && 2 - p == B32 * q + y
    ensures p * y - 1 == 4 * (-(h * h) - (B32 / 4) * (p * q))
  {
    assert p * (B32 * q) == B32 * (p * q);
    assert p * y == p * (2 - p) - p * (B32 * q);
    assert (2 * h + 1) * (1 - 2 * h) == 1 - 4 * (h * h);
  }

  lemma NegateInverse(p: u32, y: u32)
    requires (p * y - 1) % B32 == 0
    ensures NegInverse(p, W32(0 - y) % B31)
  {
    var e := (p * y - 1) / B32;
    assert p * y - 1 == B32 * e;
    hide NegInverse;
    NegativeLow(p, y, W32(0 - y) % B31, e);
  }

  lemma NegativeLow(p: int, y: u32, i: int, e: int)
    requires p * y - 1 == B32 * e && i == W32(0 - y) % B31
    ensures NegInverse(p, i)
  {
    var k := (0 - y - i) / B31;
    LowNegated(y, i, k);
    NegatedProduct(p, y, i, k, e);
    MultipleMod(B31, -2 * e - p * k);
  }

  lemma LowNegated(y: u32, i: int, k: int)
    requires i == W32(0 - y) % B31 && k == (0 - y - i) / B31
    ensures 0 - y == B31 * k + i
  {
  }

  lemma NegatedProduct(p: int, y: int, i: int, k: int, e: int)
    requires 0 - y == B31 * k + i && p * y - 1 == B32 * e
    ensures p * i + 1 == B31 * (-2 * e - p * k)
  {
    assert i == 0 - y - B31 * k;
    assert p * (0 - y - B31 * k) == 0 - p * y - B31 * (p * k) by {
      assert p * (B31 * k) == B31 * (p * k);
    }
  }
}
