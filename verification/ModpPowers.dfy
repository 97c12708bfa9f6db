/** Montgomery representation, and the powers computed with it. */
module ModpPowers {
  import opened Words
  import opened Congruence
  import opened Modp

  /** a is the Montgomery representation of x. */
  ghost predicate Rep(a: int, x: int, p: int)
  {
    Cong(a, x * B31, p)
  }

  /** A modulus with its -1/p constant. */
  ghost predicate Field(p: int, p0i: int) {
    Modulus(p) && 0 <= p0i < B32 && NegInverse(p, p0i)
  }

  lemma CancelR(a: int, b: int, p: u32, p0i: u32)
    requires Field(p, p0i) && Cong(B31 * a, B31 * b, p)
    ensures Cong(a, b, p)
  {
    RInvSpec(p, p0i);
    hide Cong;
    CongCancel(a, b, B31, RInv(p, p0i), p);
  }

  lemma ProductFits(a: int, b: int, p: int)
    requires 0 <= a < p < B31 && 0 <= b < B31
    ensures a * b < B31 * p
  {
    MulMono(b, B31, a);
    assert B31 * a < B31 * p;
  }

  /** Two operands in Montgomery representation give the product in that representation. */
  lemma RepMul(a: u32, b: u32, x: int, y: int, p: u32, p0i: u32)
    requires Field(p, p0i) && a < p && b < p
    requires Rep(a, x, p) && Rep(b, y, p)
    ensures MontyMul(a, b, p, p0i) < p && Rep(MontyMul(a, b, p, p0i), x * y, p)
  {
    hide Cong, MontyMul;
    ProductFits(a, b, p);
    MontyMulSpec(a, b, p, p0i);
    var r := MontyMul(a, b, p, p0i);
    CongMul(a, x * B31, b, y * B31, p);
    CongTrans(B31 * r, a * b, (x * B31) * (y * B31), p);
    assert (x * B31) * (y * B31) == B31 * ((x * y) * B31) by { MulSwap(x, B31, y, B31); }
    CancelR(r, (x * y) * B31, p, p0i);
  }

  /** With one operand in Montgomery representation the product comes out plain. */
  lemma RepMulMixed(a: u32, b: u32, y: int, p: u32, p0i: u32)
    requires Field(p, p0i) && a < p && b < p && Rep(b, y, p)
    ensures MontyMul(a, b, p, p0i) < p && Cong(MontyMul(a, b, p, p0i), a * y, p)
  {
    hide Cong, MontyMul;
    ProductFits(a, b, p);
    MontyMulSpec(a, b, p, p0i);
    var r := MontyMul(a, b, p, p0i);
    CongScale(b, y * B31, a, p);
    CongTrans(B31 * r, a * b, a * (y * B31), p);
    assert a * (y * B31) == B31 * (a * y) by { MulAssoc(a, y, B31); }
    CancelR(r, a * y, p, p0i);
  }

  /** The value that a represents, reduced. */
  function Plain(a: u32, p: u32, p0i: u32): u32 {
    MontyMul(a, 1, p, p0i)
  }

  lemma PlainSpec(a: u32, p: u32, p0i: u32)
    requires Field(p, p0i) && a < p
    ensures Plain(a, p, p0i) < p && Rep(a, Plain(a, p, p0i), p)
  {
    hide Cong, MontyMul;
    ProductFits(a, 1, p);
    MontyMulSpec(a, 1, p, p0i);
    CongSym(B31 * Plain(a, p, p0i), a, p);
  }

  lemma RepUnique(a: int, x: int, y: int, p: u32, p0i: u32)
    requires Field(p, p0i) && Rep(a, x, p) && Rep(a, y, p)
    ensures Cong(x, y, p)
  {
    hide Cong;
    CongSym(a, x * B31, p);
    CongTrans(x * B31, a, y * B31, p);
    CancelR(x, y, p, p0i);
  }

  lemma RepOne(p: u32)
    requires Modulus(p)
    ensures R(p) < p && Rep(R(p), 1, p)
  {
    assert R(p) == B31 - p;
    ByQuotient(R(p), 1 * B31, p, -1);
  }

  // ---------------------------------------------------------------------
  // 2^62 mod p
  // ---------------------------------------------------------------------

  function R2(p: u32, p0i: u32): u32 {
    hide MontyMul, Add;
    var z0 := Add(R(p), R(p), p);
    var z1 := MontyMul(z0, z0, p, p0i);
    var z2 := MontyMul(z1, z1, p, p0i);
    var z3 := MontyMul(z2, z2, p, p0i);
    var z4 := MontyMul(z3, z3, p, p0i);
    var z5 := MontyMul(z4, z4, p, p0i);
    Half(z5, p)
  }

  function Half(z: u32, p: u32): u32 {
    W32(z + Mask(z % 2, p)) / 2
  }

  lemma HalfSpec(z: u32, c: int, p: u32)
    requires Modulus(p) && z < p && Cong(z, 2 * c, p)
    ensures Half(z, p) < p && Cong(Half(z, p), c, p)
  {
    var h := Half(z, p);
    HalfValue(z, p);
    hide Half, Cong;
    ByQuotient(2 * h, z, p, if z % 2 == 1 then 1 else 0);
    CongTrans(2 * h, z, 2 * c, p);
    ByQuotient(2 * ((p + 1) / 2), 1, p, 1);
    CongCancel(h, c, 2, (p + 1) / 2, p);
  }

  lemma HalfValue(z: u32, p: u32)
    requires Modulus(p) && z < p
    ensures 2 * Half(z, p) == if z % 2 == 1 then z + p else z
  {
  }

  /** R2 is 2^62 modulo p. */
  lemma R2Spec(p: u32, p0i: u32)
    requires Field(p, p0i)
    ensures R2(p, p0i) < p && R2(p, p0i) == (B31 * B31) % p && Rep(R2(p, p0i), B31, p)
  {
    hide Cong, MontyMul, Add, Half;
    RepOne(p);
    var r := R(p);
    AddSpec(r, r, p);
    var z0 := Add(r, r, p);
    CongAdd(r, 1 * B31, r, 1 * B31, p);
    CongTrans(z0, r + r, 2 * B31, p);
    var z1 := MontyMul(z0, z0, p, p0i);
    RepMul(z0, z0, 2, 2, p, p0i);
    var z2 := MontyMul(z1, z1, p, p0i);
    RepMul(z1, z1, 4, 4, p, p0i);
    var z3 := MontyMul(z2, z2, p, p0i);
    RepMul(z2, z2, 16, 16, p, p0i);
    var z4 := MontyMul(z3, z3, p, p0i);
    RepMul(z3, z3, 256, 256, p, p0i);
    var z5 := MontyMul(z4, z4, p, p0i);
    RepMul(z4, z4, 65536, 65536, p, p0i);
    HalfSpec(z5, B31 * B31, p);
    CongModEq(R2(p, p0i), B31 * B31, p);
    SmallMod(R2(p, p0i), p);
  }

  // ---------------------------------------------------------------------
  // Square and multiply
  // ---------------------------------------------------------------------

  lemma ModDouble(x: nat, m: nat)
    requires m > 0
    ensures x % (2 * m) == x % m + m * ((x / m) % 2)
  {
    hide Cong;
    var q := x / m;
    var b := q % 2;
    var r := x % m + m * b;
    assert q == 2 * (q / 2) + b;
    DoubledQuotient(x, m, q, q / 2, b, x % m);
    ByQuotient(x, r, 2 * m, q / 2);
    CongModEq(x, r, 2 * m);
    SmallMod(r, 2 * m);
  }

  lemma DoubledQuotient(x: int, m: int, q: int, h: int, b: int, r: int)
    requires x == m * q + r && q == 2 * h + b && 0 <= b <= 1 && 0 <= r < m
    ensures x - (r + m * b) == (2 * m) * h && 0 <= r + m * b < 2 * m
  {
    assert m * (2 * h + b) == (2 * m) * h + m * b;
    if b == 0 { assert m * b == 0; } else { assert m * b == m; }
  }

  lemma DivHalf(x: nat, m: nat)
    requires m > 0
    ensures x / m == 2 * (x / (2 * m)) + (x / m) % 2
  {
    var q := x / m;
    var h := x / (2 * m);
    ModDouble(x, m);
    assert x == (2 * m) * h + x % (2 * m);
    assert x == m * q + x % m;
    assert m * q == m * (2 * h + q % 2) by {
      assert m * (2 * h + q % 2) == (2 * m) * h + m * (q % 2);
    }
    assert m * (q - (2 * h + q % 2)) == 0;
    if q - (2 * h + q % 2) > 0 {
      MulPos(m, q - (2 * h + q % 2));
    } else if q - (2 * h + q % 2) < 0 {
      MulPos(m, (2 * h + q % 2) - q);
    }
  }

  /** One squaring step, as both loops below take it. */
  lemma RepPowDouble(z: u32, c: int, e: nat, p: u32, p0i: u32)
    requires Field(p, p0i) && z < p && Rep(z, Pow(c, e), p)
    ensures MontyMul(z, z, p, p0i) < p && Rep(MontyMul(z, z, p, p0i), Pow(c, 2 * e), p)
  {
    hide Cong, MontyMul;
    RepMul(z, z, Pow(c, e), Pow(c, e), p, p0i);
    PowAdd(c, e, e);
  }

  lemma RepPowMul(z: u32, r: u32, c: int, d: nat, e: nat, p: u32, p0i: u32)
    requires Field(p, p0i) && z < p && r < p && Rep(z, Pow(c, d), p) && Rep(r, Pow(c, e), p)
    ensures MontyMul(z, r, p, p0i) < p && Rep(MontyMul(z, r, p, p0i), Pow(c, d + e), p)
  {
    hide Cong, MontyMul;
    RepMul(z, r, Pow(c, d), Pow(c, e), p, p0i);
    PowAdd(c, d, e);
  }

  /** One round of right-to-left exponentiation: bit m of e moves into the result. */
  lemma RxStep(z: u32, r: u32, c: int, e: nat, m: nat, p: u32, p0i: u32)
    requires Field(p, p0i) && z < p && r < p && m > 0
    requires Rep(z, Pow(c, e % m), p) && Rep(r, Pow(c, m), p)
    ensures MontyMul(r, r, p, p0i) < p && Rep(MontyMul(r, r, p, p0i), Pow(c, 2 * m), p)
    ensures MontyMul(z, r, p, p0i) < p
    ensures (e / m) % 2 != 0 ==> Rep(MontyMul(z, r, p, p0i), Pow(c, e % (2 * m)), p)
    ensures (e / m) % 2 == 0 ==> Rep(z, Pow(c, e % (2 * m)), p)
  {
    hide Rep, MontyMul, Pow;
    ModDouble(e, m);
    RepPowDouble(r, c, m, p, p0i);
    RepPowMul(z, r, c, e % m, m, p, p0i);
  }

  lemma ReducedRep(z: u32, x: int, y: int, p: u32)
    requires Modulus(p) && z < p && Rep(z, x, p) && x * B31 == y
    ensures z == y % p
  {
    hide Cong;
    CongModEq(z, y, p);
    SmallMod(z, p);
  }

  /** 2^(31*x) modulo p. */
  method Rx(x: u32, p: u32, p0i: u32, r2: u32) returns (z: u32)
    requires Field(p, p0i) && 1 <= x <= B31 && r2 == R2(p, p0i)
    ensures z < p && z == Pow(B31, x) % p
  {
    var e: nat := x - 1;
    var r: u32 := r2;
    z := R(p);
    var bit: nat := 1;
    assert Pow(B31, 1) == B31 && Pow(B31, 0) == 1;
    assert Pow(B31, x) == Pow(B31, e) * B31;
    assert e % bit == 0;
    hide Cong, MontyMul, R2, Rep, Pow, NegInverse;
    R2Spec(p, p0i);
    RepOne(p);
    while bit <= e
      invariant 1 <= bit && r < p && z < p
      invariant Rep(z, Pow(B31, e % bit), p)
      invariant Rep(r, Pow(B31, bit), p)
    {
      RxStep(z, r, B31, e, bit, p, p0i);
      if (e / bit) % 2 != 0 {
        z := MontyMul(z, r, p, p0i);
      }
      r := MontyMul(r, r, p, p0i);
      bit := 2 * bit;
    }
    SmallMod(e, bit);
    ReducedRep(z, Pow(B31, e), Pow(B31, x), p);
  }

  /** One round of left-to-right exponentiation: e/m has one more bit than e/(2m). */
  lemma DivStep(z: u32, b: u32, c: int, e: nat, m: nat, p: u32, p0i: u32)
    requires Field(p, p0i) && z < p && b < p && m > 0
    requires Rep(z, Pow(c, Quo(e, 2 * m)), p) && Rep(b, c, p)
    ensures var s := MontyMul(z, z, p, p0i); var t := MontyMul(s, b, p, p0i);
      s < p && t < p && Rep(if (e / m) % 2 == 1 then t else s, Pow(c, Quo(e, m)), p)
  {
    assert Pow(c, 1) == c * Pow(c, 0);
    assert Pow(c, 0) == 1;
    hide Rep, MontyMul, Pow;
    DivHalf(e, m);
    RepPowDouble(z, c, Quo(e, 2 * m), p, p0i);
    RepPowMul(MontyMul(z, z, p, p0i), b, c, 2 * Quo(e, 2 * m), 1, p, p0i);
  }

  /** a/b modulo p, by raising b to the power p-2. */
  method Div(a: u32, b: u32, p: u32, p0i: u32, r: u32) returns (d: u32)
    requires Field(p, p0i) && a < p && b < p && r == R(p)
    ensures d < p && Cong(d, a * Pow(Plain(b, p, p0i), p - 2) * RInv(p, p0i), p)
  {
    var e: nat := p - 2;
    ghost var c := Plain(b, p, p0i);
    assert Pow(c, 0) == 1;
    assert Pow(2, 31) == B31 by { Pow2Values(); }
    assert Pow(2, 0) == 1;
    assert e / B31 == 0 && e / 1 == e;
    PlainSpec(b, p, p0i);
    RepOne(p);
    hide Cong, MontyMul, Plain, RInv, Rep, NegInverse;
    var z: u32 := r;
    var i: nat := 31;
    while i > 0
      invariant i <= 31 && z < p && Pow(2, i) > 0
      invariant Rep(z, Pow(c, Quo(e, Pow(2, i))), p)
    {
      i := i - 1;
      assert Pow(2, i + 1) == 2 * Pow(2, i);
      var bit: nat := Pow(2, i);
      hide Pow;
      PowPos(2, i);
      DivStep(z, b, c, e, bit, p, p0i);
      z := MontyMul(z, z, p, p0i);
      var z2: u32 := MontyMul(z, b, p, p0i);
      if (e / bit) % 2 == 1 {
        z := z2;
      }
    }
    d := DivTail(a, z, p, p0i, Pow(c, e));
  }

  /** The two multiplications that remove the Montgomery factors. */
  method DivTail(a: u32, z: u32, p: u32, p0i: u32, ghost w: int) returns (d: u32)
    requires Field(p, p0i) && a < p && z < p && Rep(z, w, p)
    ensures d < p && Cong(d, a * w * RInv(p, p0i), p)
  {
    hide Cong, MontyMul, Rep, NegInverse, RInv;
    PlainSpec(z, p, p0i);
    var y: u32 := MontyMul(z, 1, p, p0i);
    RepUnique(z, y, w, p, p0i);
    ProductFits(a, y, p);
    MontyMulSpec(a, y, p, p0i);
    d := MontyMul(a, y, p, p0i);
    CongScale(y, w, a, p);
    CongScale(a * y, a * w, RInv(p, p0i), p);
    CongTrans(d, a * y * RInv(p, p0i), a * w * RInv(p, p0i), p);
  }

  lemma Pow2Values()
    ensures Pow(2, 10) == 1024 && Pow(2, 31) == B31
  {
    assert Pow(2, 10) == 1024;
    PowAdd(2, 10, 10);
    PowAdd(2, 20, 10);
    PowAdd(2, 30, 1);
  }

  /** Where Fermat's little theorem holds for b, Div really divides. */
  lemma DivInverts(a: u32, b: u32, d: int, p: u32, p0i: u32)
    requires Field(p, p0i) && a < p && b < p
    requires Cong(d, a * Pow(Plain(b, p, p0i), p - 2) * RInv(p, p0i), p)
    requires Cong(Pow(Plain(b, p, p0i), p - 1), 1, p)
    ensures Cong(d * b, a, p)
  {
    hide Cong, MontyMul, Plain, RInv;
    var c, i := Plain(b, p, p0i), RInv(p, p0i);
    var w := Pow(c, p - 2);
    PlainSpec(b, p, p0i);
    CongMul(d, a * w * i, b, c * B31, p);
    assert (a * w * i) * (c * B31) == (a * (c * w)) * (B31 * i) by {
      MulSwap(a * w, i, c, B31);
      assert (a * w) * c == a * (c * w) by { MulAssoc(a, w, c); }
    }
    RInvSpec(p, p0i);
    CongScale(c * w, 1, a, p);
    CongMul(a * (c * w), a, B31 * i, 1, p);
    CongTrans(d * b, (a * (c * w)) * (B31 * i), a, p);
  }
}
