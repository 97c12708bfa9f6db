/** Emulated fpr_mul of fpr.c. */
module FprMul {
  import opened Words
  import opened Fpr

  const T25: nat := 0x200_0000
  const T50: nat := 0x4_0000_0000_0000

  /**
   * The product of two 53-bit integers by 25-bit limbs, without its 50 low bits, which become
   * sticky. No intermediate value overflows its C type.
   */
  function ProductTop(xu: nat, yu: nat): u64
    requires xu < T53 && yu < T53
  {
    LimbBounds(xu, yu);
    var x0: u32, x1: u32, y0: u32, y1: u32 := xu % T25, xu / T25, yu % T25, yu / T25;
    var w0: u64, w1: u64, w2: u64, w3: u64 := x0 * y0, x0 * y1, x1 * y0, x1 * y1;
    var z0: u32 := w0 % T25;
    var z1: u32 := w0 / T25 + w1 % T25 + w2 % T25;
    var z2: u32 := w1 / T25 + w2 / T25 + z1 / T25;
    WithSticky(w3 + z2, z0 != 0 || z1 % T25 != 0)
  }

  lemma SmallProduct(a: int, b: int, m: int, n: int)
    requires 0 <= a < m && 0 <= b < n
    ensures 0 <= a * b <= (m - 1) * (n - 1)
  {
    MulMono(a, m - 1, b);
    MulMono(b, n - 1, m - 1);
    MulMono(0, a, b);
    assert (m - 1) * b == b * (m - 1) && (n - 1) * (m - 1) == (m - 1) * (n - 1);
  }

  lemma LimbBounds(xu: nat, yu: nat)
    requires xu < T53 && yu < T53
    ensures var x0, x1, y0, y1 := xu % T25, xu / T25, yu % T25, yu / T25;
      x1 < 0x1000_0000 && y1 < 0x1000_0000 &&
      0 <= x0 * y0 <= 0x3_FFFF_FC00_0001 && 0 <= x0 * y1 <= 0x20_0000_0000_0000 && 0 <= x1 * y0 <= 0x20_0000_0000_0000 &&
      0 <= x1 * y1 <= 0xFF_FFFF_E000_0001
  {
    var x0, x1, y0, y1 := xu % T25, xu / T25, yu % T25, yu / T25;
    SmallProduct(x0, y0, T25, T25);
    SmallProduct(x0, y1, T25, 0x1000_0000);
    SmallProduct(x1, y0, 0x1000_0000, T25);
    SmallProduct(x1, y1, 0x1000_0000, 0x1000_0000);
  }

  /** The schoolbook identity on limbs of 25 bits. */
  lemma LimbProduct(x0: int, x1: int, y0: int, y1: int)
    ensures (x1 * T25 + x0) * (y1 * T25 + y0) == (x1 * y1) * T50 + (x0 * y1 + x1 * y0) * T25 + x0 * y0
  {
    var a := x1 * T25;
    assert (a + x0) * (y1 * T25 + y0) == a * (y1 * T25) + a * y0 + x0 * (y1 * T25) + x0 * y0;
    assert a * (y1 * T25) == (x1 * y1) * T50;
    assert a * y0 == (x1 * y0) * T25;
    assert x0 * (y1 * T25) == (x0 * y1) * T25;
  }

  lemma CarryOut(w0: nat, w1: nat, w2: nat, w3: nat, n: nat)
    requires n == w3 * T50 + (w1 + w2) * T25 + w0
    ensures var z0, z1 := w0 % T25, w0 / T25 + w1 % T25 + w2 % T25;
      n / T50 == w3 + w1 / T25 + w2 / T25 + z1 / T25 && (n % T50 == 0 <==> z0 == 0 && z1 % T25 == 0)
  {
    var z0, z1 := w0 % T25, w0 / T25 + w1 % T25 + w2 % T25;
    var zu := w3 + w1 / T25 + w2 / T25 + z1 / T25;
    assert n == zu * T50 + (z1 % T25) * T25 + z0;
  }

  /** The limb arithmetic is exact down to bit 50 and sticky below. */
  lemma ProductIs(xu: nat, yu: nat)
    requires xu < T53 && yu < T53
    ensures ProductTop(xu, yu) == StickyShift(xu * yu, T50)
  {
    hide StickyShift;
    LimbBounds(xu, yu);
    var x0, x1, y0, y1 := xu % T25, xu / T25, yu % T25, yu / T25;
    assert xu == x1 * T25 + x0 && yu == y1 * T25 + y0;
    LimbProduct(x0, x1, y0, y1);
    CarryOut(x0 * y0, x0 * y1, x1 * y0, x1 * y1, xu * yu);
    ShiftIs(xu * yu, ProductTop(xu, yu));
  }

  lemma ShiftIs(n: nat, r: nat)
    requires r == WithSticky(n / T50, n % T50 != 0)
    ensures r == StickyShift(n, T50)
  {
  }

  /** fpr_mul */
  function Mul(x: u64, y: u64): u64 {
    var zu := ProductTop(Significand(x), Significand(y));
    var w, zv := TopBit(zu), Shrink(zu);
    var ex, ey := Exponent(x), Exponent(y);
    var e := ex + ey - 2100 + w;
    var s := if Sign(x) == Sign(y) then 0 else 1;
    var m := if (ex + 0x7FF) / 0x800 == 1 && (ey + 0x7FF) / 0x800 == 1 then zv else 0;
    Pack(s, e, W64(m))
  }

  lemma TopRange(n: nat)
    requires T52 * T52 <= n <= (T53 - 1) * (T53 - 1)
    ensures T54 <= StickyShift(n, T50) < 2 * T55
  {
  }

  lemma MagnitudeOfProduct(x: u64, y: u64)
    requires Normal(x) && Normal(y)
    ensures Magnitude(x) * Magnitude(y) ==
      ((Significand(x) * Significand(y)) as real / T50 as real) * P(Exponent(x) + Exponent(y) - 2100)
  {
    hide P, Significand, Exponent, Normal;
    var a, b := Exponent(x) - 1075, Exponent(y) - 1075;
    PAdd(a, b);
    PShift(a + b);
    var n := (Significand(x) * Significand(y)) as real;
    FourProducts(Significand(x) as real, P(a), Significand(y) as real, P(b));
    assert Exponent(x) >= 1 && Exponent(y) >= 1 by { NormalExponents(x, y); }
    assert n / T50 as real * (T50 as real * P(a + b)) == n * P(a + b);
  }

  lemma NormalExponents(x: u64, y: u64)
    requires Normal(x) && Normal(y)
    ensures Exponent(x) >= 1 && Exponent(y) >= 1
  {
  }

  lemma FourProducts(a: real, b: real, c: real, d: real)
    ensures (a * b) * (c * d) == (a * c) * (b * d)
  {
    RealAssoc(a * b, c, d);
    RealAssoc(a, b, c);
    RealAssoc(a * c, b, d);
    assert (a * b) * c == (a * c) * b by { RealAssoc(a, c, b); assert b * c == c * b; }
  }

  /** fpr_mul is correctly rounded on all zeros and normal numbers whose product is in range. */
  lemma MulCorrect(x: u64, y: u64)
    requires Admitted(x) && Admitted(y) && Magnitude(x) * Magnitude(y) < Overflow()
    ensures var s := if Sign(x) == Sign(y) then 0 else 1;
      CorrectlyRounded(Mul(x, y), s, Magnitude(x) * Magnitude(y)) &&
      Value(x) * Value(y) == Signed(s, Magnitude(x) * Magnitude(y))
  {
    hide P, Pack, Overflow, CorrectlyRounded, ProductTop, Significand, StickyShift, Magnitude, Normal;
    SignsMultiply(x, y);
    NotZero(x);
    NotZero(y);
    if Zero(x) || Zero(y) {
      MulZero(x, y);
    } else {
      MulNormal(x, y);
    }
  }

  lemma SignsMultiply(x: u64, y: u64)
    ensures Value(x) * Value(y) == Signed(if Sign(x) == Sign(y) then 0 else 1, Magnitude(x) * Magnitude(y))
  {
    hide Magnitude;
    FieldsBack(x);
    FieldsBack(y);
    var a, b := Magnitude(x), Magnitude(y);
    assert (0.0 - a) * b == 0.0 - a * b && a * (0.0 - b) == 0.0 - a * b && (0.0 - a) * (0.0 - b) == a * b;
  }

  lemma ZeroMagnitude(x: u64)
    requires Zero(x)
    ensures Exponent(x) == 0 && Magnitude(x) == 0.0
  {
    FieldsBack(x);
  }

  lemma MulZero(x: u64, y: u64)
    requires Zero(x) || Zero(y)
    ensures CorrectlyRounded(Mul(x, y), if Sign(x) == Sign(y) then 0 else 1, Magnitude(x) * Magnitude(y))
  {
    hide P, Pack, ProductTop, Significand, Magnitude;
    if Zero(x) { ZeroMagnitude(x); } else { ZeroMagnitude(y); }
    var w := Mul(x, y);
    var zu := ProductTop(Significand(x), Significand(y));
    PackZero(if Sign(x) == Sign(y) then 0 else 1, Exponent(x) + Exponent(y) - 2100 + zu / T55, 0);
  }

  lemma MulShape(x: u64, y: u64)
    requires Normal(x) && Normal(y) && Shrink(ProductTop(Significand(x), Significand(y))) < T55
    ensures var zu := ProductTop(Significand(x), Significand(y));
      Mul(x, y) == Pack(if Sign(x) == Sign(y) then 0 else 1, Exponent(x) + Exponent(y) - 2100 + TopBit(zu), Shrink(zu))
  {
    hide Pack, ProductTop, Significand, Sign, Shrink, TopBit;
    SmallWord(Shrink(ProductTop(Significand(x), Significand(y))));
  }

  lemma SmallWord(m: nat)
    requires m < T55
    ensures W64(m) == m
  {
  }

  lemma MulNormal(x: u64, y: u64)
    requires Normal(x) && Normal(y) && Magnitude(x) * Magnitude(y) < Overflow()
    ensures CorrectlyRounded(Mul(x, y), if Sign(x) == Sign(y) then 0 else 1, Magnitude(x) * Magnitude(y))
  {
    hide P, Pack, Overflow, CorrectlyRounded, ProductTop, Significand, StickyShift, Magnitude, Shrink, TopBit, Sticky, Sign, Mul, Normal, Exponent;
    var a, b := Significand(x), Significand(y);
    var n := a * b;
    SmallProduct(a, b, T53, T53);
    LargeProduct(a, b);
    ProductIs(a, b);
    TopRange(n);
    StickyExact(n);
    MagnitudeOfProduct(x, y);
    var e, zu := Exponent(x) + Exponent(y) - 2100, ProductTop(a, b);
    var u := Normalized(n as real / T50 as real, zu, Magnitude(x) * Magnitude(y), e);
    MulShape(x, y);
    PackRounds(if Sign(x) == Sign(y) then 0 else 1, e + TopBit(zu), Shrink(zu), u, Magnitude(x) * Magnitude(y));
  }

  lemma LargeProduct(a: int, b: int)
    requires a >= T52 && b >= T52
    ensures a * b >= T52 * T52
  {
    MulMono(T52, a, b);
    MulMono(T52, b, T52);
    assert T52 * b == b * T52;
  }

  lemma StickyExact(n: nat)
    ensures Sticky(n as real / T50 as real, StickyShift(n, T50))
  {
    assert Sticky(n as real, n);
    StickyTwice(n as real, n, T50);
  }
}
