/** Emulated conversions to integers, comparison, halving and doubling of fpr.h. */
module FprInt {
  import opened Words
  import opened Fpr

  const T61: nat := 0x2000_0000_0000_0000
  const T62: nat := 0x4000_0000_0000_0000

  /** ((x << 10) | (1 << 62)) & ((1 << 63) - 1): the mantissa as an integer from 2^62 to 2^63 - 1. */
  function Wide(x: u64): (m: nat)
    ensures T62 <= m < B63
  {
    W64(x * 1024) % T62 + T62
  }

  lemma WideIs(x: u64)
    ensures Wide(x) == 1024 * Significand(x)
  {
    FieldsBack(x);
    WideParts(x, Sign(x) * 0x800 + Exponent(x), Mantissa(x));
  }

  lemma WideParts(x: u64, a: nat, m: nat)
    requires x == a * T52 + m && m < T52
    ensures W64(x * 1024) % T62 == 1024 * m
  {
    var b, c := a / 4, a % 4;
    assert x * 1024 == B64 * b + (c * T62 + 1024 * m);
    assert W64(x * 1024) == c * T62 + 1024 * m;
  }

  /** The shift count 1085 - e; what the functions are for is numbers below 2^63 in size. */
  predicate Fits(x: u64) {
    Admitted(x) && Exponent(x) <= 1085
  }

  function Shift(x: u64): int {
    1085 - Exponent(x)
  }

  /** A number is its wide mantissa divided by a power of two. */
  lemma MagnitudeOfWide(x: u64)
    requires Fits(x)
    ensures Shift(x) >= 0
    ensures Zero(x) ==> Shift(x) == 1085 && Magnitude(x) == 0.0
    ensures !Zero(x) ==> Magnitude(x) == Wide(x) as real / Pow2(Shift(x)) as real
  {
    hide P, Pow2, Wide;
    FieldsBack(x);
    WideIs(x);
    if !Zero(x) {
      var cc := Shift(x);
      PSmall();
      PAdd(0 - cc, 10);
      assert (0 - cc) + 10 == Exponent(x) - 1075;
      NegativePower(cc);
      WideQuotient(Significand(x) as real, Wide(x) as real, P(0 - cc), P(Exponent(x) - 1075), Pow2(cc) as real);
    }
  }

  lemma NegativePower(k: nat)
    ensures P(0 - k) == 1.0 / Pow2(k) as real
  {
  }

  lemma WideQuotient(s: real, m: real, u: real, w: real, b: real)
    requires m == 1024.0 * s && w == u * 1024.0 && b > 0.0 && u == 1.0 / b
    ensures s * w == m / b
  {
    assert u * b == 1.0;
    assert s * w == (1024.0 * s) * u;
    var z := m / b;
    assert z * b == m;
    assert m * u == (z * b) * u;
    assert (z * b) * u == z * (b * u) by { RealAssoc(z, b, u); }
    assert b * u == 1.0;
  }

  /** Integer division against real division. */
  lemma DivisionParts(m: nat, b: nat)
    requires b > 0
    ensures var y := m as real / b as real; (m / b) as real <= y < (m / b) as real + 1.0
    ensures var y := m as real / b as real; y - (m / b) as real == (m % b) as real / b as real
  {
    var q, r := m / b, m % b;
    var g := b as real;
    RealDivision(m, b, q, r);
    var y, d := m as real / g, r as real / g;
    assert y * g == m as real && d * g == r as real;
    assert (y - q as real) * g == r as real;
    CancelScale(y - q as real, d, g);
    if d < 0.0 { ScaleUp(d, 0.0, g); }
    if d >= 1.0 { ScaleUp(1.0, d, g); }
  }

  lemma RealDivision(m: nat, b: nat, q: int, r: int)
    requires b > 0 && q == m / b && r == m % b
    ensures m as real == q as real * b as real + r as real && 0 <= r < b
  {
    assert m == b * q + r;
    assert (b * q) as real == b as real * q as real;
  }

  // ---------------------------------------------------------------------
  // fpr_rint
  // ---------------------------------------------------------------------

  /** The kept bit, the half bit and the sticky rest, as the code gathers them in f. */
  function RoundBits(d: nat): nat {
    WithSticky(d / T61, d % T61 != 0)
  }

  /** fpr_rint */
  function Rint(x: u64): int
    requires Fits(x)
  {
    var m := if Shift(x) - 64 < 0 then Wide(x) else 0;
    var e := Shift(x) % 64;
    var d := W64(m * Pow2(63 - e));
    var r := m / Pow2(e) + Increment(RoundBits(d));
    if Sign(x) == 1 then 0 - r else r
  }

  /** d holds the lowest kept bit on top, and the dropped bits below it. */
  lemma DroppedBits(m: nat, e: nat)
    requires m < B63 && e <= 63
    ensures var q, r := m / Pow2(e), m % Pow2(e);
      W64(m * Pow2(63 - e)) == (q % 2) * B63 + r * Pow2(63 - e) && 0 <= r * Pow2(63 - e) < B63
  {
    hide Pow2;
    Pow2Add(e, 63 - e);
    Pow2Top();
    var b, c, q, r := Pow2(e), Pow2(63 - e), m / Pow2(e), m % Pow2(e);
    assert m == b * q + r;
    MulMono(r + 1, b, c);
    MulMono(0, r, c);
    assert (r + 1) * c == r * c + c;
    assert m * c == B63 * q + r * c by { assert (b * q + r) * c == (b * q) * c + r * c; assert (b * q) * c == (b * c) * q by { MulAssoc(b, q, c); MulAssoc(b, c, q); } }
    TopOfWord(q, r * c);
  }

  lemma Pow2Top()
    ensures Pow2(63) == B63
  {
    hide Pow2;
    Pow2Large();
    Pow2Add(55, 8);
    PSmallNat();
  }

  lemma PSmallNat()
    ensures Pow2(8) == 0x100
  {
  }

  lemma TopOfWord(q: nat, t: nat)
    requires t < B63
    ensures W64(B63 * q + t) == (q % 2) * B63 + t
  {
    var h, b := q / 2, q % 2;
    assert B63 * q + t == B64 * h + (b * B63 + t);
  }

  /** The increment rounds the quotient to nearest even. */
  lemma RintRounds(q: nat, t: nat)
    requires t < B63
    ensures NearEven(q as real + t as real / B63 as real, q + Increment(RoundBits((q % 2) * B63 + t)))
  {
    hide Increment, NearEven, RoundBits;
    var h, s := t / T61, t % T61;
    BitsAre(q % 2, t, h, s);
    var f := RoundBits((q % 2) * B63 + t);
    IncrementIs(f);
    QuarterParts(t, h, s);
    NearHalf(q, h, s != 0, t as real / B63 as real, Increment(f));
  }

  lemma QuarterParts(t: nat, h: nat, s: nat)
    requires t < B63 && t == T61 * h + s && s < T61
    ensures var w := 4.0 * (t as real / B63 as real) - h as real; 0.0 <= w < 1.0 && (w == 0.0 <==> s == 0)
  {
    assert 4.0 * (t as real / B63 as real) == t as real / T61 as real;
    assert t as real == T61 as real * h as real + s as real;
  }

  lemma BitsAre(b: nat, t: nat, h: nat, s: nat)
    requires b < 2 && t < B63 && t == T61 * h + s && s < T61
    ensures h < 4 && RoundBits(b * B63 + t) == 4 * b + WithSticky(h, s != 0)
  {
    assert b * B63 + t == T61 * (4 * b + h) + s;
  }

  lemma NearHalf(q: nat, h: nat, rest: bool, y: real, i: int)
    requires h < 4
    requires var w := 4.0 * y - h as real; 0.0 <= w < 1.0 && (w == 0.0 <==> !rest)
    requires var f := 4 * (q % 2) + WithSticky(h, rest); i == if f == 3 || f == 6 || f == 7 then 1 else 0
    ensures NearEven(q as real + y, q + i)
  {
    if i == 1 {
      assert h >= 2;
    } else {
      assert h < 2 || (h == 2 && !rest && q % 2 == 0);
    }
    assert (q + i) as real == q as real + i as real;
  }

  lemma NearNegated(z: real, q: int)
    requires NearEven(z, q)
    ensures NearEven(0.0 - z, 0 - q)
  {
  }

  /** fpr_rint rounds to the nearest integer, ties to even. */
  lemma RintCorrect(x: u64)
    requires Fits(x)
    ensures NearEven(Value(x), Rint(x))
  {
    hide Pow2, P, Wide, Increment, NearEven, RoundBits, Magnitude, Rint;
    MagnitudeOfWide(x);
    var r := if Sign(x) == 1 then 0 - Rint(x) else Rint(x);
    if Shift(x) >= 64 {
      RintSmall(x);
    } else {
      RintLarge(x, r);
    }
    if Sign(x) == 1 {
      NearNegated(Magnitude(x), r);
    }
  }

  lemma RintLarge(x: u64, r: int)
    requires Fits(x) && 0 <= Shift(x) < 64 && r == if Sign(x) == 1 then 0 - Rint(x) else Rint(x)
    ensures NearEven(Magnitude(x), r)
  {
    hide Pow2, P, Wide, Increment, NearEven, RoundBits, Magnitude;
    MagnitudeOfWide(x);
    var cc := Shift(x);
    assert cc % 64 == cc;
    DroppedBits(Wide(x), cc);
    WideRounds(Wide(x), cc, Magnitude(x), r);
  }

  lemma WideRounds(m: nat, cc: nat, v: real, r: int)
    requires m < B63 && cc <= 63 && v == m as real / Pow2(cc) as real
    requires r == m / Pow2(cc) + Increment(RoundBits((m / Pow2(cc) % 2) * B63 + (m % Pow2(cc)) * Pow2(63 - cc)))
    ensures NearEven(v, r)
  {
    hide Pow2, Increment, NearEven, RoundBits;
    Pow2Add(cc, 63 - cc);
    Pow2Top();
    PowersRound(m, Pow2(cc), Pow2(63 - cc), v, r);
  }

  lemma PowersRound(m: nat, b: nat, c: nat, v: real, r: int)
    requires b > 0 && c > 0 && b * c == B63 && v == m as real / b as real
    requires r == m / b + Increment(RoundBits((m / b % 2) * B63 + (m % b) * c))
    ensures NearEven(v, r)
  {
    hide Increment, NearEven, RoundBits;
    var q, d := m / b, m % b;
    FractionBelow(d, b, c);
    QuotientRounds(m, b, c, q, d, d * c, v, r);
  }

  lemma FractionBelow(d: nat, b: nat, c: nat)
    requires d < b && c > 0
    ensures 0 <= d * c < b * c
  {
    MulMono(d + 1, b, c);
    MulMono(0, d, c);
    assert (d + 1) * c == d * c + c;
  }

  lemma QuotientRounds(m: nat, b: nat, c: nat, q: nat, d: nat, t: nat, v: real, r: int)
    requires b > 0 && c > 0 && b * c == B63 && q == m / b && d == m % b && t == d * c && t < B63
    requires v == m as real / b as real && r == q + Increment(RoundBits((q % 2) * B63 + t))
    ensures NearEven(v, r)
  {
    hide Increment, NearEven, RoundBits;
    RintRounds(q, t);
    DivisionParts(m, b);
    SameFraction(d, b, c);
    assert v == q as real + t as real / B63 as real;
  }

  lemma SameFraction(r: int, b: nat, c: nat)
    requires b > 0 && c > 0
    ensures b * c > 0 && r as real / b as real == (r * c) as real / (b * c) as real
  {
    MulPos(b, c);
    var z := r as real / b as real;
    assert z * b as real == r as real;
    assert (b * c) as real == b as real * c as real && (r * c) as real == r as real * c as real;
    RealAssoc(z, b as real, c as real);
    Divides((r * c) as real, (b * c) as real, z);
  }

  lemma Divides(a: real, b: real, z: real)
    requires b != 0.0 && a == z * b
    ensures a / b == z
  {
  }

  /** Below one half, everything is dropped. */
  lemma RintSmall(x: u64)
    requires Fits(x) && Shift(x) >= 64
    ensures Rint(x) == 0 && NearEven(Magnitude(x), 0)
  {
    hide Pow2, P, Wide;
    MagnitudeOfWide(x);
    var e := Shift(x) % 64;
    assert 0 * Pow2(63 - e) == 0;
    ZeroOver(Pow2(e));
    NoBits();
    if !Zero(x) {
      SmallMagnitude(Wide(x), Shift(x));
    }
  }

  lemma ZeroOver(b: nat)
    requires b > 0
    ensures 0 / b == 0
  {
  }

  lemma NoBits()
    ensures Increment(RoundBits(W64(0))) == 0
  {
    hide Increment;
    IncrementIs(RoundBits(0));
  }

  lemma SmallMagnitude(m: nat, cc: nat)
    requires m < B63 && cc >= 64
    ensures 0.0 <= m as real / Pow2(cc) as real < 0.5
  {
    hide Pow2;
    Pow2Add(64, cc - 64);
    Pow2Add(63, 1);
    Pow2Top();
    Pow2Next();
    MulMono(1, Pow2(cc - 64), B64);
    var z, b := m as real / Pow2(cc) as real, Pow2(cc) as real;
    assert z * b == m as real;
    if z < 0.0 { ScaleBelow(z, 0.0, b); }
    if z >= 0.5 { ScaleUp(0.5, z, b); }
  }

  lemma Pow2Next()
    ensures Pow2(1) == 2
  {
  }

  // ---------------------------------------------------------------------
  // fpr_floor and fpr_trunc
  // ---------------------------------------------------------------------

  /** fpr_floor */
  function Floor(x: u64): int
    requires Fits(x)
  {
    var xi := if Sign(x) == 1 then 0 - Wide(x) else Wide(x);
    if 63 - Shift(x) < 0 then 0 - Sign(x) else xi / Pow2(Shift(x))
  }

  /** fpr_floor returns the floor, except that it takes -0 to -1. */
  lemma FloorCorrect(x: u64)
    requires Fits(x)
    ensures Floor(x) as real <= Value(x) < Floor(x) as real + 1.0 <==> x != B63
    ensures Floor(B63) == -1
  {
    hide Pow2, P, Wide;
    NegativeZero();
    MagnitudeOfWide(x);
    FieldsBack(x);
    var cc := Shift(x);
    if Zero(x) {
      assert x == 0 || x == B63;
    } else {
      assert x != B63;
      var m, b := Wide(x), Pow2(cc);
      var y := m as real / b as real;
      DivisionParts(m, b);
      if cc >= 64 {
        SmallMagnitude(m, cc);
        PositiveQuotient(m, b);
      } else if Sign(x) == 1 {
        NegatedFloor(m, b);
      }
    }
  }

  lemma NegativeZero()
    ensures Sign(B63) == 1 && Exponent(B63) == 0 && Zero(B63)
  {
  }

  lemma PositiveQuotient(m: nat, b: nat)
    requires m > 0 && b > 0
    ensures m as real / b as real > 0.0
  {
  }

  lemma NegatedFloor(m: nat, b: nat)
    requires b > 0
    ensures var q := (0 - m) / b; q as real <= 0.0 - m as real / b as real < q as real + 1.0
  {
    var q, r := (0 - m) / b, (0 - m) % b;
    var g := b as real;
    assert 0 - m == b * q + r && 0 <= r < b;
    assert (b * q) as real == g * q as real;
    var y := 0.0 - m as real / g;
    assert (m as real / g) * g == m as real;
    assert (y - q as real) * g == r as real;
    var d := y - q as real;
    if d < 0.0 { ScaleBelow(d, 0.0, g); }
    if d >= 1.0 { ScaleUp(1.0, d, g); }
  }

  /** fpr_trunc */
  function Trunc(x: u64): int
    requires Fits(x)
  {
    var xu := if Shift(x) - 64 < 0 then Wide(x) / Pow2(Shift(x) % 64) else 0;
    if Sign(x) == 1 then 0 - xu else xu
  }

  /** fpr_trunc rounds toward zero. */
  lemma TruncCorrect(x: u64)
    requires Fits(x)
    ensures Value(x) >= 0.0 ==> Trunc(x) as real <= Value(x) < Trunc(x) as real + 1.0
    ensures Value(x) <= 0.0 ==> Trunc(x) as real - 1.0 < Value(x) <= Trunc(x) as real
  {
    hide Pow2, Wide, Magnitude, Trunc;
    var t := if Sign(x) == 1 then 0 - Trunc(x) else Trunc(x);
    MagnitudeOfWide(x);
    TruncSize(x, t);
    if Magnitude(x) == 0.0 {
      assert t == 0;
    }
  }

  /** The size of the result is the floor of the size. */
  lemma TruncSize(x: u64, t: int)
    requires Fits(x) && t == if Sign(x) == 1 then 0 - Trunc(x) else Trunc(x)
    ensures 0 <= t && t as real <= Magnitude(x) < t as real + 1.0
  {
    hide Pow2, Wide, Magnitude;
    MagnitudeOfWide(x);
    var m, cc := Wide(x), Shift(x);
    if cc >= 64 {
      assert t == 0;
      if !Zero(x) {
        SmallMagnitude(m, cc);
      }
    } else {
      assert cc % 64 == cc;
      DivisionParts(m, Pow2(cc));
    }
  }

  // ---------------------------------------------------------------------
  // fpr_lt
  // ---------------------------------------------------------------------

  /** *(int64_t *)&x */
  function S64(x: u64): int {
    if x < B63 then x else x - B64
  }

  /** fpr_lt */
  function Lt(x: u64, y: u64): bool {
    var cc0, cc1 := S64(x) < S64(y), S64(x) > S64(y);
    if Sign(x) == 1 && Sign(y) == 1 then cc1 else cc0
  }

  /** The encodings of nonnegative numbers are in the order of the numbers. */
  lemma EncodingOrder(x: u64, y: u64)
    requires Admitted(x) && Admitted(y)
    ensures x % B63 < y % B63 <==> Magnitude(x) < Magnitude(y)
    ensures x % B63 == y % B63 <==> Magnitude(x) == Magnitude(y)
  {
    hide Magnitude, Admitted;
    if x % B63 < y % B63 {
      OrderStrict(x, y);
    } else if y % B63 < x % B63 {
      OrderStrict(y, x);
    } else {
      SameMagnitude(x, y);
    }
  }

  lemma SameMagnitude(x: u64, y: u64)
    requires x % B63 == y % B63
    ensures Magnitude(x) == Magnitude(y)
  {
    hide P, Exponent, Mantissa;
    RestFields(x);
    RestFields(y);
    SameParts(Exponent(x), Mantissa(x), Exponent(y), Mantissa(y));
  }

  lemma SameParts(a: nat, m: nat, b: nat, n: nat)
    requires m < T52 && n < T52 && a * T52 + m == b * T52 + n
    ensures a == b && m == n
  {
  }

  lemma RestFields(x: u64)
    ensures x % B63 == Exponent(x) * T52 + Mantissa(x)
  {
  }

  lemma LexOrder(a: nat, m: nat, b: nat, n: nat)
    requires m < T52 && n < T52 && a * T52 + m < b * T52 + n
    ensures a < b || (a == b && m < n)
  {
  }

  lemma OrderStrict(x: u64, y: u64)
    requires Admitted(x) && Admitted(y) && x % B63 < y % B63
    ensures Magnitude(x) < Magnitude(y)
  {
    hide P, Exponent, Mantissa, Admitted, Normal, Zero;
    RestFields(x);
    RestFields(y);
    LexOrder(Exponent(x), Mantissa(x), Exponent(y), Mantissa(y));
    ZeroRest(x);
    ZeroRest(y);
    if Exponent(x) != 0 {
      OrderBinades(Significand(x) as real, Significand(y) as real, Exponent(x) - 1075, Exponent(y) - 1075);
    }
  }

  lemma ZeroRest(x: u64)
    requires Admitted(x)
    ensures Exponent(x) == 0 <==> x % B63 == 0
    ensures Exponent(x) != 0 ==> Magnitude(x) > 0.0
  {
    hide Exponent, Mantissa, Magnitude, Normal, P;
    NotZero(x);
  }

  lemma OrderBinades(a: real, b: real, j: int, k: int)
    requires 0.0 < a < T53 as real && T52 as real <= b && (j < k || (j == k && a < b))
    ensures a * P(j) < b * P(k)
  {
    hide P;
    if j < k {
      PDouble(j);
      PMono(j + 1, k);
      HigherBinade(a, b, P(j), P(k));
    } else {
      ScaleBelow(a, b, P(j));
    }
  }

  lemma HigherBinade(a: real, b: real, u: real, w: real)
    requires a < T53 as real && b >= T52 as real && u > 0.0 && w >= 2.0 * u
    ensures a * u < b * w
  {
    BinadeGap(b, a, w, u);
  }

  /** The signed comparison, corrected for two negative operands. */
  lemma LtSigned(x: u64, y: u64)
    ensures Lt(x, y) <==>
      if Sign(x) == 1 && Sign(y) == 1 then x % B63 > y % B63
      else if Sign(x) == 1 then true
      else if Sign(y) == 1 then false
      else x % B63 < y % B63
  {
  }

  lemma MagnitudeNotNegative(x: u64)
    requires Admitted(x)
    ensures Magnitude(x) >= 0.0 && (Magnitude(x) == 0.0 <==> x % B63 == 0)
  {
    hide P;
    FieldsBack(x);
    NotZero(x);
  }

  /** fpr_lt compares the values, except that it takes -0 to be less than +0. */
  lemma LtCorrect(x: u64, y: u64)
    requires Admitted(x) && Admitted(y)
    ensures Lt(x, y) <==> Value(x) < Value(y) || (x == B63 && y == 0)
  {
    hide Magnitude, Admitted, Lt;
    LtSigned(x, y);
    EncodingOrder(x, y);
    MagnitudeNotNegative(x);
    MagnitudeNotNegative(y);
    SignAndRest(x);
    SignAndRest(y);
  }

  lemma SignAndRest(x: u64)
    ensures x == Sign(x) * B63 + x % B63 && Sign(x) <= 1
  {
  }

  // ---------------------------------------------------------------------
  // fpr_half and fpr_double
  // ---------------------------------------------------------------------

  /** fpr_half */
  function HalfOf(x: u64): u64 {
    var y := W64(x - T52);
    if (Exponent(y) + 1) / 0x800 == 1 then 0 else y
  }

  /** fpr_double */
  function DoubleOf(x: u64): u64 {
    W64(x + ((Exponent(x) + 0x7FF) / 0x800) * T52)
  }

  /** The exponent field moves by one, and nothing else. */
  lemma MovedExponent(x: u64, y: u64, d: int)
    requires Admitted(x) && !Zero(x) && y == x + d * T52 && -1 <= d <= 1 && 1 <= Exponent(x) + d <= 2046
    ensures Normal(y) && Exponent(y) == Exponent(x) + d && Mantissa(y) == Mantissa(x) && Sign(y) == Sign(x)
  {
    FieldsBack(x);
    FieldsOf(Sign(x), Exponent(x) + d, Mantissa(x));
  }

  /** fpr_half halves every number whose half is not below the least normal number. */
  lemma HalfCorrect(x: u64)
    requires Admitted(x) && Exponent(x) != 1
    ensures Admitted(HalfOf(x)) && Value(HalfOf(x)) == Value(x) / 2.0
  {
    hide P, Mantissa;
    NotZero(x);
    if Zero(x) {
      HalfZero(x);
    } else {
      HalfShape(x);
      MovedExponent(x, HalfOf(x), -1);
      PDouble(Exponent(x) - 1076);
      TwiceProduct(Significand(x) as real, P(Exponent(x) - 1076), P(Exponent(x) - 1075));
    }
  }

  lemma TwiceProduct(a: real, u: real, w: real)
    requires w == 2.0 * u
    ensures a * w == 2.0 * (a * u)
  {
  }

  lemma HalfZero(x: u64)
    requires Zero(x)
    ensures HalfOf(x) == 0 && Zero(HalfOf(x)) && Value(x) == 0.0 && Value(HalfOf(x)) == 0.0
  {
    hide P, Significand, HalfOf;
    assert x == 0 || x == B63;
    HalfOfZero(x);
    assert Exponent(x) == 0 && Exponent(0) == 0;
  }

  lemma HalfOfZero(x: u64)
    requires x == 0 || x == B63
    ensures HalfOf(x) == 0
  {
    if x == 0 {
      assert W64(0 - T52) == B64 - T52;
    } else {
      assert W64(B63 - T52) == B63 - T52;
    }
  }

  lemma HalfShape(x: u64)
    requires Normal(x) && Exponent(x) != 1
    ensures HalfOf(x) == x + -1 * T52
  {
    FieldsBack(x);
    FieldsOf(Sign(x), Exponent(x) - 1, Mantissa(x));
  }

  /** fpr_double doubles every number whose double is in range. */
  lemma DoubleCorrect(x: u64)
    requires Admitted(x) && Exponent(x) != 2046
    ensures Admitted(DoubleOf(x)) && Value(DoubleOf(x)) == 2.0 * Value(x)
  {
    hide P, Mantissa;
    NotZero(x);
    DoubleShape(x);
    if !Zero(x) {
      MovedExponent(x, DoubleOf(x), 1);
      PDouble(Exponent(x) - 1075);
      TwiceProduct(Significand(x) as real, P(Exponent(x) - 1075), P(Exponent(x) - 1074));
    }
  }

  lemma DoubleShape(x: u64)
    requires Admitted(x) && Exponent(x) != 2046
    ensures DoubleOf(x) == if Zero(x) then x else x + 1 * T52
  {
    FieldsBack(x);
  }
}
