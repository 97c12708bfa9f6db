/**
 * Emulated binary64 numbers: the encoding, what correct rounding means, and FPR() of fpr.h, which
 * packs a 55-bit mantissa with a sticky bit and rounds it. Section 4.3.1 of IEEE 754-2019,
 * on zeros and normal numbers.
 */
module Fpr {
  import opened Words

  const T52: nat := 0x10_0000_0000_0000
  const T53: nat := 0x20_0000_0000_0000
  const T54: nat := 0x40_0000_0000_0000
  const T55: nat := 0x80_0000_0000_0000

  // ---------------------------------------------------------------------
  // Powers of two as real numbers
  // ---------------------------------------------------------------------

  /** 2^t for any integer t. */
  ghost function P(t: int): (r: real)
    ensures r > 0.0
  {
    if t >= 0 then Pow2(t) as real else 1.0 / Pow2(0 - t) as real
  }

  lemma PDouble(t: int)
    ensures P(t + 1) == 2.0 * P(t)
  {
    if t < -1 {
      var n := 0 - t - 1;
      assert Pow2(n + 1) == 2 * Pow2(n);
      Halve(Pow2(n) as real);
    }
  }

  lemma Halve(x: real)
    requires x > 0.0
    ensures 1.0 / x == 2.0 * (1.0 / (2.0 * x))
  {
  }

  lemma {:induction false} PAdd(a: int, b: int)
    ensures P(a + b) == P(a) * P(b)
    decreases if b >= 0 then b else 0 - b
  {
    hide P;
    if b > 0 {
      PAdd(a, b - 1);
      PDouble(a + b - 1);
      PDouble(b - 1);
      RealAssoc(2.0, P(a), P(b - 1));
    } else if b < 0 {
      PAdd(a, b + 1);
      PDouble(a + b);
      PDouble(b);
      RealAssoc(2.0, P(a), P(b));
      assert 2.0 * P(a + b) == 2.0 * (P(a) * P(b));
    } else {
      POne();
    }
  }

  lemma POne()
    ensures P(0) == 1.0
  {
  }

  lemma RealAssoc(a: real, b: real, c: real)
    ensures a * (b * c) == b * (a * c) && a * (b * c) == (a * b) * c
  {
  }

  lemma {:induction false} PMono(a: int, b: int)
    requires a <= b
    ensures P(a) <= P(b)
    decreases b - a
  {
    hide P;
    if a < b {
      PMono(a + 1, b);
      PDouble(a);
    }
  }

  lemma PStrict(a: int, b: int)
    requires P(a) < P(b)
    ensures a < b
  {
    hide P;
    if b <= a {
      PMono(b, a);
    }
  }

  lemma PSmall()
    ensures P(2) == 4.0 && P(3) == 8.0 && P(8) == 256.0 && P(10) == 1024.0
  {
    assert Pow2(2) == 4 && Pow2(3) == 8 && Pow2(8) == 256 && Pow2(10) == 1024;
  }

  lemma Pow2Large()
    ensures Pow2(50) == 0x4_0000_0000_0000 && Pow2(52) == T52 && Pow2(53) == T53 && Pow2(54) == T54 && Pow2(55) == T55
  {
    hide Pow2;
    assert Pow2(10) == 1024 by { Pow2Ten(); }
    Pow2Add(10, 10);
    Pow2Add(20, 20);
    Pow2Add(40, 10);
    Pow2Two();
    Pow2Add(50, 2);
    Pow2Add(52, 1);
    Pow2Add(53, 1);
    Pow2Add(54, 1);
  }

  lemma Pow2Ten()
    ensures Pow2(10) == 1024
  {
  }

  lemma Pow2Two()
    ensures Pow2(1) == 2 && Pow2(2) == 4
  {
  }

  lemma PLarge()
    ensures P(50) == 0x4_0000_0000_0000 as real && P(52) == T52 as real && P(53) == T53 as real
    ensures P(54) == T54 as real && P(55) == T55 as real
  {
    hide Pow2;
    Pow2Large();
  }

  /** Moving 52 to 55 bits between the factor and the power. */
  lemma PShift(e: int)
    ensures P(e + 50) == 0x4_0000_0000_0000 as real * P(e) && P(e + 52) == T52 as real * P(e) && P(e + 53) == T53 as real * P(e)
    ensures P(e + 54) == T54 as real * P(e) && P(e + 55) == T55 as real * P(e)
  {
    hide P;
    PLarge();
    PAdd(e, 50);
    PAdd(e, 52);
    PAdd(e, 53);
    PAdd(e, 54);
    PAdd(e, 55);
  }

  // ---------------------------------------------------------------------
  // The encoding
  // ---------------------------------------------------------------------

  function Sign(x: u64): nat {
    x / B63
  }

  function Exponent(x: u64): nat {
    (x / T52) % 0x800
  }

  function Mantissa(x: u64): (m: nat)
    ensures m < T52
  {
    x % T52
  }

  predicate Zero(x: u64) {
    x % B63 == 0
  }

  predicate Normal(x: u64) {
    1 <= Exponent(x) <= 2046
  }

  /** The operands that the module admits: no subnormals, infinities or NaNs. */
  predicate Admitted(x: u64) {
    Zero(x) || Normal(x)
  }

  /** The 53-bit integer mantissa of a normal number. */
  function Significand(x: u64): (m: nat)
    ensures T52 <= m < T53
  {
    T52 + Mantissa(x)
  }

  ghost function Magnitude(x: u64): (r: real) {
    if Exponent(x) == 0 then 0.0 else Significand(x) as real * P(Exponent(x) - 1075)
  }

  ghost function Value(x: u64): real {
    if Sign(x) == 1 then 0.0 - Magnitude(x) else Magnitude(x)
  }

  lemma FieldsOf(s: nat, e: nat, m: nat)
    requires s <= 1 && e < 0x800 && m < T52
    ensures var x := s * B63 + e * T52 + m;
      x < B64 && Sign(x) == s && Exponent(x) == e && Mantissa(x) == m
  {
  }

  lemma FieldsBack(x: u64)
    ensures x == Sign(x) * B63 + Exponent(x) * T52 + Mantissa(x) && Sign(x) <= 1 && Exponent(x) < 0x800
    ensures Zero(x) <==> Exponent(x) == 0 && Mantissa(x) == 0
  {
  }

  lemma NotZero(x: u64)
    requires Admitted(x)
    ensures Zero(x) <==> Exponent(x) == 0
    ensures !Zero(x) ==> Magnitude(x) > 0.0
  {
    FieldsBack(x);
    if Normal(x) {
      PositiveProduct(Significand(x) as real, P(Exponent(x) - 1075));
    }
  }

  lemma PositiveProduct(a: real, b: real)
    requires a > 0.0 && b > 0.0
    ensures a * b > 0.0
  {
  }

  // ---------------------------------------------------------------------
  // Rounding
  // ---------------------------------------------------------------------

  /** q is the integer nearest to z; of two equally near ones, the even one. */
  ghost predicate NearEven(z: real, q: int) {
    -0.5 <= z - q as real <= 0.5 && (z - q as real == 0.5 || z - q as real == -0.5 ==> q % 2 == 0)
  }

  ghost predicate RoundsAt(v: real, r: real, k: int, z: real, q: int) {
    v == z * P(k) && T52 as real <= z < T53 as real && NearEven(z, q) && r == q as real * P(k)
  }

  /** r is the positive number v rounded to 53 significant bits. */
  ghost predicate Rounds(v: real, r: real) {
    exists k, z, q :: RoundsAt(v, r, k, z, q)
  }

  lemma NearUnique(z: real, p: int, q: int)
    requires NearEven(z, p) && NearEven(z, q)
    ensures p == q
  {
  }

  lemma SameBinade(z: real, w: real, j: int, k: int)
    requires T52 as real <= z < T53 as real && T52 as real <= w < T53 as real && z * P(j) == w * P(k)
    ensures j <= k
  {
    hide P;
    if j > k {
      PMono(k + 1, j);
      PDouble(k);
      BinadeGap(z, w, P(j), P(k));
    }
  }

  lemma BinadeGap(z: real, w: real, a: real, b: real)
    requires z >= T52 as real && w < T53 as real && b > 0.0 && a >= 2.0 * b
    ensures z * a > w * b
  {
    ScaleUp(2.0 * b, a, z);
    assert z * (2.0 * b) == (2.0 * z) * b;
    ScaleBelow(w, 2.0 * z, b);
  }

  lemma ScaleUp(a: real, b: real, c: real)
    requires a <= b && c >= 0.0
    ensures a * c <= b * c && c * a <= c * b
  {
  }

  lemma ScaleBelow(a: real, b: real, c: real)
    requires a < b && c > 0.0
    ensures a * c < b * c
  {
  }

  lemma CancelScale(a: real, b: real, c: real)
    requires c > 0.0 && a * c == b * c
    ensures a == b
  {
  }

  /** The rounding of a number is unique. */
  lemma RoundsUnique(v: real, r: real, t: real)
    requires Rounds(v, r) && Rounds(v, t)
    ensures r == t
  {
    hide P, NearEven;
    var j, z, p :| RoundsAt(v, r, j, z, p);
    var k, w, q :| RoundsAt(v, t, k, w, q);
    SameBinade(z, w, j, k);
    SameBinade(w, z, k, j);
    CancelScale(z, w, P(j));
    NearUnique(z, p, q);
  }

  /** m is y, or the odd integer next to y: no information needed for rounding is lost. */
  ghost predicate Sticky(y: real, m: int) {
    y == m as real || (m % 2 == 1 && m as real - 1.0 < y < m as real + 1.0)
  }

  /** Dropping two more bits with FPR's increment rounds to nearest even. */
  lemma StickyRounds(y: real, m: nat)
    requires Sticky(y, m)
    ensures NearEven(y / 4.0, m / 4 + Increment(m))
  {
    hide Increment;
    var q, f := m / 8, m % 8;
    IncrementIs(m);
    assert m / 4 == 2 * q + f / 4;
    NearSticky(y - (8 * q) as real, f, f / 4 + Increment(m));
    NearShift((y - (8 * q) as real) / 4.0, q, f / 4 + Increment(m));
    assert (y - (8 * q) as real) / 4.0 + (2 * q) as real == y / 4.0;
  }

  lemma NearSticky(y: real, f: int, d: int)
    requires 0 <= f < 8 && Sticky(y, f) && d == f / 4 + if f == 3 || f == 6 || f == 7 then 1 else 0
    ensures NearEven(y / 4.0, d)
  {
  }

  lemma IncrementIs(m: nat)
    ensures Increment(m) == (if m % 8 == 3 || m % 8 == 6 || m % 8 == 7 then 1 else 0)
  {
  }

  lemma NearShift(x: real, q: int, d: int)
    requires NearEven(x, d)
    ensures NearEven(x + (2 * q) as real, 2 * q + d)
  {
    assert (2 * q + d) % 2 == d % 2;
    assert (2 * q + d) as real == (2 * q) as real + d as real;
  }

  /** (0xC8 >> (m & 7)) & 1 */
  function Increment(m: nat): (b: nat)
    ensures b == (if m % 8 == 3 || m % 8 == 6 || m % 8 == 7 then 1 else 0)
  {
    ShiftTable(m % 8);
    (0xC8 / Pow2(m % 8)) % 2
  }

  lemma ShiftTable(f: nat)
    requires f < 8
    ensures (0xC8 / Pow2(f)) % 2 == (if f == 3 || f == 6 || f == 7 then 1 else 0)
  {
    assert Pow2(0) == 1 && Pow2(1) == 2 && Pow2(2) == 4 && Pow2(3) == 8 && Pow2(4) == 16 && Pow2(5) == 32 && Pow2(6) == 64 && Pow2(7) == 128;
  }

  // ---------------------------------------------------------------------
  // FPR
  // ---------------------------------------------------------------------

  /** FPR(s, e, m): the number (-1)^s * m * 2^e, rounded. */
  function Pack(s: nat, e: int, m: u64): u64
    requires s <= 1
  {
    var e1 := e + 1076;
    var m1 := if e1 < 0 then 0 else m;
    var e2 := if m1 / T54 == 0 then 0 else e1;
    W64(W64(s * B63 + m1 / 4 + e2 * T52) + Increment(m1))
  }

  lemma PackZero(s: nat, e: int, m: u64)
    requires s <= 1 && (m == 0 || e < -1076)
    ensures Zero(Pack(s, e, m)) && Sign(Pack(s, e, m)) == s
  {
  }

  lemma PackIs(s: nat, e: int, m: u64)
    requires s <= 1 && T54 <= m < T55 && 0 <= e + 1076 <= 2045
    ensures Pack(s, e, m) == s * B63 + (e + 1076) * T52 + m / 4 + Increment(m)
  {
    hide Increment;
    var k := e + 1076;
    assert m / T54 == 1;
    IncrementIs(m);
    NoWrap(s * B63 + m / 4 + k * T52);
    NoWrap(s * B63 + m / 4 + k * T52 + Increment(m));
  }

  lemma NoWrap(x: nat)
    requires x < B64
    ensures W64(x) == x
  {
  }

  lemma PackFields(s: nat, e: int, m: u64)
    requires s <= 1 && T54 <= m < T55 && 0 <= e + 1076 <= 2045
    requires var q := m / 4 + Increment(m); q < T53 || e + 1076 < 2045
    ensures var w, q := Pack(s, e, m), m / 4 + Increment(m);
      Sign(w) == s && (q < T53 ==> Exponent(w) == e + 1077 && Mantissa(w) == q - T52) &&
      (q >= T53 ==> q == T53 && Exponent(w) == e + 1078 && Mantissa(w) == 0)
  {
    hide Increment, Pack, Sign, Exponent, Mantissa;
    PackIs(s, e, m);
    IncrementIs(m);
    var q := m / 4 + Increment(m);
    if q < T53 {
      FieldsOf(s, e + 1077, q - T52);
    } else {
      FieldsOf(s, e + 1078, 0);
    }
  }

  /** The size of the result: q * 2^(e + 2), also when the rounding carries into the exponent. */
  lemma PackMagnitude(s: nat, e: int, m: u64)
    requires s <= 1 && T54 <= m < T55 && 0 <= e + 1076 <= 2045
    requires var q := m / 4 + Increment(m); q < T53 || e + 1076 < 2045
    ensures var w := Pack(s, e, m);
      Normal(w) && Sign(w) == s && Magnitude(w) == (m / 4 + Increment(m)) as real * P(e + 2)
  {
    hide P, Pack, Increment;
    PackFields(s, e, m);
    PDouble(e + 2);
    assert T53 as real * P(e + 2) == T52 as real * (2.0 * P(e + 2));
  }

  /** Numbers at least this large are out of range: they round to 2^1024 or more. */
  ghost function Overflow(): real {
    (2 * T53 - 1) as real * P(970)
  }

  ghost function LeastNormal(): real {
    P(-1022)
  }

  lemma StickyRange(y: real, m: int)
    requires Sticky(y, m) && T54 <= m < T55
    ensures T54 as real <= y < T55 as real
  {
  }

  /**
   * What a correctly rounded operation returns for an exact result with sign s and size v:
   * the rounded number, or a zero when v is below the least normal number.
   */
  ghost predicate CorrectlyRounded(w: u64, s: nat, v: real) {
    Sign(w) == s &&
    (v >= LeastNormal() ==> Normal(w) && Rounds(v, Magnitude(w))) &&
    (v < LeastNormal() ==> Zero(w))
  }

  lemma Bracket(y: real, u: real, v: real, a: real, b: real, low: real, high: real)
    requires a <= y < b && u > 0.0 && v == y * u && low == a * u && high == b * u
    ensures low <= v < high
  {
    ScaleUp(a, y, u);
    ScaleBelow(y, b, u);
  }

  lemma ExponentRange(y: real, v: real, e: int)
    requires T54 as real <= y < T55 as real && v == y * P(e) && v < Overflow()
    ensures v >= LeastNormal() <==> e + 1076 >= 0
    ensures e + 1076 <= 2045
  {
    hide P;
    PShift(e);
    Bracket(y, P(e), v, T54 as real, T55 as real, P(e + 54), P(e + 55));
    if e + 1076 >= 0 {
      PMono(-1022, e + 54);
    } else {
      PMono(e + 55, -1022);
    }
    OverflowBelow();
    PStrict(e + 54, 1024);
  }

  lemma OverflowBelow()
    ensures Overflow() < P(1024) && Overflow() == (T55 - 2) as real * P(969)
  {
    hide P;
    PShift(970);
    PDouble(969);
    ScaleBelow((2 * T53 - 1) as real, T54 as real, P(970));
    Double((2 * T53 - 1) as real, P(969));
  }

  lemma Double(a: real, b: real)
    ensures a * (2.0 * b) == (2.0 * a) * b
  {
  }

  /** At the largest exponent, rounding does not carry. */
  lemma TopBinade(y: real, v: real, q: int)
    requires v == y * P(969) && v < Overflow() && NearEven(y / 4.0, q)
    ensures q < T53
  {
    hide P;
    OverflowBelow();
    if y >= (T55 - 2) as real {
      ScaleUp((T55 - 2) as real, y, P(969));
    }
  }

  lemma RoundsFrom(v: real, y: real, e: int, q: int)
    requires T54 as real <= y < T55 as real && v == y * P(e) && NearEven(y / 4.0, q)
    ensures Rounds(v, q as real * P(e + 2))
  {
    hide P, NearEven;
    PSmall();
    PAdd(e, 2);
    var z := y / 4.0;
    assert y == z * 4.0;
    assert z * P(e + 2) == y * P(e);
    assert RoundsAt(v, q as real * P(e + 2), e + 2, z, q);
  }

  /** FPR rounds correctly whatever its mantissa stands for, as long as that is sticky. */
  lemma PackRounds(s: nat, e: int, m: u64, y: real, v: real)
    requires s <= 1 && T54 <= m < T55 && Sticky(y, m) && v == y * P(e) && v < Overflow()
    ensures CorrectlyRounded(Pack(s, e, m), s, v)
  {
    hide P, Pack, NearEven, Rounds, Overflow, LeastNormal, Increment, Sticky, CorrectlyRounded, Zero, Normal, Sign, Magnitude;
    StickyRange(y, m);
    ExponentRange(y, v, e);
    StickyRounds(y, m);
    if e + 1076 < 0 {
      PackZero(s, e, m);
      CorrectZero(Pack(s, e, m), s, v);
    } else {
      var q := m / 4 + Increment(m);
      if e + 1076 == 2045 {
        TopBinade(y, v, q);
      }
      PackMagnitude(s, e, m);
      RoundsFrom(v, y, e, q);
      assert Magnitude(Pack(s, e, m)) == q as real * P(e + 2);
      CorrectNormal(Pack(s, e, m), s, v);
    }
  }

  lemma CorrectZero(w: u64, s: nat, v: real)
    requires Sign(w) == s && Zero(w) && v < LeastNormal()
    ensures CorrectlyRounded(w, s, v)
  {
  }

  lemma CorrectNormal(w: u64, s: nat, v: real)
    requires Sign(w) == s && Normal(w) && v >= LeastNormal() && Rounds(v, Magnitude(w))
    ensures CorrectlyRounded(w, s, v)
  {
  }

  // ---------------------------------------------------------------------
  // The shifts by 0 to 63 bits: by 32 first when bit 5 of the count is set
  // ---------------------------------------------------------------------

  /** fpr_ursh */
  function Ursh(x: u64, n: nat): int {
    (if n / 32 == 1 then x / B32 else x) / Pow2(n % 32)
  }

  /** fpr_irsh; >> is an arithmetic shift. */
  function Irsh(x: int, n: nat): int {
    (if n / 32 == 1 then x / B32 else x) / Pow2(n % 32)
  }

  /** fpr_ulsh */
  function Ulsh(x: u64, n: nat): u64 {
    W64((if n / 32 == 1 then W64(x * B32) else x) * Pow2(n % 32))
  }

  /** For every admitted count these are the shifts they stand for. */
  lemma ShiftsArePlain(x: u64, z: int, n: nat)
    requires n < 64
    ensures Ursh(x, n) == x / Pow2(n) && Irsh(z, n) == z / Pow2(n) && Ulsh(x, n) == W64(x * Pow2(n))
  {
    hide Pow2, Ursh, Irsh, Ulsh;
    if n >= 32 {
      LongShifts(x, z, n, Pow2(n - 32));
      Pow2Add(32, n - 32);
      Pow2Word();
      QuotientTwice(x, B32, Pow2(n - 32));
      QuotientTwice(z, B32, Pow2(n - 32));
      ProductTwice(x, Pow2(n - 32));
    } else {
      ShortShifts(x, z, n, Pow2(n));
    }
  }

  lemma ShortShifts(x: u64, z: int, n: nat, b: nat)
    requires n < 32 && b == Pow2(n)
    ensures Ursh(x, n) == x / b && Irsh(z, n) == z / b && Ulsh(x, n) == W64(x * b)
  {
    hide Pow2, W64;
    assert n / 32 == 0 && n % 32 == n;
  }

  lemma LongShifts(x: u64, z: int, n: nat, b: nat)
    requires 32 <= n < 64 && b == Pow2(n - 32)
    ensures Ursh(x, n) == (x / B32) / b && Irsh(z, n) == (z / B32) / b && Ulsh(x, n) == W64(W64(x * B32) * b)
  {
    hide Pow2, W64;
    assert n / 32 == 1 && n % 32 == n - 32;
  }

  lemma Pow2Word()
    ensures Pow2(32) == B32
  {
    hide Pow2;
    Pow2Ten();
    Pow2Two();
    Pow2Add(10, 10);
    Pow2Add(20, 10);
    Pow2Add(30, 2);
  }

  lemma QuotientTwice(x: int, a: int, b: int)
    requires a > 0 && b > 0
    ensures a * b > 0 && (x / a) / b == x / (a * b)
  {
    var q, r := x / a, x % a;
    var s, t := q / b, q % b;
    MulPos(a, b);
    assert x == a * q + r && q == b * s + t;
    MulMono(t, b - 1, a);
    MulMono(0, t, a);
    assert x == (a * b) * s + (a * t + r) by { MulAssoc(a, b, s); assert a * (b * s + t) == a * (b * s) + a * t; }
    assert (b - 1) * a == a * b - a && t * a == a * t;
    UniqueQuotient(x, a * b, s, a * t + r);
  }

  lemma ProductTwice(x: int, b: int)
    ensures W64(W64(x * B32) * b) == W64(x * (B32 * b))
  {
    var q, r := (x * B32) / B64, (x * B32) % B64;
    assert x * B32 == B64 * q + r;
    assert x * (B32 * b) == B64 * (q * b) + r * b by {
      MulAssoc(x, B32, b);
      assert (B64 * q + r) * b == (B64 * q) * b + r * b;
      MulAssoc(B64, q, b);
    }
    AddMultiple(r * b, q * b);
  }

  lemma AddMultiple(x: int, k: int)
    ensures W64(B64 * k + x) == W64(x)
  {
  }

  // ---------------------------------------------------------------------
  // Sticky shifts
  // ---------------------------------------------------------------------

  /** A right shift by one bit that keeps the dropped bit sticky. */
  lemma StickyHalf(y: real, m: int)
    requires Sticky(y, m)
    ensures Sticky(y / 2.0, m / 2 + (if m % 2 == 1 && (m / 2) % 2 == 0 then 1 else 0))
  {
  }

  /** Dropping all bits of m below b, with a sticky bit. */
  function StickyShift(m: int, b: nat): int
    requires b > 0
  {
    m / b + (if m % b != 0 && (m / b) % 2 == 0 then 1 else 0)
  }

  /** Rounding to odd twice is rounding to odd once. */
  lemma StickyTwice(y: real, m: int, b: nat)
    requires Sticky(y, m) && b > 0 && b % 2 == 0
    ensures Sticky(y / b as real, StickyShift(m, b))
  {
    var q, r := m / b, m % b;
    assert m == b * q + r;
    var g := b as real;
    assert m as real == g * q as real + r as real;
    if r == 0 {
      assert b * q % 2 == 0 by { EvenMultiple(b, q); }
      assert y == g * q as real;
      assert y / g == q as real;
    } else {
      assert y > g * q as real && y < g * q as real + g by {
        if r == b - 1 { assert r % 2 == 1; }
      }
      QuotientBetween(y, g, q as real);
    }
  }

  lemma EvenMultiple(b: int, q: int)
    requires b % 2 == 0
    ensures (b * q) % 2 == 0
  {
    var h := b / 2;
    assert b * q == 2 * (h * q) by { MulAssoc(2, h, q); }
  }

  lemma QuotientBetween(y: real, g: real, q: real)
    requires g > 0.0 && g * q < y < g * q + g
    ensures q < y / g < q + 1.0
  {
    var z := y / g;
    assert y == z * g;
    if z <= q {
      ScaleUp(z, q, g);
    }
    if z >= q + 1.0 {
      ScaleUp(q + 1.0, z, g);
    }
  }

  /** n |= 1 when the flag is set. */
  function WithSticky(n: nat, flag: bool): (r: nat)
    ensures n <= r <= n + 1
  {
    if flag && n % 2 == 0 then n + 1 else n
  }

  /** (n >> 1) | (n & 1) */
  function HalfSticky(n: nat): nat {
    WithSticky(n / 2, n % 2 == 1)
  }

  /** m >> 55 */
  function TopBit(m: nat): nat {
    m / T55
  }

  /** The conditional right shift that brings a mantissa of 55 or 56 bits to 55 bits. */
  function Shrink(m: nat): nat {
    if TopBit(m) == 1 then HalfSticky(m) else m
  }

  /** The shifted mantissa stands for the same number once the exponent goes along. */
  lemma Normalized(y: real, m: nat, v: real, e: int) returns (u: real)
    requires Sticky(y, m) && T54 <= m < 2 * T55 && v == y * P(e)
    ensures TopBit(m) <= 1 && T54 <= Shrink(m) < T55 && Sticky(u, Shrink(m)) && v == u * P(e + TopBit(m))
  {
    hide P;
    if m >= T55 {
      StickyHalf(y, m);
      PDouble(e);
      u := y / 2.0;
      HalfDouble(y, P(e));
      assert v == u * P(e + 1);
    } else {
      u := y;
      assert v == u * P(e + 0);
    }
  }

  lemma HalfDouble(y: real, u: real)
    ensures (y / 2.0) * (2.0 * u) == y * u
  {
    var z := y / 2.0;
    assert y == 2.0 * z;
    assert z * (2.0 * u) == (2.0 * z) * u;
  }

  ghost function Signed(s: nat, v: real): real {
    if s == 1 then 0.0 - v else v
  }
}
