/** Emulated fpr_add and fpr_scaled of fpr.c: alignment, sticky bits and normalization. */
module FprAdd {
  import opened Words
  import opened Fpr

  // ---------------------------------------------------------------------
  // FPR_NORM64
  // ---------------------------------------------------------------------

  /** One step of FPR_NORM64: a left shift by h when the h high bits are all zero. */
  function NormStage(m: u64, e: int, h: nat): (u64, int)
    requires h <= 32
  {
    if m / Pow2(64 - h) != 0 then (m, e + h) else (W64(m * Pow2(h)), e)
  }

  function Norm64(m: u64, e: int): (u64, int) {
    var s0 := NormStage(m, e - 63, 32);
    var s1 := NormStage(s0.0, s0.1, 16);
    var s2 := NormStage(s1.0, s1.1, 8);
    var s3 := NormStage(s2.0, s2.1, 4);
    var s4 := NormStage(s3.0, s3.1, 2);
    NormStage(s4.0, s4.1, 1)
  }

  /** m was shifted by k bits, and e records the bits of the step that were not needed. */
  ghost predicate Shifted(m: u64, e: int, n: u64, f: int, k: nat) {
    n == m * Pow2(k) && f == e - k
  }

  lemma StageShifts(m: u64, e: int, h: nat) returns (k: nat)
    requires 1 <= h <= 32 && m >= Pow2(64 - 2 * h)
    ensures var s := NormStage(m, e, h); Shifted(m, e + h, s.0, s.1, k) && s.0 >= Pow2(64 - h) && k <= h
  {
    hide Pow2;
    Pow2Full();
    Pow2Add(64 - h, h);
    Pow2Add(64 - 2 * h, h);
    if m / Pow2(64 - h) != 0 {
      k := 0;
      Pow2Zero();
      AboveOne(m, Pow2(64 - h));
    } else {
      k := h;
      BelowOne(m, Pow2(64 - h));
      MulMono(m + 1, Pow2(64 - h), Pow2(h));
      MulMono(Pow2(64 - 2 * h), m, Pow2(h));
      assert m * Pow2(h) < B64 by { assert Pow2(64 - h) * Pow2(h) == B64; MulPositive(m, Pow2(h)); }
    }
  }

  lemma MulPositive(m: nat, p: nat)
    requires p > 0
    ensures 0 <= m * p && (m + 1) * p == m * p + p
  {
    MulMono(0, m, p);
  }

  lemma Pow2Zero()
    ensures Pow2(0) == 1
  {
  }

  lemma Pow2Full()
    ensures Pow2(64) == B64 && Pow2(63) == B63
  {
    hide Pow2;
    Pow2Large();
    Pow2Eight();
    Pow2Add(55, 8);
    Pow2Add(55, 9);
  }

  lemma Pow2Eight()
    ensures Pow2(8) == 0x100 && Pow2(9) == 0x200
  {
  }

  lemma AboveOne(m: nat, p: nat)
    requires p > 0 && m / p != 0
    ensures m >= p
  {
  }

  lemma BelowOne(m: nat, p: nat)
    requires p > 0 && m / p == 0
    ensures m < p
  {
  }

  lemma ShiftedTwice(m: u64, e: int, n: u64, f: int, k: nat, r: u64, g: int, j: nat)
    requires Shifted(m, e, n, f, k) && Shifted(n, f, r, g, j)
    ensures Shifted(m, e, r, g, k + j)
  {
    hide Pow2;
    Pow2Add(k, j);
    MulAssoc(m, Pow2(k), Pow2(j));
  }

  lemma MoreRoom(m: u64, e: int, n: u64, f: int, k: nat, h: int)
    requires Shifted(m, e, n, f, k)
    ensures Shifted(m, e + h, n, f + h, k)
  {
  }

  /** FPR_NORM64 shifts a nonzero m to the left until its top bit is set, and corrects the exponent. */
  lemma NormShifts(m: u64, e: int) returns (k: nat)
    requires m > 0
    ensures var s := Norm64(m, e); Shifted(m, e, s.0, s.1, k) && s.0 >= B63 && k <= 63
  {
    hide NormStage, Shifted, Pow2;
    Pow2Zero();
    Pow2Full();
    var s0 := NormStage(m, e - 63, 32);
    var s1 := NormStage(s0.0, s0.1, 16);
    var s2 := NormStage(s1.0, s1.1, 8);
    var s3 := NormStage(s2.0, s2.1, 4);
    var s4 := NormStage(s3.0, s3.1, 2);
    var s5 := NormStage(s4.0, s4.1, 1);
    var k0 := StageShifts(m, e - 63, 32);
    var k1 := StageShifts(s0.0, s0.1, 16);
    var k2 := StageShifts(s1.0, s1.1, 8);
    var k3 := StageShifts(s2.0, s2.1, 4);
    var k4 := StageShifts(s3.0, s3.1, 2);
    var k5 := StageShifts(s4.0, s4.1, 1);
    MoreRoom(m, e - 31, s0.0, s0.1, k0, 16);
    ShiftedTwice(m, e - 15, s0.0, s0.1 + 16, k0, s1.0, s1.1, k1);
    MoreRoom(m, e - 15, s1.0, s1.1, k0 + k1, 8);
    ShiftedTwice(m, e - 7, s1.0, s1.1 + 8, k0 + k1, s2.0, s2.1, k2);
    MoreRoom(m, e - 7, s2.0, s2.1, k0 + k1 + k2, 4);
    ShiftedTwice(m, e - 3, s2.0, s2.1 + 4, k0 + k1 + k2, s3.0, s3.1, k3);
    MoreRoom(m, e - 3, s3.0, s3.1, k0 + k1 + k2 + k3, 2);
    ShiftedTwice(m, e - 1, s3.0, s3.1 + 2, k0 + k1 + k2 + k3, s4.0, s4.1, k4);
    MoreRoom(m, e - 1, s4.0, s4.1, k0 + k1 + k2 + k3 + k4, 1);
    ShiftedTwice(m, e, s4.0, s4.1 + 1, k0 + k1 + k2 + k3 + k4, s5.0, s5.1, k5);
    k := k0 + k1 + k2 + k3 + k4 + k5;
  }

  lemma NormZero(e: int)
    ensures Norm64(0, e).0 == 0
  {
    hide Pow2;
    assert forall e: int, h: nat :: h <= 32 ==> NormStage(0, e, h).0 == 0 by {
      forall e: int, h: nat | h <= 32
        ensures NormStage(0, e, h).0 == 0
      {
        StageZero(e, h);
      }
    }
  }

  lemma StageZero(e: int, h: nat)
    requires h <= 32
    ensures NormStage(0, e, h).0 == 0
  {
    assert 0 * Pow2(h) == 0;
  }

  // ---------------------------------------------------------------------
  // Down to 55 bits
  // ---------------------------------------------------------------------

  /** m |= (m & 0x1FF) + 0x1FF; m >>= 9 */
  function DropNine(m: u64): (r: u64)
    ensures r == StickyShift(m, 0x200)
  {
    WithSticky(m / 0x200, (m % 0x200 + 0x1FF) / 0x200 == 1)
  }

  lemma DropRange(m: u64)
    requires m >= B63
    ensures T54 <= DropNine(m) < T55
  {
  }

  /** Shifting up by k and down by j + k is shifting down by j. */
  lemma ShiftDown(m: nat, a: nat, b: nat)
    requires a > 0 && b > 0
    ensures b * a > 0 && StickyShift(m * a, b * a) == StickyShift(m, b)
  {
    MulPos(b, a);
    var q, r := m / b, m % b;
    ScaledDivision(m, a, b, q, r);
    UniqueQuotient(m * a, b * a, q, r * a);
    ShiftFrom(m, b, q, r);
    ShiftFrom(m * a, b * a, q, r * a);
  }

  lemma ScaledDivision(m: int, a: int, b: int, q: int, r: int)
    requires m == b * q + r && 0 <= r < b && a > 0
    ensures m * a == (b * a) * q + r * a && 0 <= r * a < b * a && (r * a == 0 <==> r == 0)
  {
    MulAssoc(b, q, a);
    MulAssoc(b, a, q);
    assert q * a == a * q;
    assert (b * q + r) * a == (b * q) * a + r * a;
    MulMono(r + 1, b, a);
    assert (r + 1) * a == r * a + a;
    if r > 0 { MulMono(1, r, a); }
  }

  lemma ShiftFrom(m: int, b: nat, q: int, r: int)
    requires b > 0 && m / b == q && m % b == r
    ensures StickyShift(m, b) == q + (if r != 0 && q % 2 == 0 then 1 else 0)
  {
  }

  /** A shift that drops nothing. */
  lemma ShiftExact(m: nat, b: nat)
    requires b > 0
    ensures StickyShift(m * b, b) == m
  {
    UniqueQuotient(m * b, b, m, 0);
  }

  lemma SticksBelow(y: real, m: u64, n: u64, k: nat) returns (u: real)
    requires Sticky(y, m) && n == m * Pow2(k) && k < 9
    ensures Sticky(u, StickyShift(n, 0x200)) && u == y * P(k - 9)
  {
    hide Pow2, P, Sticky, StickyShift;
    NineSplit(k);
    var b := Pow2(9 - k);
    ShiftDown(m, Pow2(k), b);
    Pow2Even(9 - k);
    StickyTwice(y, m, b);
    u := y / b as real;
    NegativePower(9 - k);
    DivideByPower(y, b as real, P(k - 9));
  }

  lemma SticksAbove(m: u64, n: u64, k: nat) returns (u: real)
    requires n == m * Pow2(k) && k >= 9
    ensures Sticky(u, StickyShift(n, 0x200)) && u == m as real * P(k - 9)
  {
    hide Pow2, P, Sticky, StickyShift;
    UpSplit(k);
    var c := m * Pow2(k - 9);
    MulAssoc(m, Pow2(k - 9), Pow2(9));
    MulMono(0, m, Pow2(k - 9));
    ShiftExact(c, 0x200);
    StickySelf(c);
    RealOf(m, Pow2(k - 9));
    u := c as real;
  }

  lemma SticksExactly(y: real, m: u64, n: u64)
    requires Sticky(y, m) && n == m * Pow2(9)
    ensures Sticky(y, StickyShift(n, 0x200)) && y == y * P(0)
  {
    hide Pow2, P, Sticky, StickyShift;
    POne();
    NineIs();
    ShiftExact(m, 0x200);
  }

  /**
   * Normalizing a sticky integer and dropping nine bits gives a sticky mantissa of 55 bits,
   * provided that an inexact integer is not shifted up too far.
   */
  lemma SticksToMantissa(y: real, m: u64, n: u64, k: nat) returns (u: real)
    requires Sticky(y, m) && n == m * Pow2(k) && k <= 63 && (k > 9 ==> y == m as real)
    ensures Sticky(u, DropNine(n)) && u == y * P(k - 9)
  {
    hide Pow2, P, DropNine, Sticky, StickyShift;
    if k < 9 {
      u := SticksBelow(y, m, n, k);
    } else if k == 9 {
      SticksExactly(y, m, n);
      u := y;
    } else {
      u := SticksAbove(m, n, k);
    }
  }

  lemma RealOf(a: int, b: int)
    ensures (a * b) as real == a as real * b as real
  {
  }

  lemma StickySelf(m: int)
    ensures Sticky(m as real, m)
  {
  }

  lemma NineSplit(k: nat)
    requires k <= 9
    ensures Pow2(9 - k) * Pow2(k) == 0x200
  {
    Pow2Add(9 - k, k);
    NineIs();
  }

  lemma NineIs()
    ensures Pow2(9) == 0x200
  {
  }

  lemma UpSplit(k: nat)
    requires k >= 9
    ensures Pow2(k) == Pow2(k - 9) * Pow2(9) && Pow2(9) == 0x200 && P(k - 9) == Pow2(k - 9) as real
  {
    Pow2Add(k - 9, 9);
    NineIs();
  }

  lemma Pow2Even(k: nat)
    requires k > 0
    ensures Pow2(k) % 2 == 0
  {
  }

  lemma NegativePower(k: nat)
    ensures P(0 - k) == 1.0 / Pow2(k) as real
  {
  }

  lemma DivideByPower(y: real, b: real, p: real)
    requires b > 0.0 && p == 1.0 / b
    ensures y / b == y * p
  {
    assert p * b == 1.0;
    var z := y / b;
    assert y == z * b;
    assert y * p == z * (b * p) by { RealAssoc(z, b, p); }
    assert b * p == 1.0;
  }

  /** The whole ending: normalize, drop nine bits, round. */
  function Finish(s: nat, m: u64, e: int): u64
    requires s <= 1
  {
    var t := Norm64(m, e);
    Pack(s, t.1 + 9, DropNine(t.0))
  }

  lemma FinishRounds(s: nat, m: u64, e: int, y: real, v: real)
    requires s <= 1 && m > 0 && Sticky(y, m) && v == y * P(e) && v < Overflow()
    requires m < T54 ==> y == m as real
    ensures CorrectlyRounded(Finish(s, m, e), s, v)
  {
    hide Pow2, P, Pack, DropNine, Sticky, Overflow, CorrectlyRounded, Norm64;
    var k := NormShifts(m, e);
    var t := Norm64(m, e);
    DropRange(t.0);
    if m >= T54 {
      ShiftBound(m, t.0, k);
    }
    var u := SticksToMantissa(y, m, t.0, k);
    PAdd(k - 9, t.1 + 9);
    assert (k - 9) + (t.1 + 9) == e;
    assert v == u * P(t.1 + 9) by { RealAssoc(y, P(k - 9), P(t.1 + 9)); }
    PackRounds(s, t.1 + 9, DropNine(t.0), u, v);
  }

  lemma ShiftBound(m: u64, n: u64, k: nat)
    requires n == m * Pow2(k) && m >= T54
    ensures k <= 9
  {
    if k > 9 {
      Pow2Add(k - 10, 10);
      assert Pow2(10) == 1024;
      MulMono(1, Pow2(k - 10), 1024);
      MulMono(T54, m, Pow2(k));
      MulMono(1024, Pow2(k), T54);
      assert false;
    }
  }

  lemma FinishZero(s: nat, e: int)
    requires s <= 1
    ensures Zero(Finish(s, 0, e)) && Sign(Finish(s, 0, e)) == s
  {
    hide Norm64, Pack;
    NormZero(e);
    PackZero(s, Norm64(0, e).1 + 9, 0);
  }

  // ---------------------------------------------------------------------
  // fpr_scaled
  // ---------------------------------------------------------------------

  /** fpr_scaled: the number i * 2^sc. */
  function ScaledFpr(i: int, sc: int): u64
    requires 0 - B63 < i < B63
  {
    var s := if i < 0 then 1 else 0;
    var a: u64 := if i < 0 then 0 - i else i;
    var t := Norm64(a, 9 + sc);
    if a == 0 then Pack(s, 0, 0) else Pack(s, t.1, DropNine(t.0))
  }

  /** fpr_scaled is correctly rounded; in particular, zero gives +0. */
  lemma ScaledCorrect(i: int, sc: int)
    requires 0 - B63 < i < B63 && (if i < 0 then 0 - i else i) as real * P(sc) < Overflow()
    ensures i == 0 ==> ScaledFpr(i, sc) == 0
    ensures i != 0 ==>
      CorrectlyRounded(ScaledFpr(i, sc), if i < 0 then 1 else 0, (if i < 0 then 0 - i else i) as real * P(sc))
  {
    hide P, Pack, DropNine, Overflow, CorrectlyRounded, Norm64;
    if i == 0 {
      PackNothing();
    } else {
      var s := if i < 0 then 1 else 0;
      var a: u64 := if i < 0 then 0 - i else i;
      StickySelf(a);
      FinishRounds(s, a, sc, a as real, a as real * P(sc));
      NormLater(a, sc, 9);
    }
  }

  lemma PackNothing()
    ensures Pack(0, 0, 0) == 0
  {
  }

  /** The exponent only goes along. */
  lemma NormLater(m: u64, e: int, d: int)
    ensures Norm64(m, d + e) == (Norm64(m, e).0, Norm64(m, e).1 + d)
  {
    hide Pow2, W64;
  }

  // ---------------------------------------------------------------------
  // fpr_add
  // ---------------------------------------------------------------------

  /** The conditional swap at the start: larger absolute value first, and on a tie a set sign last. */
  function MustSwap(x: u64, y: u64): bool {
    var za := W64(x % B63 - y % B63);
    za / B63 == 1 || (W64(0 - za) / B63 == 0 && x / B63 == 1)
  }

  /** The mantissa with three more bits; zero for a zero. */
  function Aligned(x: u64): (m: nat)
    ensures m % 8 == 0 && m < 2 * T55
  {
    var ex := Exponent(x);
    (Mantissa(x) + ((ex + 0x7FF) / 0x800) * T52) * 8
  }

  /** The smaller mantissa, shifted right by cc with a sticky bit; from 60 on it is dropped. */
  function AlignDown(yu: nat, cc: nat): nat {
    var y := if cc - 60 < 0 then yu else 0;
    var c := cc % 64;
    WithSticky(y / Pow2(c), (y % Pow2(c) + (Pow2(c) - 1)) / Pow2(c) == 1)
  }

  function AddOrdered(x: u64, y: u64): u64
    requires Exponent(x) >= Exponent(y)
  {
    var ex, ey := Exponent(x) - 1078, Exponent(y) - 1078;
    var xu := Aligned(x);
    var yu := AlignDown(Aligned(y), ex - ey);
    var m := W64(if Sign(x) == Sign(y) then xu + yu else xu - yu);
    Finish(Sign(x), m, ex)
  }

  /** fpr_add */
  function Add(x: u64, y: u64): u64 {
    SwapOrders(x, y);
    if MustSwap(x, y) then AddOrdered(y, x) else AddOrdered(x, y)
  }

  /** After the swap: the order of the encodings is the order of exponents, then of mantissas. */
  ghost predicate Ordered(x: u64, y: u64) {
    Exponent(x) >= Exponent(y) && (Exponent(x) == Exponent(y) ==> Mantissa(x) >= Mantissa(y)) &&
    (x % B63 == y % B63 ==> Sign(x) == 0 || Sign(y) == 1)
  }

  lemma SwapOrders(x: u64, y: u64)
    ensures if MustSwap(x, y) then Ordered(y, x) else Ordered(x, y)
  {
    hide W64, Ordered, Exponent, Mantissa;
    SwapMeans(x % B63, y % B63);
    FieldsBack(x);
    FieldsBack(y);
    if MustSwap(x, y) {
      OrderOf(y, x);
    } else {
      OrderOf(x, y);
    }
  }

  lemma SwapMeans(a: nat, b: nat)
    requires a < B63 && b < B63
    ensures W64(a - b) / B63 == (if a < b then 1 else 0)
    ensures W64(0 - W64(a - b)) / B63 == (if a > b then 1 else 0)
  {
  }

  lemma OrderOf(x: u64, y: u64)
    requires x % B63 >= y % B63 && (x % B63 == y % B63 ==> Sign(x) == 0 || Sign(y) == 1)
    ensures Ordered(x, y)
  {
    hide Sign;
    FieldsOfRest(x);
    FieldsOfRest(y);
  }

  lemma FieldsOfRest(x: u64)
    ensures x % B63 == Exponent(x) * T52 + Mantissa(x)
  {
  }

  lemma AlignedIs(x: u64)
    requires Admitted(x)
    ensures Aligned(x) == if Zero(x) then 0 else 8 * Significand(x)
    ensures !Zero(x) ==> T55 <= Aligned(x)
    ensures Magnitude(x) == Aligned(x) as real * P(Exponent(x) - 1078)
  {
    hide P;
    FieldsBack(x);
    NotZero(x);
    PAdd(Exponent(x) - 1078, 3);
    PSmall();
    if Zero(x) {
      assert 0.0 * P(Exponent(x) - 1078) == 0.0;
    } else {
      EightFold(Significand(x) as real, P(Exponent(x) - 1078));
    }
  }

  lemma EightFold(a: real, u: real)
    ensures a * (u * 8.0) == (8.0 * a) * u
  {
  }

  /** The exact sum or difference in units of the last place of x, and that it is a difference of the larger and the smaller. */
  ghost function Exact(x: u64, y: u64): real
    requires Exponent(x) >= Exponent(y)
  {
    var d := Aligned(y) as real / Pow2(Exponent(x) - Exponent(y)) as real;
    if Sign(x) == Sign(y) then Aligned(x) as real + d else Aligned(x) as real - d
  }

  lemma SmallerPart(x: u64, y: u64)
    requires Admitted(x) && Admitted(y) && Exponent(x) >= Exponent(y)
    ensures Magnitude(y) == (Aligned(y) as real / Pow2(Exponent(x) - Exponent(y)) as real) * P(Exponent(x) - 1078)
  {
    hide Aligned, Pow2, Exponent, Magnitude;
    AlignedIs(y);
    var cc := Exponent(x) - Exponent(y);
    var ey := Exponent(y) - 1078;
    PAdd(ey, cc);
    assert P(cc) == Pow2(cc) as real;
    assert ey + cc == Exponent(x) - 1078;
    ScaledPart(Aligned(y) as real, Pow2(cc) as real, P(ey));
  }

  lemma ScaledPart(a: real, c: real, u: real)
    requires c > 0.0
    ensures a * u == (a / c) * (u * c)
  {
    var z := a / c;
    assert a == z * c;
    assert z * (u * c) == (z * c) * u by { RealAssoc(z, c, u); assert u * c == c * u; }
  }

  /** The sum of the values, with the sign of the first. */
  lemma ExactSum(x: u64, y: u64)
    requires Admitted(x) && Admitted(y) && Exponent(x) >= Exponent(y)
    ensures Value(x) + Value(y) == Signed(Sign(x), Exact(x, y) * P(Exponent(x) - 1078))
  {
    hide Aligned, Pow2, Exponent, Magnitude, P, Sign, Admitted;
    SignBound(x);
    SignBound(y);
    AlignedIs(x);
    SmallerPart(x, y);
    var a, d := Aligned(x) as real, Aligned(y) as real / Pow2(Exponent(x) - Exponent(y)) as real;
    SignedSum(Sign(x), Sign(y), a, d, P(Exponent(x) - 1078));
  }

  lemma SignedSum(s: nat, t: nat, a: real, d: real, u: real)
    requires s <= 1 && t <= 1
    ensures Signed(s, a * u) + Signed(t, d * u) == Signed(s, (if s == t then a + d else a - d) * u)
  {
    var x, y := a * u, d * u;
    assert (a + d) * u == x + y && (a - d) * u == x - y;
  }

  lemma AlignDownIs(yu: nat, cc: nat)
    ensures cc < 60 ==> AlignDown(yu, cc) == StickyShift(yu, Pow2(cc))
    ensures cc >= 60 ==> AlignDown(yu, cc) == 0
  {
    hide Pow2;
    var y := if cc - 60 < 0 then yu else 0;
    var p := Pow2(cc % 64);
    RoundUpOne(y % p, p);
    if cc >= 60 {
      ZeroOver(p);
    }
  }

  lemma ZeroOver(p: nat)
    requires p > 0
    ensures 0 / p == 0 && 0 % p == 0
  {
  }

  lemma RoundUpOne(r: nat, p: nat)
    requires r < p
    ensures (r + (p - 1)) / p == if r == 0 then 0 else 1
  {
    if r == 0 {
      UniqueQuotient(p - 1, p, 0, p - 1);
    } else {
      UniqueQuotient(r + (p - 1), p, 1, r - 1);
    }
  }

  /** Adding an even integer to a sticky one, or subtracting it from one. */
  lemma StickyPlus(z: real, m: int, a: int)
    requires Sticky(z, m) && a % 2 == 0
    ensures Sticky(a as real + z, a + m) && Sticky(a as real - z, a - m)
  {
  }

  /** An alignment by up to 3 bits drops nothing; a longer one leaves a small number. */
  lemma AlignRange(yu: nat, cc: nat)
    requires yu % 8 == 0 && yu < 2 * T55
    ensures cc <= 3 ==> yu % Pow2(cc) == 0
    ensures cc >= 4 ==> StickyShift(yu, Pow2(cc)) <= T52
    ensures StickyShift(yu, Pow2(cc)) <= 2 * T55
  {
    hide StickyShift, Pow2;
    var p := Pow2(cc);
    SmallPowers();
    MulMono(1, p, 2 * T55);
    ShiftAtMost(yu, p, 2 * T55);
    if cc <= 3 {
      EightDivides(yu, p);
    } else {
      Pow2Add(cc - 4, 4);
      MulMono(1, Pow2(cc - 4), 16);
      MulMono(16, p, T52);
      ShiftAtMost(yu, p, T52);
    }
  }

  lemma SmallPowers()
    ensures Pow2(0) == 1 && Pow2(1) == 2 && Pow2(2) == 4 && Pow2(3) == 8 && Pow2(4) == 16
  {
  }

  lemma ShiftAtMost(m: nat, p: nat, b: nat)
    requires p > 0 && m < b * p
    ensures StickyShift(m, p) <= b
  {
    var q := m / p;
    assert m == p * q + m % p;
    if q >= b {
      MulMono(b, q, p);
      assert false;
    }
  }

  lemma ExactQuotient(yu: nat, p: nat)
    requires p > 0 && yu % p == 0
    ensures yu as real / p as real == StickyShift(yu, p) as real
  {
    var q := yu / p;
    assert yu == p * q;
    assert yu as real == q as real * p as real by { RealOf(q, p); assert p * q == q * p; }
    var z := yu as real / p as real;
    assert z * p as real == yu as real;
    CancelScale(z, q as real, p as real);
  }

  lemma ExactIs(x: u64, y: u64, d: real)
    requires Exponent(x) >= Exponent(y) && d == Aligned(y) as real / Pow2(Exponent(x) - Exponent(y)) as real
    ensures Exact(x, y) == if Sign(x) == Sign(y) then Aligned(x) as real + d else Aligned(x) as real - d
  {
    hide Aligned, Pow2, Sign, Exponent;
  }

  /** The aligned second operand is sticky, and exact unless the first one is much larger. */
  lemma PartSticky(x: u64, y: u64, d: real)
    requires Admitted(x) && Admitted(y) && Ordered(x, y) && 0 <= Exponent(x) - Exponent(y) < 60
    requires d == Aligned(y) as real / Pow2(Exponent(x) - Exponent(y)) as real
    ensures var yu := AlignDown(Aligned(y), Exponent(x) - Exponent(y));
      yu <= Aligned(x) && yu <= 2 * T55 && Sticky(d, yu) && (d == yu as real || Aligned(x) - yu >= T54)
  {
    hide Pow2, Sticky, StickyShift, AlignDown, Aligned, Exponent, Sign, Ordered, Admitted;
    var cc := Exponent(x) - Exponent(y);
    AlignDownIs(Aligned(y), cc);
    AlignRange(Aligned(y), cc);
    DifferenceRange(x, y);
    var p := Pow2(cc);
    if Aligned(y) % p == 0 {
      ExactQuotient(Aligned(y), p);
      StickySelf(StickyShift(Aligned(y), p));
    } else {
      ShiftSticky(Aligned(y), p, cc);
    }
  }

  lemma SumParts(same: bool, a: nat, yu: nat, d: real, t: real)
    requires a % 8 == 0 && a < 2 * T55 && yu <= a && yu <= 2 * T55 && Sticky(d, yu) && (d == yu as real || a - yu >= T54)
    requires t == if same then a as real + d else a as real - d
    ensures var m := if same then a + yu else a - yu;
      0 <= m < B64 && Sticky(t, m) && (m < T54 ==> t == m as real)
  {
    hide Sticky;
    EvenAligned(a);
    StickyPlus(d, yu, a);
  }

  lemma EvenAligned(a: nat)
    requires a % 8 == 0
    ensures a % 2 == 0
  {
    EightDivides(a, 2);
  }

  lemma EightDivides(a: nat, p: nat)
    requires a % 8 == 0 && (p == 1 || p == 2 || p == 4 || p == 8)
    ensures a % p == 0
  {
    var k := a / 8;
    assert a == 8 * k;
    if p == 1 {
      UniqueQuotient(a, 1, a, 0);
    } else if p == 2 {
      UniqueQuotient(a, 2, 4 * k, 0);
    } else if p == 4 {
      UniqueQuotient(a, 4, 2 * k, 0);
    } else {
      UniqueQuotient(a, 8, k, 0);
    }
  }

  /** The integer that the addition or subtraction leaves is sticky, and exact when it is small. */
  lemma SumSticky(x: u64, y: u64)
    requires Admitted(x) && Admitted(y) && Ordered(x, y) && 0 <= Exponent(x) - Exponent(y) < 60
    ensures var xu, yu := Aligned(x), AlignDown(Aligned(y), Exponent(x) - Exponent(y));
      var m := if Sign(x) == Sign(y) then xu + yu else xu - yu;
      0 <= m < B64 && Sticky(Exact(x, y), m) && (m < T54 ==> Exact(x, y) == m as real)
  {
    hide Pow2, Sticky, AlignDown, Aligned, Exponent, Sign, Exact, Ordered, Admitted;
    var d := Aligned(y) as real / Pow2(Exponent(x) - Exponent(y)) as real;
    ExactIs(x, y, d);
    PartSticky(x, y, d);
    SumParts(Sign(x) == Sign(y), Aligned(x), AlignDown(Aligned(y), Exponent(x) - Exponent(y)), d, Exact(x, y));
  }

  lemma ShiftSticky(m: nat, p: nat, cc: nat)
    requires p == Pow2(cc) && m % p != 0
    ensures Sticky(m as real / p as real, StickyShift(m, p))
  {
    Pow2Zero();
    Pow2Even(cc);
    StickySelf(m);
    StickyTwice(m as real, m, p);
  }

  /** No underflow in the subtraction; when bits were dropped, the difference stays large. */
  lemma DifferenceRange(x: u64, y: u64)
    requires Admitted(x) && Admitted(y) && Ordered(x, y) && Exponent(x) >= Exponent(y)
    ensures var cc := Exponent(x) - Exponent(y); var yu := StickyShift(Aligned(y), Pow2(cc));
      yu <= Aligned(x) && (Aligned(y) % Pow2(cc) != 0 ==> cc >= 4 && Aligned(x) - yu >= T54)
  {
    hide Pow2, StickyShift, Aligned;
    var cc := Exponent(x) - Exponent(y);
    AlignedIs(x);
    AlignedIs(y);
    AlignRange(Aligned(y), cc);
    FieldsBack(x);
    FieldsBack(y);
    if cc == 0 {
      Pow2Zero();
      ShiftExact(Aligned(y), 1);
      assert Aligned(x) >= Aligned(y);
    } else if cc <= 3 {
      Pow2Add(cc - 1, 1);
      LittleShift(Aligned(y), cc);
    }
  }

  lemma LittleShift(yu: nat, cc: nat)
    requires 1 <= cc <= 3 && yu % 8 == 0 && yu < 2 * T55
    ensures StickyShift(yu, Pow2(cc)) <= T55
  {
    hide Pow2;
    SmallPowers();
  }

  /** fpr_add on operands in order and not too far apart. */
  lemma AddNear(x: u64, y: u64)
    requires Admitted(x) && Admitted(y) && Ordered(x, y) && 0 <= Exponent(x) - Exponent(y) < 60
    requires Exact(x, y) * P(Exponent(x) - 1078) < Overflow()
    ensures Exact(x, y) >= 0.0
    ensures Exact(x, y) > 0.0 ==> CorrectlyRounded(AddOrdered(x, y), Sign(x), Exact(x, y) * P(Exponent(x) - 1078))
    ensures Exact(x, y) == 0.0 ==> Zero(AddOrdered(x, y)) && Sign(AddOrdered(x, y)) == Sign(x)
  {
    hide Pow2, P, Sticky, AlignDown, Aligned, Exponent, Sign, Overflow, CorrectlyRounded, Finish, Exact, Zero, Admitted, Ordered;
    SumSticky(x, y);
    var yu: int := AlignDown(Aligned(y), Exponent(x) - Exponent(y));
    var m := if Sign(x) == Sign(y) then Aligned(x) + yu else Aligned(x) - yu;
    NoWrap(m);
    SignBound(x);
    StickyNatural(Exact(x, y), m);
    if m == 0 {
      FinishZero(Sign(x), Exponent(x) - 1078);
    } else {
      FinishRounds(Sign(x), m, Exponent(x) - 1078, Exact(x, y), Exact(x, y) * P(Exponent(x) - 1078));
    }
  }

  lemma SignBound(x: u64)
    ensures Sign(x) <= 1
  {
  }

  lemma StickyNatural(y: real, m: nat)
    requires Sticky(y, m)
    ensures y >= 0.0 && (y == 0.0 <==> m == 0)
  {
  }

  lemma EightBy(a: real, u: real, w: real, b: real)
    requires w == 8.0 * u && b == 8.0 * a
    ensures a * w == b * u
  {
  }

  lemma TwoBy(a: real, u: real, w: real, b: real)
    requires w == 2.0 * u && b == 2.0 * a
    ensures a * w == b * u
  {
  }

  /** Below half of a unit in the last place, also just below a power of two. */
  lemma FarRounds(q: nat, k: int, d: real, minus: bool, v: real, r: real)
    requires T52 <= q < T53 && 0.0 < d < 0.5
    requires v == (if minus then q as real - d / 4.0 else q as real + d / 4.0) * P(k) && r == q as real * P(k)
    ensures Rounds(v, r)
  {
    hide P;
    var z := if minus then q as real - d / 4.0 else q as real + d / 4.0;
    if minus && q == T52 {
      FarBelowPower(q, k, z, v, r);
    } else {
      assert RoundsAt(v, r, k, z, q);
    }
  }

  lemma FarBelowPower(q: nat, k: int, z: real, v: real, r: real)
    requires q == T52 && q as real - 0.125 < z < q as real && v == z * P(k) && r == q as real * P(k)
    ensures Rounds(v, r)
  {
    hide P;
    var p := 2 * q;
    PDouble(k - 1);
    TwoBy(z, P(k - 1), P(k), 2.0 * z);
    TwoBy(q as real, P(k - 1), P(k), p as real);
    assert RoundsAt(v, r, k - 1, 2.0 * z, p);
  }

  /** A representable number rounds to itself. */
  lemma RoundsExact(q: nat, k: int, v: real, r: real)
    requires T52 <= q < T53 && v == q as real * P(k) && Rounds(v, r)
    ensures r == v
  {
    hide P;
    assert RoundsAt(v, v, k, q as real, q);
    RoundsUnique(v, r, v);
  }

  lemma FarQuotient(yu: nat, cc: nat)
    requires 0 < yu < 2 * T55 && cc >= 60
    ensures 0.0 < yu as real / Pow2(cc) as real < 0.5
  {
    hide Pow2;
    Pow2Large();
    Pow2Add(55, 5);
    Pow2Five();
    Pow2Add(60, cc - 60);
    MulMono(1, Pow2(cc - 60), 32 * T55);
    var z, p := yu as real / Pow2(cc) as real, Pow2(cc) as real;
    assert z * p == yu as real;
    if z <= 0.0 { ScaleUp(z, 0.0, p); }
    if z >= 0.5 { ScaleUp(0.5, z, p); }
  }

  lemma Pow2Five()
    ensures Pow2(5) == 32
  {
  }

  lemma FiniteBelow(x: u64)
    requires Normal(x)
    ensures Magnitude(x) < Overflow()
  {
    hide P, Significand;
    PMono(Exponent(x) - 1075, 971);
    PDouble(970);
    FiniteChain(Significand(x) as real, P(Exponent(x) - 1075), P(970));
  }

  lemma FiniteChain(q: real, u: real, w: real)
    requires 0.0 <= q <= (T53 - 1) as real && u <= 2.0 * w && w > 0.0
    ensures q * u < (2 * T53 - 1) as real * w
  {
    var h := 2.0 * q;
    ScaleUp(u, 2.0 * w, q);
    TwoBy(q, w, 2.0 * w, h);
    assert q * u <= h * w;
    ScaleBelow(h, (2 * T53 - 1) as real, w);
  }

  /** fpr_add when the second operand is zero or too small to matter. */
  lemma AddFar(x: u64, y: u64)
    requires Admitted(x) && Admitted(y) && Exponent(x) - Exponent(y) >= 60
    ensures Exact(x, y) > 0.0 && CorrectlyRounded(AddOrdered(x, y), Sign(x), Exact(x, y) * P(Exponent(x) - 1078))
  {
    hide Pow2, P, AlignDown, Aligned, Sign, Overflow, CorrectlyRounded, Finish, Exact, Significand, Magnitude, Exponent, AddOrdered, Rounds, LeastNormal, Sticky, Normal, Zero, Admitted;
    FarShape(x, y);
    AlignedIs(x);
    AlignedIs(y);
    FiniteBelow(x);
    SignBound(x);
    StickySelf(Aligned(x));
    FinishRounds(Sign(x), Aligned(x), Exponent(x) - 1078, Aligned(x) as real, Magnitude(x));
    if Aligned(y) == 0 {
      FarZero(x, y);
      SameValue(AddOrdered(x, y), Sign(x), Magnitude(x), Exact(x, y) * P(Exponent(x) - 1078));
    } else {
      FarSum(x, y);
      SameResult(AddOrdered(x, y), Sign(x), x, Exact(x, y) * P(Exponent(x) - 1078));
    }
  }

  lemma SameValue(w: u64, s: nat, v: real, u: real)
    requires CorrectlyRounded(w, s, v) && u == v
    ensures CorrectlyRounded(w, s, u)
  {
  }

  lemma FarShape(x: u64, y: u64)
    requires Admitted(x) && Exponent(x) - Exponent(y) >= 60
    ensures Normal(x) && !Zero(x) && AddOrdered(x, y) == Finish(Sign(x), Aligned(x), Exponent(x) - 1078)
  {
    hide Finish, Aligned, AlignDown, Sign;
    AlignDownIs(Aligned(y), Exponent(x) - Exponent(y));
    NoWrap(Aligned(x));
    FieldsBack(x);
  }

  lemma FarZero(x: u64, y: u64)
    requires Exponent(x) >= Exponent(y) && Aligned(y) == 0
    ensures Exact(x, y) == Aligned(x) as real
  {
    hide Aligned, Pow2;
    assert 0.0 / Pow2(Exponent(x) - Exponent(y)) as real == 0.0;
  }

  lemma FarSum(x: u64, y: u64)
    requires Normal(x) && Exponent(x) - Exponent(y) >= 60 && Aligned(y) > 0 && Aligned(x) == 8 * Significand(x)
    ensures var v := Exact(x, y) * P(Exponent(x) - 1078);
      Exact(x, y) > 0.0 && v >= LeastNormal() && Rounds(v, Magnitude(x))
  {
    hide Pow2, P, Aligned, Significand, Exponent, Rounds, LeastNormal;
    var cc, ex, q := Exponent(x) - Exponent(y), Exponent(x) - 1078, Significand(x);
    NormalExponent(x);
    FarQuotient(Aligned(y), cc);
    var d := Aligned(y) as real / Pow2(cc) as real;
    var minus := Sign(x) != Sign(y);
    var z := if minus then q as real - (d / 2.0) / 4.0 else q as real + (d / 2.0) / 4.0;
    FarExact(x, y, q, d, z);
    PSmall();
    PAdd(ex, 3);
    EightBy(z, P(ex), P(ex + 3), Exact(x, y));
    assert ex + 3 == Exponent(x) - 1075;
    FarRounds(q, ex + 3, d / 2.0, minus, Exact(x, y) * P(Exponent(x) - 1078), Magnitude(x));
    FarLarge(Exact(x, y), Exponent(x) - 1078, Exponent(y));
  }

  lemma FarExact(x: u64, y: u64, q: nat, d: real, z: real)
    requires Exponent(x) >= Exponent(y) && T52 <= q && Aligned(x) == 8 * q && 0.0 < d < 0.5
    requires d == Aligned(y) as real / Pow2(Exponent(x) - Exponent(y)) as real
    requires z == if Sign(x) != Sign(y) then q as real - (d / 2.0) / 4.0 else q as real + (d / 2.0) / 4.0
    ensures Exact(x, y) == 8.0 * z && Exact(x, y) >= T54 as real
  {
    hide Pow2, Aligned, Sign;
  }

  lemma FarLarge(t: real, ex: int, ey: nat)
    requires t >= T54 as real && ex + 1078 >= ey + 60
    ensures t * P(ex) >= LeastNormal()
  {
    hide P;
    PShift(ex);
    ScaleUp(T54 as real, t, P(ex));
    PMono(-1022, ex + 54);
  }

  lemma NormalExponent(x: u64)
    requires Normal(x)
    ensures Exponent(x) >= 1
  {
  }

  /** A result that is right for a representable number is right for whatever rounds to it. */
  lemma SameResult(w: u64, s: nat, x: u64, v: real)
    requires Normal(x) && CorrectlyRounded(w, s, Magnitude(x)) && v >= LeastNormal() && Rounds(v, Magnitude(x))
    ensures CorrectlyRounded(w, s, v)
  {
    hide P, Rounds, LeastNormal, Sign, Zero, Significand;
    NormalExponent(x);
    NormalLarge(Significand(x) as real, Exponent(x) - 1075);
    RoundsExact(Significand(x), Exponent(x) - 1075, Magnitude(x), Magnitude(w));
  }

  lemma NormalLarge(q: real, k: int)
    requires q >= T52 as real && k >= -1074
    ensures q * P(k) >= LeastNormal()
  {
    hide P;
    PShift(k);
    ScaleUp(T52 as real, q, P(k));
    PMono(-1022, k + 52);
  }

  /** What a correctly rounded sum is: of the sign of the exact sum, or +0, or -0 from two -0. */
  ghost predicate CorrectSum(w: u64, x: u64, y: u64) {
    var t := Value(x) + Value(y);
    (t > 0.0 ==> CorrectlyRounded(w, 0, t)) && (t < 0.0 ==> CorrectlyRounded(w, 1, 0.0 - t)) &&
    (t == 0.0 ==> Zero(w) && Sign(w) == if Sign(x) == 1 && Sign(y) == 1 then 1 else 0)
  }

  /** In a cancellation, the first operand after the swap is the positive one. */
  lemma ZeroSign(x: u64, y: u64)
    requires Admitted(x) && Admitted(y) && Ordered(x, y) && Value(x) + Value(y) == 0.0
    ensures Sign(x) == if Sign(x) == 1 && Sign(y) == 1 then 1 else 0
  {
    hide P, Overflow;
    FieldsBack(x);
    FieldsBack(y);
    NotZero(x);
    NotZero(y);
    if Sign(x) == 1 && Sign(y) == 0 {
      assert Magnitude(x) == Magnitude(y);
      MagnitudeInjective(x, y);
      FieldsOfRest(x);
      FieldsOfRest(y);
      assert false;
    }
  }

  /** Equal sizes have equal encodings. */
  lemma MagnitudeInjective(x: u64, y: u64)
    requires Admitted(x) && Admitted(y) && Magnitude(x) == Magnitude(y)
    ensures Exponent(x) == Exponent(y) && Mantissa(x) == Mantissa(y)
  {
    hide P, Exponent, Mantissa;
    FieldsBack(x);
    FieldsBack(y);
    NotZero(x);
    NotZero(y);
    if !Zero(x) {
      var a, b, j, k := Significand(x) as real, Significand(y) as real, Exponent(x) - 1075, Exponent(y) - 1075;
      SameBinade(a, b, j, k);
      SameBinade(b, a, k, j);
      CancelScale(a, b, P(j));
    }
  }

  lemma OrderedCorrect(x: u64, y: u64)
    requires Admitted(x) && Admitted(y) && Ordered(x, y)
    requires 0.0 - Overflow() < Value(x) + Value(y) < Overflow()
    ensures CorrectSum(AddOrdered(x, y), x, y)
  {
    hide P, Overflow, Exact, CorrectlyRounded, AddOrdered, Value, Sign, Exponent, Zero;
    assert Exponent(x) >= Exponent(y) by { OrderedExponents(x, y); }
    ExactSum(x, y);
    SignBound(x);
    var t, u := Exact(x, y), P(Exponent(x) - 1078);
    if Exponent(x) - Exponent(y) < 60 {
      ExactNatural(x, y);
      ScaledSign(t, u);
      AddNear(x, y);
    } else {
      AddFar(x, y);
      ScaledSign(t, u);
    }
    if t == 0.0 {
      ZeroSign(x, y);
    }
  }

  lemma OrderedExponents(x: u64, y: u64)
    requires Ordered(x, y)
    ensures Exponent(x) >= Exponent(y)
  {
  }

  lemma ScaledSign(t: real, u: real)
    requires t >= 0.0 && u > 0.0
    ensures t > 0.0 ==> t * u > 0.0
    ensures t == 0.0 ==> t * u == 0.0
  {
  }

  lemma ExactNatural(x: u64, y: u64)
    requires Admitted(x) && Admitted(y) && Ordered(x, y) && 0 <= Exponent(x) - Exponent(y) < 60
    ensures Exact(x, y) >= 0.0
  {
    hide Sticky, Exact, AlignDown, Aligned, Exponent, Sign, Ordered;
    SumSticky(x, y);
    var yu: int := AlignDown(Aligned(y), Exponent(x) - Exponent(y));
    StickyNatural(Exact(x, y), if Sign(x) == Sign(y) then Aligned(x) + yu else Aligned(x) - yu);
  }

  /**
   * fpr_add is correctly rounded on all zeros and normal numbers whose sum is in range, whatever
   * the cancellation.
   */
  lemma AddCorrect(x: u64, y: u64)
    requires Admitted(x) && Admitted(y) && 0.0 - Overflow() < Value(x) + Value(y) < Overflow()
    ensures CorrectSum(Add(x, y), x, y)
  {
    hide P, Overflow, CorrectlyRounded, AddOrdered, Value, Sign, Ordered, Admitted, MustSwap, Zero;
    SwapOrders(x, y);
    if MustSwap(x, y) {
      OrderedCorrect(y, x);
      assert Value(x) + Value(y) == Value(y) + Value(x);
    } else {
      OrderedCorrect(x, y);
    }
  }
}
