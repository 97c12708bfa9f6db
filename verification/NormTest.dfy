/** is_short and is_short_half of common.c, and the maximum signature length that follows. */
module NormTest {
  import opened Words
  import opened Bits
  import C = CompCodec
  import F = Fpr

  /** A value of type int16_t. */
  type i16 = x: int | -0x8000 <= x < 0x8000 witness 0

  /** l2bound */
  function Bound(logn: nat): (b: nat)
    requires 1 <= logn <= 10
    ensures b < B31
  {
    [101498, 208714, 428865, 892039, 1852696, 3842630, 7959734, 16468416, 34034726, 70265242][logn - 1]
  }

  // ---------------------------------------------------------------------
  // The table is floor(beta^2), for beta = 1.1 * sigma * sqrt(2n)
  // ---------------------------------------------------------------------

  /** fpr_inv_sigma: 1/sigma for each degree, as emulated binary64 numbers. */
  function InvSigma(logn: nat): (x: u64)
    requires 1 <= logn <= 10
  {
    [4574611497772390042, 4574501679055810265, 4574396282908341804, 4574245855758572086, 4574103865040221165,
     4573969550563515544, 4573842244705920822, 4573721358406441454, 4573606369665796042, 4573496814039276259][logn - 1]
  }

  /** The bound is the floor of 1.21 * sigma^2 * 2n. */
  lemma BoundIsBeta(logn: nat)
    requires 1 <= logn <= 10
    ensures var z := F.Value(InvSigma(logn));
      z > 0.0 && Bound(logn) as real <= 1.21 * Pow2(logn + 1) as real / (z * z) < (Bound(logn) + 1) as real
  {
    hide F.Value, Pow2;
    TableFields(logn);
    Pow2Table(logn);
    var s := F.Significand(InvSigma(logn));
    SigmaValue(InvSigma(logn), s);
    FloorOfBeta(Bound(logn), s, Pow2(logn + 1), F.Value(InvSigma(logn)));
  }

  /** The entries as fractions s / 2^60, and the inequality between integers. */
  lemma TableFields(logn: nat)
    requires 1 <= logn <= 10
    ensures F.Sign(InvSigma(logn)) == 0 && F.Exponent(InvSigma(logn)) == 1015
    ensures var s, n := F.Significand(InvSigma(logn)), PowerTable(logn);
      100 * (Bound(logn) * (s * s)) <= 121 * n * T120 < 100 * ((Bound(logn) + 1) * (s * s))
  {
  }

  function PowerTable(logn: nat): nat
    requires 1 <= logn <= 10
  {
    [4, 8, 16, 32, 64, 128, 256, 512, 1024, 2048][logn - 1]
  }

  lemma Pow2Table(logn: nat)
    requires 1 <= logn <= 10
    ensures Pow2(logn + 1) == PowerTable(logn)
  {
    assert Pow2(2) == 4 && Pow2(3) == 8 && Pow2(4) == 16 && Pow2(5) == 32 && Pow2(6) == 64;
    assert Pow2(7) == 128 && Pow2(8) == 256 && Pow2(9) == 512 && Pow2(10) == 1024 && Pow2(11) == 2048;
  }

  const T60: nat := 0x1000_0000_0000_0000
  const T120: nat := 0x100_0000_0000_0000_0000_0000_0000_0000

  lemma SigmaValue(x: u64, s: nat)
    requires F.Sign(x) == 0 && F.Exponent(x) == 1015 && s == F.Significand(x)
    ensures F.Value(x) == s as real / T60 as real
  {
    hide Pow2;
    F.Pow2Large();
    Pow2Add(50, 10);
    F.Pow2Ten();
    assert F.P(-60) == 1.0 / Pow2(60) as real;
  }

  lemma FloorOfBeta(b: nat, s: nat, n: nat, z: real)
    requires s > 0 && z == s as real / T60 as real
    requires 100 * (b * (s * s)) <= 121 * n * T120 < 100 * ((b + 1) * (s * s))
    ensures z > 0.0 && b as real <= 1.21 * n as real / (z * z) < (b + 1) as real
  {
    var x := s * s;
    var q, t := x as real, T120 as real;
    ScaledSquare(s, z, x);
    RealProduct(b, x);
    RealProduct(b + 1, x);
    RealProduct(n, T120);
    Hundredths(n, b * x, (b + 1) * x, n as real * t, 1.21 * n as real, t);
    FloorBracket(b as real, (b + 1) as real, 1.21 * n as real, z * z, t, q);
  }

  lemma RealProduct(a: int, b: int)
    ensures (a * b) as real == a as real * b as real
  {
  }

  lemma Hundredths(n: int, c: int, d: int, y: real, m: real, t: real)
    requires 100 * c <= 121 * n * T120 < 100 * d && y == (n * T120) as real && y == n as real * t && m == 1.21 * n as real
    ensures c as real <= m * t < d as real
  {
    assert m * t == 1.21 * (n as real * t);
  }

  lemma ScaledSquare(s: nat, z: real, x: nat)
    requires s > 0 && z == s as real / T60 as real && x == s * s
    ensures x > 0 && z > 0.0 && z * z > 0.0 && (z * z) * T120 as real == x as real
  {
    var r, t := s as real, T60 as real;
    RealProduct(s, s);
    RealProduct(T60, T60);
    MulPos(s, s);
    assert z * t == r;
    SquareScaled(z, r, t);
  }

  lemma SquareScaled(z: real, r: real, t: real)
    requires z * t == r && r > 0.0 && t > 0.0
    ensures z > 0.0 && z * z > 0.0 && (z * z) * (t * t) == r * r
  {
    if z <= 0.0 {
      F.ScaleUp(z, 0.0, t);
    }
    F.PositiveProduct(z, z);
    assert (z * z) * (t * t) == z * (z * (t * t)) by { F.RealAssoc(z, z, t * t); }
    assert z * (t * t) == (z * t) * t by { F.RealAssoc(z, t, t); }
    assert z * ((z * t) * t) == (z * t) * (z * t) by { F.RealAssoc(z * t, z, t); F.RealAssoc(z, z * t, t); }
  }

  lemma FloorBracket(a: real, b: real, m: real, w: real, t: real, q: real)
    requires w > 0.0 && t > 0.0 && q > 0.0 && w * t == q && a * q <= m * t < b * q
    ensures a <= m / w < b
  {
    var y := m / w;
    assert y * w == m;
    assert y * q == m * t by { F.RealAssoc(y, w, t); }
    if y < a {
      F.ScaleBelow(y, a, q);
    }
    if y >= b {
      F.ScaleUp(b, y, q);
    }
  }

  /** The squared norm, over the unbounded integers. */
  ghost function SquareSum(s: seq<i16>): (r: nat) {
    if |s| == 0 then 0 else
    var z: int := s[|s| - 1];
    SquareBound(z);
    SquareSum(s[..|s| - 1]) + z * z
  }

  lemma SquareBound(z: int)
    requires -0x8000 <= z < 0x8000
    ensures 0 <= z * z <= 0x4000_0000
  {
    MulMono(0 - z, 0x8000, if z < 0 then 0 - z else 0);
    MulMono(z, 0x8000, if z < 0 then 0 else z);
    assert z * z == (0 - z) * (0 - z);
  }

  lemma SumNext(s: seq<i16>, u: nat)
    requires u < |s|
    ensures var z: int := s[u]; SquareSum(s[..u + 1]) == SquareSum(s[..u]) + z * z
  {
    assert s[..u + 1][..u] == s[..u];
  }

  /**
   * The 32-bit accumulators of a true sum `total`: exact, and unmarked, while it is below 2^31;
   * marked in bit 31 of ng ever after.
   */
  ghost predicate Tracks(s: u32, ng: bool, total: nat) {
    (ng <==> total >= B31) && (!ng ==> s == total)
  }

  /** Adding one square cannot step over the marked zone: it is at most 2^30. */
  lemma TrackStep(s: u32, ng: bool, total: nat, z: i16)
    requires Tracks(s, ng, total)
    ensures 0 <= z * z && Tracks(W32(s + W32(z * z)), ng || W32(s + W32(z * z)) / B31 == 1, total + z * z)
  {
    SquareBound(z);
    Marks(s, ng, total, z * z);
  }

  lemma Marks(s: u32, ng: bool, total: nat, q: nat)
    requires Tracks(s, ng, total) && q <= 0x4000_0000
    ensures Tracks(W32(s + W32(q)), ng || W32(s + W32(q)) / B31 == 1, total + q)
  {
  }

  /** s |= -(ng >> 31): saturation. */
  function Saturated(s: u32, ng: bool): u32 {
    if ng then B32 - 1 else s
  }

  lemma SaturatedCompares(s: u32, ng: bool, total: nat, bound: nat)
    requires Tracks(s, ng, total) && bound < B31
    ensures Saturated(s, ng) <= bound <==> total <= bound
  {
  }

  /** is_short: no wraparound can make a long vector look short. */
  method IsShort(s1: seq<i16>, s2: seq<i16>, logn: nat) returns (r: bool)
    requires 1 <= logn <= 10 && |s1| == |s2| == Pow2(logn)
    ensures r <==> SquareSum(s1) + SquareSum(s2) <= Bound(logn)
  {
    hide SquareSum, Tracks, Pow2, W32, Saturated, Bound;
    var n := Pow2(logn);
    var s: u32, ng := 0, false;
    TrackStart(s1, s2);
    for u := 0 to n
      invariant Tracks(s, ng, SquareSum(s1[..u]) + SquareSum(s2[..u]))
    {
      SumNext(s1, u);
      SumNext(s2, u);
      ghost var total := SquareSum(s1[..u]) + SquareSum(s2[..u]);
      var z: int := s1[u];
      TrackStep(s, ng, total, z);
      s := W32(s + W32(z * z));
      ng := ng || s / B31 == 1;
      total := total + z * z;
      z := s2[u];
      TrackStep(s, ng, total, z);
      s := W32(s + W32(z * z));
      ng := ng || s / B31 == 1;
    }
    assert s1[..n] == s1 && s2[..n] == s2;
    SaturatedCompares(s, ng, SquareSum(s1) + SquareSum(s2), Bound(logn));
    r := Saturated(s, ng) <= Bound(logn);
  }

  lemma TrackStart(s1: seq<i16>, s2: seq<i16>)
    ensures Tracks(0, false, SquareSum(s1[..0]) + SquareSum(s2[..0]))
  {
  }

  /** The saturated squared norm of the first half that is_short_half expects. */
  ghost function SaturatedNorm(s: seq<i16>): u32 {
    if SquareSum(s) < B31 then SquareSum(s) else B32 - 1
  }

  /** is_short_half, for any saturated value of the first sum. */
  method IsShortHalf(sqn0: u32, s2: seq<i16>, logn: nat) returns (r: bool)
    requires 1 <= logn <= 10 && |s2| == Pow2(logn)
    ensures r <==> sqn0 + SquareSum(s2) <= Bound(logn)
    ensures forall s1 :: sqn0 == SaturatedNorm(s1) ==> (r <==> SquareSum(s1) + SquareSum(s2) <= Bound(logn))
  {
    hide SquareSum, Tracks, Pow2, W32, Saturated, Bound;
    var n := Pow2(logn);
    var sqn: u32, ng := sqn0, sqn0 / B31 == 1;
    HalfStart(sqn0, s2);
    for u := 0 to n
      invariant Tracks(sqn, ng, sqn0 + SquareSum(s2[..u]))
    {
      SumNext(s2, u);
      var z: int := s2[u];
      TrackStep(sqn, ng, sqn0 + SquareSum(s2[..u]), z);
      sqn := W32(sqn + W32(z * z));
      ng := ng || sqn / B31 == 1;
    }
    assert s2[..n] == s2;
    SaturatedCompares(sqn, ng, sqn0 + SquareSum(s2), Bound(logn));
    r := Saturated(sqn, ng) <= Bound(logn);
  }

  lemma HalfStart(sqn: u32, s2: seq<i16>)
    ensures Tracks(sqn, sqn / B31 == 1, sqn + SquareSum(s2[..0]))
  {
  }

  // ---------------------------------------------------------------------
  // The maximum length of a compressed signature
  // ---------------------------------------------------------------------

  /** FALCON_SIG_COMPRESSED_MAXSIZE, without the 41 bytes of header and nonce. */
  function MaxCompressed(logn: nat): nat
    requires 1 <= logn <= 10
  {
    (11 * Pow2(logn) + 101 / Pow2(10 - logn) + 7) / 8
  }

  /** The number of bits in unary part, beyond the fixed nine, of all values. */
  ghost function HighSum(x: seq<int>): nat {
    if |x| == 0 then 0 else HighSum(x[..|x| - 1]) + C.AbsValue(x[|x| - 1]) / 128
  }

  lemma {:induction false} BitsCount(x: seq<int>)
    ensures |C.CompBits(x)| == 9 * |x| + HighSum(x)
  {
    if |x| > 0 {
      BitsCount(x[..|x| - 1]);
    }
  }

  /** The tangent of w^2 at w = 2: each value pays for its high part with its square. */
  lemma HighPaid(z: int)
    ensures 65536 * (C.AbsValue(z) / 128) <= z * z + 65536
  {
    var t := C.AbsValue(z);
    var w := t / 128;
    assert z * z == t * t by { if z < 0 { assert (0 - z) * (0 - z) == z * z; } }
    MulMono(128 * w, t, t);
    MulMono(128 * w, t, 128 * w);
    assert (128 * w) * t == t * (128 * w);
    SquareTangent(w);
    assert (128 * w) * (128 * w) == 16384 * (w * w);
  }

  lemma SquareTangent(w: int)
    ensures 4 * w <= w * w + 4
  {
    assert (w - 2) * (w - 2) == w * w - 4 * w + 4;
    if w >= 2 { MulMono(0, w - 2, w - 2); } else { MulMono(0, 2 - w, 2 - w); assert (2 - w) * (2 - w) == (w - 2) * (w - 2); }
  }

  lemma {:induction false} HighSumPaid(x: seq<i16>)
    ensures 65536 * HighSum(x) <= SquareSum(x) + 65536 * |x|
  {
    if |x| > 0 {
      HighSumPaid(x[..|x| - 1]);
      HighPaid(x[|x| - 1]);
    }
  }

  lemma BoundAllows(logn: nat)
    requires 1 <= logn <= 10
    ensures 9 * Pow2(logn) + Bound(logn) / 65536 + Pow2(logn) <= 11 * Pow2(logn) + 101 / Pow2(10 - logn)
  {
    assert Pow2(0) == 1 && Pow2(1) == 2 && Pow2(2) == 4 && Pow2(3) == 8 && Pow2(4) == 16 && Pow2(5) == 32;
    assert Pow2(6) == 64 && Pow2(7) == 128 && Pow2(8) == 256 && Pow2(9) == 512 && Pow2(10) == 1024;
  }

  /** A vector short enough to be accepted never needs more than the published maximum length. */
  lemma AcceptedFits(s1: seq<i16>, s2: seq<i16>, logn: nat)
    requires 1 <= logn <= 10 && |s2| == Pow2(logn) && SquareSum(s1) + SquareSum(s2) <= Bound(logn)
    ensures C.CompLength(s2) <= MaxCompressed(logn)
  {
    hide SquareSum, HighSum, Bound, Pow2, C.CompBits;
    BitsCount(s2);
    HighSumPaid(s2);
    BoundAllows(logn);
    assert HighSum(s2) <= Bound(logn) / 65536 + Pow2(logn);
  }
}
