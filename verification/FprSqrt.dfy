/** Emulated fpr_sqrt of fpr.c: bit-by-bit square root. */
module FprSqrt {
  import opened Words
  import opened Fpr

  // ---------------------------------------------------------------------
  // The loop
  // ---------------------------------------------------------------------

  /** Before step i: q is the root so far, w its uncertainty, and xu the scaled remainder. */
  ghost predicate Rooting(n: nat, i: nat, q: nat, w: nat, xu: nat) {
    w * Pow2(i) == 2 * T53 && q * q <= n < (q + w) * (q + w) && xu * T53 == (n - q * q) * Pow2(i)
  }

  lemma TrialSquare(q: int, r: int)
    ensures (q + r) * (q + r) == q * q + (2 * q + r) * r
  {
    assert (q + r) * (q + r) == q * q + 2 * (q * r) + r * r;
    assert (2 * q + r) * r == 2 * (q * r) + r * r;
  }

  /** The trial subtraction fits exactly when the next bit belongs to the root. */
  lemma TrialFits(n: nat, p: nat, q: nat, r: nat, xu: nat)
    requires p > 0 && r * p == T53 && q * q <= n && xu * T53 == (n - q * q) * p
    ensures 2 * q + r <= xu <==> (q + r) * (q + r) <= n
    ensures (xu - (2 * q + r)) * T53 == (n - (q + r) * (q + r)) * p
  {
    TrialSquare(q, r);
    var t := 2 * q + r;
    assert t * T53 == (t * r) * p by { MulAssoc(t, r, p); }
    var a, b := n - q * q, t * r;
    assert (xu - t) * T53 == (a - b) * p by { assert (a - b) * p == a * p - b * p; }
    if t <= xu && a < b {
      MulMono(a - b, -1, p);
      assert false;
    }
    if t > xu && a >= b {
      MulMono(0, a - b, p);
      assert false;
    }
  }

  lemma RootStep(n: nat, i: nat, q: nat, w: nat, xu: nat)
    requires Rooting(n, i, q, w, xu) && i < 54
    ensures w % 2 == 0 && w > 0
    ensures var r := w / 2; var t := 2 * q + r;
      if t <= xu then Rooting(n, i + 1, q + r, r, 2 * (xu - t)) else Rooting(n, i + 1, q, r, 2 * xu)
  {
    EvenWidth(i, w);
    var r := w / 2;
    var t := 2 * q + r;
    var p := Pow2(i);
    assert w * p == 2 * (r * p) by { MulAssoc(2, r, p); }
    TrialFits(n, p, q, r, xu);
    NextWidth(r, p, i);
    if t <= xu {
      NextRemainder(xu - t, n - (q + r) * (q + r), i);
      assert q + r + r == q + w;
    } else {
      NextRemainder(xu, n - q * q, i);
    }
  }

  lemma NextWidth(r: nat, p: nat, i: nat)
    requires p == Pow2(i) && r * p == T53
    ensures r * Pow2(i + 1) == 2 * T53
  {
    assert r * (2 * p) == 2 * (r * p) by { MulAssoc(r, 2, p); MulAssoc(2, r, p); }
  }

  lemma NextRemainder(xu: int, a: int, i: nat)
    requires xu * T53 == a * Pow2(i)
    ensures (2 * xu) * T53 == a * Pow2(i + 1)
  {
    var p := Pow2(i);
    assert a * (2 * p) == 2 * (a * p) by { MulAssoc(a, 2, p); MulAssoc(2, a, p); }
  }

  lemma EvenWidth(i: nat, w: nat)
    requires w * Pow2(i) == 2 * T53 && i < 54
    ensures w % 2 == 0 && w > 0
  {
    hide Pow2;
    Pow2Large();
    Pow2Add(53 - i, i);
    var a, p := Pow2(53 - i), Pow2(i);
    MulAssoc(2, a, p);
    CancelFactor(w, 2 * a, p);
  }

  lemma CancelFactor(a: int, b: int, p: int)
    requires p > 0 && a * p == b * p
    ensures a == b
  {
    if a < b { MulMono(a + 1, b, p); }
    if a > b { MulMono(b + 1, a, p); }
  }

  lemma RootBounds(n: nat, i: nat, q: nat, w: nat, xu: nat)
    requires Rooting(n, i, q, w, xu) && n < T54 * T54
    ensures q < T54 && xu < 4 * q + 2 * w && w <= 2 * T53
  {
    var p := Pow2(i);
    if q >= T54 {
      MulMono(T54, q, T54);
      MulMono(T54, q, q);
      assert false;
    }
    MulMono(1, p, w);
    TrialSquare(q, w);
    var a, b := n - q * q, (2 * q + w) * w;
    MulMono(a + 1, b, p);
    assert b * p == (2 * q + w) * (w * p) by { MulAssoc(2 * q + w, w, p); }
    assert xu * T53 < (2 * q + w) * (2 * T53);
  }

  /** ((xu - t) >> 63) is the borrow. */
  lemma BorrowBit(xu: u64, t: u64)
    requires xu < B63 && t < B63
    ensures W64(xu - t) / B63 == if xu < t then 1 else 0
  {
  }

  /** The 54 steps of the square root loop, for a mantissa with 53 fractional bits. */
  method RootBits(n0: u64) returns (q: u64, xu: u64)
    requires T53 <= n0 < T55
    ensures FloorRoot(n0 * T53, q)
    ensures xu == 0 <==> q * q == n0 * T53
  {
    hide Rooting, Pow2;
    ghost var n := n0 * T53;
    var s: u64, r: u64 := 0, T53;
    q, xu := 0, n0;
    ghost var w: nat := 2 * T53;
    RootStart(n0);
    for i := 0 to 54
      invariant Rooting(n, i, q, w, xu) && s == 2 * q && r == w / 2
    {
      RootBounds(n, i, q, w, xu);
      RootStep(n, i, q, w, xu);
      var t: u64 := s + r;
      BorrowBit(xu, t);
      var b := 1 - W64(xu - t) / B63;
      s := s + Mask(b, 2 * r);
      xu := xu - Mask(b, t);
      q := q + Mask(b, r);
      xu := 2 * xu;
      w := r;
      r := r / 2;
    }
    RootEnd(n, q, w, xu);
  }

  lemma RootStart(n0: nat)
    requires T53 <= n0 < T55
    ensures Rooting(n0 * T53, 0, 0, 2 * T53, n0) && n0 * T53 < T54 * T54
  {
  }

  lemma RootEnd(n: nat, q: nat, w: nat, xu: nat)
    requires Rooting(n, 54, q, w, xu)
    ensures FloorRoot(n, q) && (xu == 0 <==> q * q == n)
  {
    hide Pow2;
    Pow2Large();
    assert w == 1;
    assert xu * T53 == (n - q * q) * T54;
  }

  // ---------------------------------------------------------------------
  // Rounding a square root
  // ---------------------------------------------------------------------

  /** q is the integer nearest to the square root of z. */
  ghost predicate NearRoot(z: real, q: int) {
    ((2 * q - 1) * (2 * q - 1)) as real <= 4.0 * z <= ((2 * q + 1) * (2 * q + 1)) as real &&
    (4.0 * z == ((2 * q - 1) * (2 * q - 1)) as real || 4.0 * z == ((2 * q + 1) * (2 * q + 1)) as real ==> q % 2 == 0)
  }

  ghost predicate RootRoundsAt(v: real, r: real, k: int, z: real, q: nat) {
    v == z * P(2 * k) && (T52 * T52) as real <= z < (T53 * T53) as real && NearRoot(z, q) && r == q as real * P(k)
  }

  /** r is the square root of v rounded to 53 significant bits, said without square roots. */
  ghost predicate RootRounds(v: real, r: real) {
    exists k, z, q :: RootRoundsAt(v, r, k, z, q)
  }

  ghost predicate IsRoot(root: real, v: real) {
    root >= 0.0 && root * root == v
  }

  /** r is the rounded value of every nonnegative square root of v. */
  ghost predicate RealRootRounds(v: real, r: real) {
    forall root: real :: IsRoot(root, v) ==> Rounds(root, r)
  }

  /** The final mantissa: 54 root bits and a sticky bit. */
  function RootMantissa(q: nat, exact: bool): nat {
    WithSticky(2 * q, !exact)
  }

  lemma NearRootFrom(n: nat, k: int)
    requires (2 * k - 1) * (2 * k - 1) <= n <= (2 * k + 1) * (2 * k + 1)
    requires n == (2 * k - 1) * (2 * k - 1) || n == (2 * k + 1) * (2 * k + 1) ==> k % 2 == 0
    ensures NearRoot(n as real / 4.0, k)
  {
    var a, b := (2 * k - 1) * (2 * k - 1), (2 * k + 1) * (2 * k + 1);
    assert 4.0 * (n as real / 4.0) == n as real;
    assert a as real <= n as real <= b as real;
  }

  /** q is the integer part of the square root of n. */
  ghost predicate FloorRoot(n: nat, q: nat) {
    q * q <= n < (q + 1) * (q + 1)
  }

  lemma NearEvenRoot(n: nat, k: nat)
    requires k > 0 && FloorRoot(n, 2 * k)
    ensures NearRoot(n as real / 4.0, k)
  {
    hide NearRoot;
    SquareGrows(2 * k - 1, 2 * k);
    NearRootFrom(n, k);
  }

  lemma NearOddRoot(n: nat, k: nat)
    requires k > 0 && FloorRoot(n, 2 * k - 1) && n != (2 * k - 1) * (2 * k - 1)
    ensures NearRoot(n as real / 4.0, k)
  {
    hide NearRoot;
    SquareGrows(2 * k, 2 * k + 1);
    NearRootFrom(n, k);
  }

  lemma NearExactRoot(n: nat, q: nat, k: nat)
    requires n == q * q && k % 2 == 0 && (q == 2 * k - 1 || q == 2 * k + 1)
    ensures NearRoot(n as real / 4.0, k)
  {
    hide NearRoot;
    SquareGrows(2 * k - 1, 2 * k + 1);
    NearRootFrom(n, k);
  }

  lemma RootNear(n: nat, q: nat)
    requires 0 < q && FloorRoot(n, q)
    ensures var m := RootMantissa(q, q * q == n);
      NearRoot(n as real / 4.0, m / 4 + Increment(m))
  {
    hide Increment, NearRoot, FloorRoot, RootMantissa;
    MantissaRounds(q, q * q == n);
    var m := RootMantissa(q, q * q == n);
    var k := m / 4 + Increment(m);
    if q == 2 * k {
      NearEvenRoot(n, k);
    } else if q * q != n {
      NearOddRoot(n, k);
    } else {
      NearExactRoot(n, q, k);
    }
  }

  /** The integer k to which 54 root bits q and the sticky bit round. */
  predicate RoundedRoot(q: int, exact: bool, k: int) {
    if q % 2 == 0 then q == 2 * k else if !exact then q == 2 * k - 1 else k % 2 == 0 && (q == 2 * k - 1 || q == 2 * k + 1)
  }

  lemma MantissaRounds(q: nat, exact: bool)
    ensures var m := RootMantissa(q, exact); RoundedRoot(q, exact, m / 4 + Increment(m))
  {
    hide Increment, RootMantissa, RoundedRoot;
    var m, s := RootMantissa(q, exact), if exact then 0 else 1;
    MantissaIs(q, exact);
    IncrementIs(m);
    var c, d := q / 4, q % 4;
    EightFold(m, c, 2 * d + s);
    RoundedCases(c, d, exact, m / 4 + Increment(m));
  }

  lemma EightFold(m: int, c: int, f: int)
    requires m == 8 * c + f && 0 <= f < 8
    ensures m % 8 == f && m / 4 == 2 * c + f / 4
  {
  }

  lemma RoundedCases(c: int, d: int, exact: bool, k: int)
    requires 0 <= d < 4
    requires var f := 2 * d + if exact then 0 else 1;
      k == 2 * c + f / 4 + if f == 3 || f == 6 || f == 7 then 1 else 0
    ensures RoundedRoot(4 * c + d, exact, k)
  {
    ParityOf(2 * c, d);
    if d == 0 {
      assert k == 2 * c;
    } else if d == 1 {
      assert k == 2 * c + if exact then 0 else 1;
      ParityOf(c, 0);
    } else if d == 2 {
      assert k == 2 * c + 1;
    } else {
      assert k == 2 * c + 2;
      ParityOf(c + 1, 0);
    }
  }

  lemma ParityOf(h: int, d: int)
    requires 0 <= d < 4
    ensures (2 * h + d) % 2 == (if d == 1 || d == 3 then 1 else 0)
  {
    if d >= 2 {
      assert 2 * h + d == 2 * (h + 1) + (d - 2);
    }
  }

  lemma MantissaIs(q: nat, exact: bool)
    ensures RootMantissa(q, exact) == 2 * q + if exact then 0 else 1
  {
  }

  lemma SquareGrows(a: int, b: int)
    requires a < b && a + b >= 0
    ensures a * a <= b * b && (a + b > 0 ==> a * a < b * b)
  {
    assert b * b - a * a == (b - a) * (b + a);
    if a + b > 0 {
      MulPos(b - a, b + a);
    }
  }

  /** A real root lies where the integer root and the sticky bit say. */
  lemma RootSticky(n: nat, q: nat, y: real)
    requires FloorRoot(n, q) && y >= 0.0 && y * y == 4.0 * n as real
    ensures Sticky(y, RootMantissa(q, q * q == n))
  {
    RealSquare(q);
    RealSquare(q + 1);
    RootPlace((2 * q) as real, y, 4.0 * (q * q) as real, 4.0 * n as real, 4.0 * ((q + 1) * (q + 1)) as real);
    if q * q != n {
      assert RootMantissa(q, false) == 2 * q + 1;
    }
  }

  lemma RootPlace(a: real, y: real, aa: real, yy: real, bb: real)
    requires a >= 0.0 && y >= 0.0 && a * a == aa && y * y == yy && (a + 2.0) * (a + 2.0) == bb && aa <= yy < bb
    ensures a <= y < a + 2.0 && (aa == yy <==> a == y)
  {
    if y < a { SquareOrder(y, a); }
    if a < y { SquareOrder(a, y); }
    if a + 2.0 < y { SquareOrder(a + 2.0, y); }
  }

  lemma RealSquare(q: int)
    ensures (2 * q) as real * (2 * q) as real == 4.0 * (q * q) as real
  {
    var r := q as real;
    assert (q * q) as real == r * r;
    assert (2.0 * r) * (2.0 * r) == 4.0 * (r * r);
  }

  lemma SquareDifference(a: real, b: real)
    requires 0.0 <= a < b
    ensures b * b - a * a > 0.0
  {
    PositiveProduct(b - a, b + a);
    assert b * b - a * a == (b - a) * (b + a);
  }

  lemma SquareOrder(a: real, b: real)
    requires 0.0 <= a < b
    ensures a * a < b * b
  {
    var x, y := a * a, b * b;
    SquareDifference(a, b);
    assert y - x > 0.0;
  }

  // ---------------------------------------------------------------------
  // fpr_sqrt
  // ---------------------------------------------------------------------

  /** The radicand in fixed point and half of the even exponent. */
  function Radicand(x: u64): (n: u64)
    ensures T53 <= n < T55
  {
    var xu := Significand(x);
    2 * (if (Exponent(x) - 1023) % 2 == 1 then 2 * xu else xu)
  }

  function HalfExponent(x: u64): int {
    (Exponent(x) - 1023) / 2
  }

  lemma MagnitudeOfRadicand(x: u64)
    requires Normal(x)
    ensures Magnitude(x) == (Radicand(x) * T53) as real * P(2 * HalfExponent(x) - 106)
  {
    hide P, Significand;
    var e, h := Exponent(x) - 1023, HalfExponent(x);
    var t := 2 * h - 106;
    var xu := Significand(x) as real;
    assert e == 2 * h + e % 2;
    PShift(t);
    PDouble(t + 53);
    PDouble(t + 54);
    ThreeFactors(xu, T53 as real, P(t));
    assert P(t + 54) == 2.0 * (T53 as real * P(t));
    if e % 2 == 1 {
      assert Magnitude(x) == xu * P(t + 55);
      assert (Radicand(x) * T53) as real == (4.0 * xu) * T53 as real;
    } else {
      assert Magnitude(x) == xu * P(t + 54);
      assert (Radicand(x) * T53) as real == (2.0 * xu) * T53 as real;
    }
  }

  lemma ThreeFactors(a: real, b: real, c: real)
    ensures ((2.0 * a) * b) * c == a * (2.0 * (b * c)) && ((4.0 * a) * b) * c == a * (4.0 * (b * c))
  {
    RealAssoc(a, b, c);
    assert ((2.0 * a) * b) * c == 2.0 * ((a * b) * c);
    assert ((4.0 * a) * b) * c == 4.0 * ((a * b) * c);
  }

  /** fpr_sqrt, on nonnegative operands. */
  method Sqrt(x: u64) returns (r: u64)
    requires Admitted(x) && Sign(x) == 0
    ensures Zero(x) ==> r == 0
    ensures !Zero(x) ==> Normal(r) && Sign(r) == 0 && RootRounds(Magnitude(x), Magnitude(r))
    ensures !Zero(x) ==> RealRootRounds(Magnitude(x), Magnitude(r))
  {
    hide P, Pack, Magnitude, RealRootRounds, RootRounds, Radicand, Zero, Normal, Sign, Mantissa, FloorRoot, RootMantissa, Significand, Exponent;
    var xu := Significand(x);
    var ex: int := Exponent(x);
    var e := ex - 1023;
    if e % 2 == 1 {
      xu := 2 * xu;
    }
    e := e / 2;
    xu := 2 * xu;
    RadicandIs(x, xu);
    var root, rem := RootBits(xu);
    RadicandRange(x);
    RootRange(xu * T53, root);
    MantissaRange(root, rem == 0);
    var q: u64 := RootMantissa(root, rem == 0);
    e := e - 54;
    OperandZero(x);
    if (ex + 0x7FF) / 0x800 == 0 {
      q := 0;
      PackZero(0, e, 0);
      ZeroWord(Pack(0, e, 0));
    } else {
      SqrtNormal(x, xu * T53, root, q);
      HalfIs(x);
    }
    r := Pack(0, e, q);
  }

  lemma HalfIs(x: u64)
    ensures HalfExponent(x) == (Exponent(x) - 1023) / 2
  {
  }

  lemma RadicandIs(x: u64, n: u64)
    requires n == 2 * (if (Exponent(x) - 1023) % 2 == 1 then 2 * Significand(x) else Significand(x))
    ensures n == Radicand(x)
  {
  }

  lemma OperandZero(x: u64)
    requires Admitted(x)
    ensures (Exponent(x) + 0x7FF) / 0x800 == if Zero(x) then 0 else 1
    ensures !Zero(x) ==> Normal(x)
  {
    FieldsBack(x);
  }

  lemma ZeroWord(r: u64)
    requires Zero(r) && Sign(r) == 0
    ensures r == 0
  {
    FieldsBack(r);
  }

  lemma RootRange(n: nat, q: nat)
    requires FloorRoot(n, q) && T53 * T53 <= n < T54 * T54
    ensures T53 <= q < T54
  {
    if q < T53 {
      MulMono(q + 1, T53, q + 1);
      MulMono(q + 1, T53, T53);
      assert false;
    }
    if q >= T54 {
      MulMono(T54, q, T54);
      MulMono(T54, q, q);
      assert false;
    }
  }

  lemma SqrtNormal(x: u64, n: nat, q: nat, m: u64)
    requires Normal(x) && n == Radicand(x) * T53 && FloorRoot(n, q) && m == RootMantissa(q, q * q == n)
    ensures var r := Pack(0, HalfExponent(x) - 54, m);
      Normal(r) && Sign(r) == 0 && RootRounds(Magnitude(x), Magnitude(r)) && RealRootRounds(Magnitude(x), Magnitude(r))
  {
    hide P, Pack, Magnitude, RealRootRounds, RootRounds, Radicand, Increment, NearRoot, Sign, Normal, Exponent, RootMantissa, HalfExponent, FloorRoot;
    var h := HalfExponent(x);
    RadicandRange(x);
    RootRange(n, q);
    MantissaRange(q, q * q == n);
    HalfRange(x);
    PackMagnitude(0, h - 54, m);
    var g := m / 4 + Increment(m);
    assert Magnitude(Pack(0, h - 54, m)) == g as real * P(h - 52);
    MagnitudeOfRadicand(x);
    RootNear(n, q);
    RootRoundsFrom(Magnitude(x), n, h, g);
    EveryRoot(Magnitude(x), n, q, h, m, Magnitude(Pack(0, h - 54, m)));
  }

  lemma MantissaRange(q: nat, exact: bool)
    requires T53 <= q < T54
    ensures T54 <= RootMantissa(q, exact) < T55
  {
  }

  lemma EveryRoot(v: real, n: nat, q: nat, h: int, m: nat, r: real)
    requires v == n as real * P(2 * h - 106) && FloorRoot(n, q)
    requires m == RootMantissa(q, q * q == n) && T54 <= m < T55 && r == (m / 4 + Increment(m)) as real * P(h - 52)
    ensures RealRootRounds(v, r)
  {
    hide P, Rounds, Increment, Sticky, NearEven, RootMantissa, FloorRoot;
    var g, e := m / 4 + Increment(m), h - 54;
    assert r == g as real * P(e + 2) by { assert e + 2 == h - 52; }
    forall root: real | IsRoot(root, v)
      ensures Rounds(root, r)
    {
      var y := ScaledRoot(root, n, h);
      RootSticky(n, q, y);
      StickyRange(y, m);
      StickyRounds(y, m);
      RoundsFrom(root, y, e, g);
    }
  }

  lemma RadicandRange(x: u64)
    ensures T53 * T53 <= Radicand(x) * T53 < T54 * T54
  {
  }

  lemma HalfRange(x: u64)
    requires Normal(x)
    ensures -511 <= HalfExponent(x) <= 511
  {
  }

  lemma RootRoundsFrom(v: real, n: nat, h: int, g: nat)
    requires v == n as real * P(2 * h - 106) && T53 * T53 <= n < T54 * T54 && NearRoot(n as real / 4.0, g)
    ensures RootRounds(v, g as real * P(h - 52))
  {
    hide P, NearRoot;
    var z := n as real / 4.0;
    PDouble(2 * h - 106);
    PDouble(2 * h - 105);
    assert z * (4.0 * P(2 * h - 106)) == n as real * P(2 * h - 106) by { QuarterTimes(n as real, P(2 * h - 106)); }
    assert 2 * (h - 52) == 2 * h - 104;
    assert RootRoundsAt(v, g as real * P(h - 52), h - 52, z, g);
  }

  lemma QuarterTimes(a: real, b: real)
    ensures (a / 4.0) * (4.0 * b) == a * b
  {
    var z := a / 4.0;
    assert a == 4.0 * z;
    assert z * (4.0 * b) == (4.0 * z) * b;
  }

  /** A real root, in units of 2^(h - 54). */
  lemma ScaledRoot(root: real, n: nat, h: int) returns (y: real)
    requires root >= 0.0 && root * root == n as real * P(2 * h - 106)
    ensures root == y * P(h - 54) && y >= 0.0 && y * y == 4.0 * n as real
  {
    hide P;
    var u := P(h - 54);
    y := root / u;
    assert root == y * u;
    if y < 0.0 {
      ScaleBelow(y, 0.0, u);
      assert false;
    }
    PAdd(h - 54, h - 54);
    PDouble(2 * h - 108);
    PDouble(2 * h - 107);
    assert (h - 54) + (h - 54) == 2 * h - 108;
    FourScale(y, u, n as real, P(2 * h - 108));
  }

  lemma FourScale(y: real, u: real, n: real, w: real)
    requires w > 0.0 && u * u == w && (y * u) * (y * u) == n * (4.0 * w)
    ensures y * y == 4.0 * n
  {
    assert (y * u) * (y * u) == (y * y) * (u * u);
    assert n * (4.0 * w) == (4.0 * n) * w;
    CancelScale(y * y, 4.0 * n, w);
  }
}
