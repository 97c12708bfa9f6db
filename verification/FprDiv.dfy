/** Emulated fpr_div of fpr.c: bit-by-bit long division. */
module FprDiv {
  import opened Words
  import opened Fpr

  /** After i steps: 2^i * X == q * Y + xu, with an even q. */
  ghost predicate Dividing(a: nat, b: nat, i: nat, q: nat, xu: nat) {
    a * Pow2(i) == q * b + xu && q % 2 == 0 && xu < 2 * b && q < Pow2(i + 1)
  }

  lemma DivideStep(a: nat, b: nat, i: nat, q: nat, xu: nat)
    requires Dividing(a, b, i, q, xu)
    ensures Dividing(a, b, i + 1, 2 * (if xu >= b then q + 1 else q), 2 * (if xu >= b then xu - b else xu))
  {
    hide Pow2;
    var c := if xu >= b then 1 else 0;
    Pow2Next(i);
    Pow2Next(i + 1);
    DoubleStep(a, b, Pow2(i), q, xu, c);
  }

  lemma DoubleStep(a: int, b: int, p: int, q: int, xu: int, c: int)
    requires a * p == q * b + xu && 0 <= c <= 1
    ensures a * (2 * p) == (2 * (q + c)) * b + 2 * (xu - if c == 1 then b else 0)
  {
    assert a * (2 * p) == 2 * (a * p) by { MulAssoc(a, 2, p); MulAssoc(2, a, p); }
    assert (2 * (q + c)) * b == 2 * (q * b) + 2 * (c * b) by { MulAssoc(2, q + c, b); assert (q + c) * b == q * b + c * b; }
    if c == 0 { assert c * b == 0; } else { assert c * b == b; }
  }

  lemma QuotientRange(a: nat, b: nat, q: nat, xu: nat)
    requires T52 <= a < T53 && T52 <= b < T53 && Dividing(a, b, 55, q, xu)
    ensures T54 <= q < 2 * T55 - 1
  {
    hide Pow2;
    Pow2Large();
    Pow2Next(55);
    MulMono(b, T53 - 1, T54);
    MulMono(T52, a, T55);
    if q < T54 {
      MulMono(q, T54 - 2, b);
      assert false;
    }
  }

  lemma Pow2Next(k: nat)
    ensures Pow2(k + 1) == 2 * Pow2(k)
  {
  }

  /** The remainder makes the extra quotient bit sticky. */
  lemma QuotientSticky(n: nat, b: nat, q: nat, xu: nat)
    requires b > 0 && n == q * b + xu && xu < 2 * b && q % 2 == 0
    ensures Sticky(n as real / b as real, WithSticky(q, xu != 0))
  {
    hide Sticky, WithSticky;
    var z := n as real / b as real;
    RealSum(n, q, b, xu);
    QuotientBack(n as real, b as real, z);
    if xu == 0 {
      CancelScale(z, q as real, b as real);
      StickyEven(z, q);
    } else {
      WithinTwo(z, q as real, b as real, xu as real);
      StickyOdd(z, q);
    }
  }

  lemma StickyEven(z: real, q: nat)
    requires z == q as real
    ensures Sticky(z, WithSticky(q, false))
  {
  }

  lemma StickyOdd(z: real, q: nat)
    requires q % 2 == 0 && q as real < z < q as real + 2.0
    ensures Sticky(z, WithSticky(q, true))
  {
    assert WithSticky(q, true) == q + 1;
  }

  lemma QuotientBack(n: real, b: real, z: real)
    requires b > 0.0 && z == n / b
    ensures z * b == n
  {
  }

  lemma RealSum(n: int, q: int, b: int, r: int)
    requires n == q * b + r
    ensures n as real == q as real * b as real + r as real
  {
  }

  lemma WithinTwo(z: real, p: real, g: real, r: real)
    requires g > 0.0 && z * g == p * g + r && 0.0 < r < 2.0 * g
    ensures p < z < p + 2.0
  {
    var d := z - p;
    assert d * g == r;
    if d <= 0.0 { ScaleUp(d, 0.0, g); }
    if d >= 2.0 { ScaleUp(2.0, d, g); }
  }

  /** The 55 steps of the division loop. */
  method DivideBits(xu0: u64, yu: u64) returns (q: u64, xu: u64)
    requires T52 <= xu0 < T53 && T52 <= yu < T53
    ensures Dividing(xu0, yu, 55, q, xu)
  {
    hide Dividing;
    q, xu := 0, xu0;
    StartDividing(xu0, yu);
    for i := 0 to 55
      invariant Dividing(xu0, yu, i, q, xu)
    {
      DivideStep(xu0, yu, i, q, xu);
      DividingFits(xu0, yu, i, q, xu);
      DividingFits(xu0, yu, i + 1, 2 * (if xu >= yu then q + 1 else q), 2 * (if xu >= yu then xu - yu else xu));
      BorrowBit(xu, yu);
      var b := 1 - W64(xu - yu) / B63;
      xu := xu - Mask(b, yu);
      q := q + b;
      xu := 2 * xu;
      q := 2 * q;
    }
  }

  lemma StartDividing(a: nat, b: nat)
    requires a < T53 && b >= T52
    ensures Dividing(a, b, 0, 0, a)
  {
  }

  lemma DividingFits(a: nat, b: nat, i: nat, q: nat, xu: nat)
    requires Dividing(a, b, i, q, xu) && i <= 55 && b < T53
    ensures xu < T54 && q < 2 * T55
  {
    hide Pow2;
    Pow2Large();
    Pow2Next(55);
    Pow2Mono(i + 1, 56);
  }

  lemma {:induction false} Pow2Mono(i: nat, j: nat)
    requires i <= j
    ensures Pow2(i) <= Pow2(j)
    decreases j - i
  {
    if i < j {
      Pow2Mono(i + 1, j);
    }
  }

  /** ((xu - yu) >> 63) is the borrow. */
  lemma BorrowBit(xu: u64, yu: u64)
    requires xu < B63 && yu < B63
    ensures W64(xu - yu) / B63 == if xu < yu then 1 else 0
  {
  }

  lemma NormalPositive(x: u64)
    requires Normal(x)
    ensures Magnitude(x) > 0.0
  {
    hide P;
    PositiveProduct(Significand(x) as real, P(Exponent(x) - 1075));
  }

  /** The exact quotient of the absolute values. */
  ghost function QuotientOf(x: u64, y: u64): real
    requires Normal(y)
  {
    NormalPositive(y);
    Magnitude(x) / Magnitude(y)
  }

  /** fpr_div. A zero dividend gives +0 whatever the signs are. */
  method Div(x: u64, y: u64) returns (r: u64)
    requires Admitted(x) && Normal(y) && QuotientOf(x, y) < Overflow()
    ensures Zero(x) ==> r == 0
    ensures !Zero(x) ==> var s := if Sign(x) == Sign(y) then 0 else 1;
      CorrectlyRounded(r, s, QuotientOf(x, y)) && Value(x) == Signed(s, QuotientOf(x, y)) * Value(y)
  {
    hide QuotientOf, P, Pack, Overflow, CorrectlyRounded, Magnitude, Dividing, Sticky, Shrink, TopBit;
    var xu, yu := Significand(x), Significand(y);
    var q, rem := DivideBits(xu, yu);
    QuotientRange(xu, yu, q, rem);
    var q1 := WithSticky(q, rem != 0);
    var w, q2 := TopBit(q1), Shrink(q1);
    var ex: int, ey: int := Exponent(x), Exponent(y);
    var e := ex - ey - 55 + w;
    var s := if Sign(x) == Sign(y) then 0 else 1;
    var d := (ex + 0x7FF) / 0x800;
    NotZero(x);
    if d == 0 {
      s, e, q2 := 0, 0, 0;
      assert Zero(x) by { DividendZero(x); }
      PackPlusZero();
    } else {
      assert !Zero(x) by { DividendZero(x); }
      DivNormal(x, y, q, rem);
      SignsDivide(x, y);
      QuotientFits(q1);
    }
    r := Pack(s, e, q2);
  }

  lemma DividendZero(x: u64)
    requires Admitted(x)
    ensures (Exponent(x) + 0x7FF) / 0x800 == if Zero(x) then 0 else 1
  {
    FieldsBack(x);
  }

  lemma PackPlusZero()
    ensures Pack(0, 0, 0) == 0
  {
  }

  lemma QuotientFits(q: nat)
    requires q < 2 * T55
    ensures Shrink(q) < B64
  {
  }

  lemma SignsDivide(x: u64, y: u64)
    requires Normal(y)
    ensures Value(x) == Signed(if Sign(x) == Sign(y) then 0 else 1, QuotientOf(x, y)) * Value(y)
  {
    hide Magnitude, Normal;
    NormalPositive(y);
    FieldsBack(x);
    FieldsBack(y);
    SignedProduct(QuotientOf(x, y), Magnitude(x), Magnitude(y));
  }

  lemma SignedProduct(z: real, a: real, b: real)
    requires b > 0.0 && z == a / b
    ensures z * b == a && (0.0 - z) * b == 0.0 - a && z * (0.0 - b) == 0.0 - a && (0.0 - z) * (0.0 - b) == a
  {
    assert a == z * b;
    assert (0.0 - z) * b == 0.0 - z * b && z * (0.0 - b) == 0.0 - z * b && (0.0 - z) * (0.0 - b) == z * b;
  }

  lemma DividesBack(a: real, b: real, z: real)
    requires b != 0.0 && a == z * b
    ensures a / b == z
  {
  }

  /** (X * 2^a) / (Y * 2^b) with the quotient scaled by 2^55. */
  lemma MagnitudeOfQuotient(x: u64, y: u64)
    requires Normal(x) && Normal(y)
    ensures QuotientOf(x, y) ==
      ((Significand(x) * T55) as real / Significand(y) as real) * P(Exponent(x) - Exponent(y) - 55)
  {
    hide P, Significand;
    var a, b := Exponent(x) - 1075, Exponent(y) - 1075;
    var m, n := Significand(x) as real, Significand(y) as real;
    var t := a - b - 55;
    PAdd(t, b);
    PShift(t + b);
    assert P(a) == T55 as real * (P(t) * P(b));
    PositiveProduct(n, P(b));
    var z := (Significand(x) * T55) as real / n;
    assert z * n == m * T55 as real;
    QuotientProduct(m, n, T55 as real, P(t), P(b), z);
    DividesBack(m * P(a), n * P(b), z * P(t));
  }

  lemma QuotientProduct(m: real, n: real, c: real, u: real, w: real, z: real)
    requires z * n == m * c
    ensures m * (c * (u * w)) == (z * u) * (n * w)
  {
    RealAssoc(m, c, u * w);
    assert m * (c * (u * w)) == (m * c) * (u * w);
    assert (z * n) * (u * w) == (z * u) * (n * w) by { Swap(z, n, u, w); }
  }

  lemma Swap(z: real, n: real, u: real, w: real)
    ensures (z * n) * (u * w) == (z * u) * (n * w)
  {
    RealAssoc(z * n, u, w);
    RealAssoc(z, n, u);
    RealAssoc(z * u, n, w);
    RealAssoc(z, u, n);
    assert n * u == u * n;
  }

  lemma DivNormal(x: u64, y: u64, q: nat, rem: nat)
    requires Normal(x) && Normal(y) && QuotientOf(x, y) < Overflow()
    requires Dividing(Significand(x), Significand(y), 55, q, rem) && T54 <= q < 2 * T55 - 1
    ensures var q1 := WithSticky(q, rem != 0);
      Shrink(q1) < B64 &&
      CorrectlyRounded(Pack(if Sign(x) == Sign(y) then 0 else 1, Exponent(x) - Exponent(y) - 55 + TopBit(q1), Shrink(q1)),
                       if Sign(x) == Sign(y) then 0 else 1, QuotientOf(x, y))
  {
    hide QuotientOf, P, Pack, Overflow, CorrectlyRounded, Significand, Magnitude, Shrink, TopBit, Sticky, Sign, Normal, Exponent, Pow2, WithSticky;
    var a, b := Significand(x), Significand(y);
    Pow2Large();
    QuotientSticky(a * T55, b, q, rem);
    var q1 := WithSticky(q, rem != 0);
    var v, e := QuotientOf(x, y), Exponent(x) - Exponent(y) - 55;
    MagnitudeOfQuotient(x, y);
    var u := Normalized((a * T55) as real / b as real, q1, v, e);
    PackRounds(if Sign(x) == Sign(y) then 0 else 1, e + TopBit(q1), Shrink(q1), u, v);
  }
}
