/** Z[X]/(X^N + 1) is a commutative ring, and its even polynomials form a copy of degree N/2. */
module PolyRing {
  import opened Words
  import opened Poly

  lemma MulXAt(g: seq<int>, j: nat)
    requires j < |g|
    ensures MulX(g)[j] == if j == 0 then 0 - g[|g| - 1] else g[j - 1]
  {
  }

  lemma MulXAdds(f: seq<int>, g: seq<int>)
    requires |f| == |g|
    ensures MulX(PAdd(f, g)) == PAdd(MulX(f), MulX(g))
    ensures MulX(PSub(f, g)) == PSub(MulX(f), MulX(g))
  {
    hide MulX;
    forall j | 0 <= j < |f|
      ensures MulX(PAdd(f, g))[j] == MulX(f)[j] + MulX(g)[j]
      ensures MulX(PSub(f, g))[j] == MulX(f)[j] - MulX(g)[j]
    {
      MulXAt(f, j);
      MulXAt(g, j);
      MulXAt(PAdd(f, g), j);
      MulXAt(PSub(f, g), j);
    }
  }

  lemma MulXScales(c: int, g: seq<int>)
    ensures MulX(Scale(c, g)) == Scale(c, MulX(g))
    ensures MulX(Zero(|g|)) == Zero(|g|)
  {
    hide MulX;
    forall j | 0 <= j < |g|
      ensures MulX(Scale(c, g))[j] == c * MulX(g)[j] && MulX(Zero(|g|))[j] == 0
    {
      MulXAt(g, j);
      MulXAt(Scale(c, g), j);
      MulXAt(Zero(|g|), j);
      assert c * (0 - g[|g| - 1]) == 0 - c * g[|g| - 1];
    }
  }

  lemma MulXLinear(f: seq<int>, g: seq<int>, c: int)
    requires |f| == |g|
    ensures MulX(PAdd(f, g)) == PAdd(MulX(f), MulX(g))
    ensures MulX(PSub(f, g)) == PSub(MulX(f), MulX(g))
    ensures MulX(Scale(c, g)) == Scale(c, MulX(g))
    ensures MulX(Zero(|g|)) == Zero(|g|)
  {
    hide MulX, PAdd, PSub, Scale, Zero;
    MulXAdds(f, g);
    MulXScales(c, g);
  }

  lemma AddRegroup(a: seq<int>, b: seq<int>, c: seq<int>, d: seq<int>)
    requires |a| == |b| == |c| == |d|
    ensures PAdd(PAdd(a, b), PAdd(c, d)) == PAdd(PAdd(a, c), PAdd(b, d))
    ensures PSub(PAdd(a, b), PAdd(c, d)) == PAdd(PSub(a, c), PSub(b, d))
  {
  }

  lemma ScaleLinear(c: int, f: seq<int>, g: seq<int>)
    requires |f| == |g|
    ensures Scale(c, PAdd(f, g)) == PAdd(Scale(c, f), Scale(c, g))
    ensures Scale(c, PSub(f, g)) == PSub(Scale(c, f), Scale(c, g))
    ensures Scale(c, Zero(|f|)) == Zero(|f|)
  {
    forall i | 0 <= i < |f|
      ensures c * (f[i] + g[i]) == c * f[i] + c * g[i] && c * (f[i] - g[i]) == c * f[i] - c * g[i]
    {
    }
  }

  lemma ScaleSwap(c: int, d: int, f: seq<int>)
    ensures Scale(c, Scale(d, f)) == Scale(d, Scale(c, f))
  {
    forall i | 0 <= i < |f|
      ensures c * (d * f[i]) == d * (c * f[i])
    {
      MulAssoc(c, d, f[i]);
      MulAssoc(d, c, f[i]);
    }
  }

  /** Multiplication is linear in its right argument. */
  lemma {:induction false} MulAdd(f: seq<int>, g: seq<int>, h: seq<int>)
    requires |g| == |h|
    ensures NegaMul(f, PAdd(g, h)) == PAdd(NegaMul(f, g), NegaMul(f, h))
    ensures NegaMul(f, PSub(g, h)) == PSub(NegaMul(f, g), NegaMul(f, h))
    decreases |f|
  {
    hide MulX, Scale, PAdd, PSub;
    if |f| == 0 {
      ZeroSum(|g|);
    } else {
      MulXLinear(g, h, 0);
      ScaleLinear(f[0], g, h);
      MulAdd(f[1..], MulX(g), MulX(h));
      AddRegroup(Scale(f[0], g), Scale(f[0], h), NegaMul(f[1..], MulX(g)), NegaMul(f[1..], MulX(h)));
      AddRegroup(Scale(f[0], g), NegaMul(f[1..], MulX(g)), Scale(f[0], h), NegaMul(f[1..], MulX(h)));
    }
  }

  lemma ZeroSum(n: nat)
    ensures PAdd(Zero(n), Zero(n)) == Zero(n) && PSub(Zero(n), Zero(n)) == Zero(n)
  {
  }

  lemma {:induction false} MulScale(f: seq<int>, c: int, g: seq<int>)
    ensures NegaMul(f, Scale(c, g)) == Scale(c, NegaMul(f, g))
    decreases |f|
  {
    hide MulX, Scale, PAdd;
    if |f| == 0 {
      ScaleLinear(c, Zero(|g|), Zero(|g|));
    } else {
      MulXLinear(g, g, c);
      ScaleSwap(c, f[0], g);
      MulScale(f[1..], c, MulX(g));
      ScaleLinear(c, Scale(f[0], g), NegaMul(f[1..], MulX(g)));
    }
  }

  lemma {:induction false} MulByX(f: seq<int>, g: seq<int>)
    ensures NegaMul(f, MulX(g)) == MulX(NegaMul(f, g))
    decreases |f|
  {
    hide MulX, Scale, PAdd;
    if |f| == 0 {
      MulXLinear(g, g, 0);
    } else {
      MulByX(f[1..], MulX(g));
      MulXLinear(g, g, f[0]);
      MulXLinear(Scale(f[0], g), NegaMul(f[1..], MulX(g)), 0);
    }
  }

  lemma {:induction false} MulZero(f: seq<int>, n: nat)
    ensures NegaMul(f, Zero(n)) == Zero(n)
    decreases |f|
  {
    hide MulX, Scale, PAdd;
    if |f| > 0 {
      MulXLinear(Zero(n), Zero(n), 0);
      ScaleLinear(f[0], Zero(n), Zero(n));
      MulZero(f[1..], n);
      ZeroSum(n);
    }
  }

  /** f(kg) = k(fg). */
  lemma {:induction false} LeftCommute(f: seq<int>, k: seq<int>, g: seq<int>)
    ensures NegaMul(f, NegaMul(k, g)) == NegaMul(k, NegaMul(f, g))
    decreases |k|
  {
    hide MulX, Scale, PAdd;
    if |k| == 0 {
      MulZero(f, |g|);
    } else {
      MulAdd(f, Scale(k[0], g), NegaMul(k[1..], MulX(g)));
      MulScale(f, k[0], g);
      LeftCommute(f, k[1..], MulX(g));
      MulByX(f, g);
    }
  }

  /** X^s, for s up to N. */
  ghost predicate IsMonomial(e: seq<int>, s: nat) {
    s < |e| && forall j :: 0 <= j < |e| ==> e[j] == if j == s then 1 else 0
  }

  lemma MonomialNext(e: seq<int>, s: nat)
    requires IsMonomial(e, s) && s + 1 < |e|
    ensures IsMonomial(MulX(e), s + 1)
  {
  }

  /** f times X^s, when nothing wraps around. */
  lemma {:induction false} MulMonomial(f: seq<int>, e: seq<int>, s: nat)
    requires |f| > 0 && s + |f| <= |e| && IsMonomial(e, s)
    ensures forall j :: 0 <= j < |e| ==> NegaMul(f, e)[j] == if s <= j < s + |f| then f[j - s] else 0
    decreases |f|
  {
    hide MulX;
    var r := NegaMul(f[1..], MulX(e));
    if |f| == 1 {
      assert f[1..] == [];
    } else {
      MonomialNext(e, s);
      MulMonomial(f[1..], MulX(e), s + 1);
    }
    forall j | 0 <= j < |e|
      ensures NegaMul(f, e)[j] == if s <= j < s + |f| then f[j - s] else 0
    {
      assert NegaMul(f, e)[j] == f[0] * e[j] + r[j];
      if j == s { assert e[j] == 1; } else { assert e[j] == 0; }
    }
  }

  lemma MulOne(f: seq<int>)
    requires |f| > 0
    ensures NegaMul(f, Const(1, |f|)) == f
  {
    hide NegaMul;
    var e := Const(1, |f|);
    assert IsMonomial(e, 0);
    MulMonomial(f, e, 0);
    forall j | 0 <= j < |f|
      ensures NegaMul(f, e)[j] == f[j]
    {
    }
  }

  lemma Commute(f: seq<int>, g: seq<int>)
    requires |f| == |g| > 0
    ensures NegaMul(f, g) == NegaMul(g, f)
  {
    MulOne(f);
    MulOne(g);
    LeftCommute(f, g, Const(1, |f|));
  }

  /** Subtracting (k*f, k*g) from (F, G) keeps fG - gF. */
  lemma ReductionKeeps(f: seq<int>, g: seq<int>, F: seq<int>, G: seq<int>, k: seq<int>)
    requires |f| == |g| == |F| == |G| == |k| > 0
    ensures PSub(NegaMul(f, PSub(G, NegaMul(k, g))), NegaMul(g, PSub(F, NegaMul(k, f))))
         == PSub(NegaMul(f, G), NegaMul(g, F))
  {
    hide NegaMul;
    MulAdd(f, G, NegaMul(k, g));
    MulAdd(g, F, NegaMul(k, f));
    LeftCommute(f, k, g);
    LeftCommute(g, k, f);
    Commute(f, g);
  }

  // ---------------------------------------------------------------------
  // Even polynomials, and the norm
  // ---------------------------------------------------------------------

  /** h(X^2). */
  ghost function Spread(h: seq<int>): (r: seq<int>)
    ensures |r| == 2 * |h|
  {
    seq(2 * |h|, i requires 0 <= i < 2 * |h| => if i % 2 == 0 then h[i / 2] else 0)
  }

  /** The coefficients of even and of odd index. */
  ghost function Even(f: seq<int>): (r: seq<int>)
    ensures |r| == |f| / 2
  {
    seq(|f| / 2, i requires 0 <= i < |f| / 2 => f[2 * i])
  }

  ghost function Odd(f: seq<int>): (r: seq<int>)
    ensures |r| == |f| / 2
  {
    seq(|f| / 2, i requires 0 <= i < |f| / 2 => f[2 * i + 1])
  }

  /** f(-X). */
  ghost function Conj(f: seq<int>): (r: seq<int>)
    ensures |r| == |f|
  {
    seq(|f|, i requires 0 <= i < |f| => if i % 2 == 0 then f[i] else 0 - f[i])
  }

  /** f0^2 - X*f1^2, where f = f0(X^2) + X*f1(X^2). */
  ghost function Norm(f: seq<int>): (r: seq<int>)
    ensures |r| == |f| / 2
  {
    PSub(NegaMul(Even(f), Even(f)), MulX(NegaMul(Odd(f), Odd(f))))
  }

  lemma SplitEvenOdd(f: seq<int>)
    requires |f| % 2 == 0
    ensures f == PAdd(Spread(Even(f)), MulX(Spread(Odd(f))))
    ensures Conj(f) == PSub(Spread(Even(f)), MulX(Spread(Odd(f))))
  {
    hide MulX;
    var e, o := Spread(Even(f)), MulX(Spread(Odd(f)));
    forall i | 0 <= i < |f|
      ensures f[i] == e[i] + o[i] && Conj(f)[i] == e[i] - o[i]
    {
      MulXAt(Spread(Odd(f)), i);
      HalfIndex(i);
    }
  }

  lemma HalfIndex(i: nat)
    ensures if i % 2 == 0 then 2 * (i / 2) == i else 2 * ((i - 1) / 2) + 1 == i && (i - 1) % 2 == 0
    ensures i % 2 == 0 && i > 0 ==> (i - 1) % 2 == 1
  {
  }

  lemma SpreadLinear(f: seq<int>, g: seq<int>, c: int)
    requires |f| == |g|
    ensures Spread(PAdd(f, g)) == PAdd(Spread(f), Spread(g))
    ensures Spread(PSub(f, g)) == PSub(Spread(f), Spread(g))
    ensures Spread(Scale(c, g)) == Scale(c, Spread(g))
    ensures Spread(Zero(|f|)) == Zero(2 * |f|)
    ensures Scale(0, Spread(f)) == Zero(2 * |f|)
  {
  }

  lemma SpreadX(f: seq<int>)
    ensures MulX(MulX(Spread(f))) == Spread(MulX(f))
  {
    var a, b := MulX(MulX(Spread(f))), Spread(MulX(f));
    forall i | 0 <= i < 2 * |f|
      ensures a[i] == b[i]
    {
      if i >= 2 {
        assert a[i] == Spread(f)[i - 2];
        assert i % 2 == 0 ==> (i - 2) / 2 == i / 2 - 1;
      }
    }
  }

  lemma AddZero(f: seq<int>)
    ensures PAdd(Zero(|f|), f) == f
  {
  }

  /** Squaring the variable is a ring homomorphism. */
  lemma {:induction false} SpreadMul(a: seq<int>, b: seq<int>)
    ensures NegaMul(Spread(a), Spread(b)) == Spread(NegaMul(a, b))
    decreases |a|
  {
    hide MulX, Scale, PAdd;
    if |a| == 0 {
      SpreadLinear(b, b, 0);
    } else {
      SpreadFirst(a);
      var s, t := Spread(b), Spread(a[1..]);
      assert Spread(a)[1..] == [0] + t && ([0] + t)[1..] == t;
      var r := NegaMul(t, MulX(MulX(s)));
      assert NegaMul(Spread(a), s) == PAdd(Scale(a[0], s), NegaMul([0] + t, MulX(s)));
      assert NegaMul([0] + t, MulX(s)) == PAdd(Scale(0, MulX(s)), r);
      ScaleZero(MulX(s));
      AddZero(r);
      SpreadX(b);
      SpreadMul(a[1..], MulX(b));
      SpreadLinear(Scale(a[0], b), NegaMul(a[1..], MulX(b)), 0);
      SpreadLinear(b, b, a[0]);
    }
  }

  lemma ScaleZero(f: seq<int>)
    ensures Scale(0, f) == Zero(|f|)
  {
  }

  lemma SpreadFirst(a: seq<int>)
    requires |a| > 0
    ensures Spread(a) == [a[0], 0] + Spread(a[1..])
  {
    var l, r := Spread(a), [a[0], 0] + Spread(a[1..]);
    forall i | 0 <= i < 2 * |a|
      ensures l[i] == r[i]
    {
      if i >= 2 {
        assert i % 2 == 0 ==> (i - 2) / 2 == i / 2 - 1;
      }
    }
  }

  /** (e + o)(e - o) = e^2 - o^2. */
  lemma DifferenceOfSquares(e: seq<int>, o: seq<int>)
    requires |e| == |o| > 0
    ensures NegaMul(PAdd(e, o), PSub(e, o)) == PSub(NegaMul(e, e), NegaMul(o, o))
  {
    hide NegaMul;
    MulAdd(PAdd(e, o), e, o);
    Commute(PAdd(e, o), e);
    Commute(PAdd(e, o), o);
    MulAdd(e, e, o);
    MulAdd(o, e, o);
    Commute(e, o);
    Cancel(NegaMul(e, e), NegaMul(e, o), NegaMul(o, o));
  }

  lemma Cancel(a: seq<int>, b: seq<int>, c: seq<int>)
    requires |a| == |b| == |c|
    ensures PSub(PAdd(a, b), PAdd(b, c)) == PSub(a, c)
  {
  }

  /** The norm satisfies f'(X^2) = f(X) * f(-X). */
  lemma NormIsProduct(f: seq<int>)
    requires |f| > 0 && |f| % 2 == 0
    ensures NegaMul(f, Conj(f)) == Spread(Norm(f))
  {
    hide NegaMul, MulX, PAdd, PSub, Spread, Even, Odd, Conj;
    var e, s := Spread(Even(f)), Spread(Odd(f));
    SplitEvenOdd(f);
    DifferenceOfSquares(e, MulX(s));
    SpreadMul(Even(f), Even(f));
    MulByX(MulX(s), s);
    Commute(MulX(s), s);
    MulByX(s, s);
    SpreadMul(Odd(f), Odd(f));
    SpreadX(NegaMul(Odd(f), Odd(f)));
    SpreadLinear(NegaMul(Even(f), Even(f)), MulX(NegaMul(Odd(f), Odd(f))), 0);
  }
}
