/** Polynomials modulo X^N + 1 with integer coefficients, and their products through the NTT. */
module Poly {
  import opened Words
  import opened Congruence
  import opened Modp
  import opened ModpPowers
  import opened Twiddle
  import opened Ntt

  // ---------------------------------------------------------------------
  // The ring Z[X]/(X^N + 1), with N the length of the sequences
  // ---------------------------------------------------------------------

  ghost function Zero(n: nat): (r: seq<int>)
    ensures |r| == n
  {
    seq(n, i => 0)
  }

  ghost function Const(c: int, n: nat): (r: seq<int>)
    requires n > 0
    ensures |r| == n
  {
    [c] + Zero(n - 1)
  }

  ghost function PAdd(f: seq<int>, g: seq<int>): (r: seq<int>)
    requires |f| == |g|
    ensures |r| == |f|
  {
    seq(|f|, i requires 0 <= i < |f| => f[i] + g[i])
  }

  ghost function PSub(f: seq<int>, g: seq<int>): (r: seq<int>)
    requires |f| == |g|
    ensures |r| == |f|
  {
    seq(|f|, i requires 0 <= i < |f| => f[i] - g[i])
  }

  ghost function Scale(c: int, g: seq<int>): (r: seq<int>)
    ensures |r| == |g|
  {
    seq(|g|, i requires 0 <= i < |g| => c * g[i])
  }

  /** X * g. */
  ghost function MulX(g: seq<int>): (r: seq<int>)
    ensures |r| == |g|
  {
    if |g| == 0 then [] else [0 - g[|g| - 1]] + g[..|g| - 1]
  }

  /** f * g, one coefficient of f at a time. */
  ghost function NegaMul(f: seq<int>, g: seq<int>): (r: seq<int>)
    ensures |r| == |g|
  {
    if |f| == 0 then Zero(|g|) else PAdd(Scale(f[0], g), NegaMul(f[1..], MulX(g)))
  }

  /** Coefficient j of X^i * g, for i up to N: the schoolbook wrap-around with a sign. */
  ghost function Wrapped(g: seq<int>, i: nat, j: nat): int
    requires j < |g| && i <= |g|
  {
    if i <= j then g[j - i] else 0 - g[|g| + j - i]
  }

  /** The sum of f[i] * (X^(s+i) * g)[j] over i. */
  ghost function Schoolbook(f: seq<int>, g: seq<int>, s: nat, j: nat): int
    requires j < |g| && s + |f| <= |g|
  {
    if |f| == 0 then 0 else f[0] * Wrapped(g, s, j) + Schoolbook(f[1..], g, s + 1, j)
  }

  ghost predicate IsShift(h: seq<int>, g: seq<int>, s: nat) {
    |h| == |g| && s <= |g| && forall j :: 0 <= j < |g| ==> h[j] == Wrapped(g, s, j)
  }

  lemma ShiftNext(h: seq<int>, g: seq<int>, s: nat)
    requires s < |g| && IsShift(h, g, s)
    ensures IsShift(MulX(h), g, s + 1)
  {
  }

  lemma {:induction false} NegaMulFrom(f: seq<int>, g: seq<int>, h: seq<int>, s: nat, j: nat)
    requires j < |g| && s + |f| <= |g| && IsShift(h, g, s)
    ensures NegaMul(f, h)[j] == Schoolbook(f, g, s, j)
    decreases |f|
  {
    hide Wrapped;
    if |f| > 0 {
      ShiftNext(h, g, s);
      NegaMulFrom(f[1..], g, MulX(h), s + 1, j);
      assert NegaMul(f, h)[j] == Scale(f[0], h)[j] + NegaMul(f[1..], MulX(h))[j];
      assert Scale(f[0], h)[j] == f[0] * h[j];
      assert h[j] == Wrapped(g, s, j);
    }
  }

  /** NegaMul is the quadratic schoolbook product modulo X^N + 1. */
  lemma NegaMulIsSchoolbook(f: seq<int>, g: seq<int>, j: nat)
    requires j < |g| && |f| <= |g|
    ensures NegaMul(f, g)[j] == Schoolbook(f, g, 0, j)
  {
    NegaMulFrom(f, g, g, 0, j);
  }

  ghost predicate Within(f: seq<int>, b: int) {
    forall i :: 0 <= i < |f| ==> 0 - b <= f[i] <= b
  }

  lemma MulBound(x: int, y: int, a: int, b: int)
    requires 0 - a <= x <= a && 0 - b <= y <= b
    ensures 0 - a * b <= x * y <= a * b
  {
    var s, t := if x < 0 then 0 - x else x, if y < 0 then 0 - y else y;
    MulMono(s, a, t);
    MulMono(t, b, a);
    MulMono(0, s, t);
    assert x * y == s * t || x * y == 0 - s * t by {
      assert (0 - s) * t == 0 - s * t && s * (0 - t) == 0 - s * t && (0 - s) * (0 - t) == s * t;
    }
  }

  lemma ScaleBound(c: int, g: seq<int>, a: nat, b: nat)
    requires 0 - a <= c <= a && Within(g, b)
    ensures Within(Scale(c, g), a * b)
  {
    forall i | 0 <= i < |g|
      ensures 0 - a * b <= c * g[i] <= a * b
    {
      MulBound(c, g[i], a, b);
    }
  }

  lemma MulXBound(g: seq<int>, b: nat)
    requires Within(g, b)
    ensures Within(MulX(g), b)
  {
  }

  lemma {:induction false} NegaMulBound(f: seq<int>, g: seq<int>, a: nat, b: nat)
    requires Within(f, a) && Within(g, b)
    ensures Within(NegaMul(f, g), |f| * (a * b))
  {
    hide MulX, Scale, PAdd;
    if |f| == 0 {
      assert 0 * (a * b) == 0;
    } else {
      var c := a * b;
      MulXBound(g, b);
      NegaMulBound(f[1..], MulX(g), a, b);
      ScaleBound(f[0], g, a, b);
      SumWithin(Scale(f[0], g), NegaMul(f[1..], MulX(g)), c, (|f| - 1) * c);
      assert |f| * c == c + (|f| - 1) * c;
    }
  }

  lemma SumWithin(f: seq<int>, g: seq<int>, a: int, b: int)
    requires |f| == |g| && Within(f, a) && Within(g, b)
    ensures Within(PAdd(f, g), a + b) && Within(PSub(f, g), a + b)
  {
    forall i | 0 <= i < |f|
      ensures 0 - (a + b) <= PAdd(f, g)[i] <= a + b && 0 - (a + b) <= PSub(f, g)[i] <= a + b
    {
      assert 0 - a <= f[i] <= a && 0 - b <= g[i] <= b;
    }
  }

  // ---------------------------------------------------------------------
  // Evaluation is a ring homomorphism at every root of X^N + 1
  // ---------------------------------------------------------------------

  lemma {:induction false} EvalZero(n: nat, x: int)
    ensures Eval(Zero(n), x) == 0
  {
    if n > 0 {
      assert Zero(n)[1..] == Zero(n - 1);
      EvalZero(n - 1, x);
    }
  }

  lemma EvalConst(c: int, n: nat, x: int)
    requires n > 0
    ensures Eval(Const(c, n), x) == c
  {
    assert Const(c, n)[1..] == Zero(n - 1);
    EvalZero(n - 1, x);
  }

  lemma {:induction false} EvalAdd(f: seq<int>, g: seq<int>, x: int)
    requires |f| == |g|
    ensures Eval(PAdd(f, g), x) == Eval(f, x) + Eval(g, x)
    ensures Eval(PSub(f, g), x) == Eval(f, x) - Eval(g, x)
  {
    if |f| > 0 {
      assert PAdd(f, g)[1..] == PAdd(f[1..], g[1..]);
      assert PSub(f, g)[1..] == PSub(f[1..], g[1..]);
      EvalAdd(f[1..], g[1..], x);
      var a, b := Eval(f[1..], x), Eval(g[1..], x);
      assert x * (a + b) == x * a + x * b && x * (a - b) == x * a - x * b;
    }
  }

  lemma {:induction false} EvalScale(c: int, g: seq<int>, x: int)
    ensures Eval(Scale(c, g), x) == c * Eval(g, x)
  {
    if |g| > 0 {
      assert Scale(c, g)[1..] == Scale(c, g[1..]);
      EvalScale(c, g[1..], x);
      var a := Eval(g[1..], x);
      assert c * (g[0] + x * a) == c * g[0] + x * (c * a) by { MulAssoc(c, x, a); MulAssoc(x, c, a); }
    }
  }

  lemma {:induction false} EvalCong(f: seq<int>, g: seq<int>, x: int, p: int)
    requires p > 0 && |f| == |g| && forall i :: 0 <= i < |f| ==> Cong(f[i], g[i], p)
    ensures Cong(Eval(f, x), Eval(g, x), p)
  {
    hide Cong;
    if |f| == 0 {
      CongRefl(0, p);
    } else {
      EvalCong(f[1..], g[1..], x, p);
      CongScale(Eval(f[1..], x), Eval(g[1..], x), x, p);
      assert Cong(f[0], g[0], p);
      CongAdd(f[0], g[0], x * Eval(f[1..], x), x * Eval(g[1..], x), p);
    }
  }

  ghost predicate IsRoot(x: int, n: nat, p: int) {
    Cong(Pow(x, n), -1, p)
  }

  /** g split into its low coefficients and its last one. */
  lemma EvalLast(g: seq<int>, x: int)
    requires |g| > 0
    ensures var lo := g[..|g| - 1]; var t := g[|g| - 1];
      Eval(g, x) == Eval(lo, x) + Pow(x, |g| - 1) * t && Eval(MulX(g), x) == 0 - t + x * Eval(lo, x)
  {
    var lo, t := g[..|g| - 1], g[|g| - 1];
    assert g == lo + [t];
    EvalAppend(lo, [t], x);
    EvalSingle(t, x);
    assert MulX(g) == [0 - t] + lo;
    assert MulX(g)[1..] == lo;
  }

  lemma EvalSingle(t: int, x: int)
    ensures Eval([t], x) == t
  {
    assert [t][1..] == [];
    assert x * 0 == 0;
  }

  lemma MulXStep(e: int, t: int, w: int, x: int, p: int)
    requires Cong(x * w, -1, p)
    ensures Cong(0 - t + x * e, x * (e + w * t), p)
  {
    CongPositive(x * w, -1, p);
    hide Cong;
    assert x * (e + w * t) == (x * w) * t + x * e by {
      MulAssoc(x, w, t);
    }
    CongSym(x * w, -1, p);
    CongScale(-1, x * w, t, p);
    CongRefl(x * e, p);
    CongAdd(-1 * t, (x * w) * t, x * e, x * e, p);
  }

  lemma EvalMulX(g: seq<int>, x: int, p: int)
    requires |g| > 0 && IsRoot(x, |g|, p)
    ensures Cong(Eval(MulX(g), x), x * Eval(g, x), p)
  {
    hide Cong, MulX, Eval;
    EvalLast(g, x);
    MulXStep(Eval(g[..|g| - 1], x), g[|g| - 1], Pow(x, |g| - 1), x, p);
  }

  lemma {:induction false} EvalNegaMul(f: seq<int>, g: seq<int>, x: int, p: int)
    requires |g| > 0 && IsRoot(x, |g|, p)
    ensures Cong(Eval(NegaMul(f, g), x), Eval(f, x) * Eval(g, x), p)
    decreases |f|
  {
    hide IsRoot, Cong, MulX, PAdd, Scale;
    if |f| == 0 {
      EvalZero(|g|, x);
      RootPositive(x, |g|, p);
      CongRefl(0, p);
    } else {
      EvalMulX(g, x, p);
      EvalNegaMul(f[1..], MulX(g), x, p);
      EvalScale(f[0], g, x);
      var r := NegaMul(f[1..], MulX(g));
      EvalAdd(Scale(f[0], g), r, x);
      NegaMulStep(Eval(r, x), Eval(f[1..], x), Eval(MulX(g), x), Eval(g, x), f[0], x, p);
    }
  }

  lemma RootPositive(x: int, n: nat, p: int)
    requires IsRoot(x, n, p)
    ensures p > 0
  {
  }

  lemma NegaMulStep(r: int, e: int, m: int, v: int, c: int, x: int, p: int)
    requires Cong(r, e * m, p) && Cong(m, x * v, p)
    ensures Cong(c * v + r, (c + x * e) * v, p)
  {
    CongPositive(m, x * v, p);
    hide Cong;
    CongScale(m, x * v, e, p);
    CongTrans(r, e * m, e * (x * v), p);
    CongRefl(c * v, p);
    CongAdd(c * v, c * v, r, e * (x * v), p);
    assert (c + x * e) * v == c * v + e * (x * v) by {
      MulAssoc(x, e, v);
      MulAssoc(e, x, v);
      assert (c + x * e) * v == c * v + (x * e) * v;
    }
  }

  lemma CongPositive(a: int, b: int, p: int)
    requires Cong(a, b, p)
    ensures p > 0
  {
  }

  // ---------------------------------------------------------------------
  // Residues, and products through the transform
  // ---------------------------------------------------------------------

  /** The coefficients reduced modulo p. */
  ghost function Residues(f: seq<int>, p: u32): (r: seq<u32>)
    requires p > 0
    ensures |r| == |f| && AllBelow(r, p)
  {
    seq(|f|, i requires 0 <= i < |f| => Residue(f[i], p))
  }

  function Residue(x: int, p: u32): (r: u32)
    requires p > 0
    ensures r < p
  {
    x % p
  }

  lemma EvalResidues(f: seq<int>, x: int, p: u32)
    requires p > 0
    ensures Cong(Eval(Residues(f, p), x), Eval(f, x), p)
  {
    forall i | 0 <= i < |f|
      ensures Cong(Residues(f, p)[i], f[i], p)
    {
      CongMod(f[i], p);
    }
    EvalCong(Residues(f, p), f, x, p);
  }

  /** Slot j of the transform of the residues of f is f at point j. */
  lemma ResiduesEvaluate(f: seq<int>, logn: nat, gm: seq<u32>, j: nat, p: u32, p0i: u32)
    requires Field(p, p0i) && RootTree(gm, Pow2(logn), p, p0i)
    requires p > 0 && |f| == Pow2(logn) && j < Pow2(logn)
    ensures NTT(Residues(f, p), logn, gm, p, p0i)[j] < p
    ensures Cong(NTT(Residues(f, p), logn, gm, p, p0i)[j], Eval(f, Point(gm, logn, j, p, p0i)), p)
    ensures IsRoot(Point(gm, logn, j, p, p0i), Pow2(logn), p)
  {
    hide Cong, NTT, Point, RootTree, Field, Residues;
    var x := Point(gm, logn, j, p, p0i);
    NTTEvaluates(Residues(f, p), logn, gm, j, p, p0i);
    EvalResidues(f, x, p);
    CongTrans(NTT(Residues(f, p), logn, gm, p, p0i)[j], Eval(Residues(f, p), x), Eval(f, x), p);
    PointIsRoot(gm, logn, j, p, p0i);
  }

  /** The plain product of two slots: a Montgomery product corrected by R2. */
  function SlotMul(x: u32, y: u32, p: u32, p0i: u32): u32 {
    MontyMul(MontyMul(x, y, p, p0i), R2(p, p0i), p, p0i)
  }

  lemma SlotMulSpec(x: u32, y: u32, p: u32, p0i: u32)
    requires Field(p, p0i) && x < p && y < p
    ensures SlotMul(x, y, p, p0i) < p && Cong(SlotMul(x, y, p, p0i), x * y, p)
  {
    hide Cong, MontyMul, R2, NegInverse;
    ProductFits(x, y, p);
    MontyMulSpec(x, y, p, p0i);
    var m: u32 := MontyMul(x, y, p, p0i);
    R2Spec(p, p0i);
    RepMulMixed(m, R2(p, p0i), B31, p, p0i);
    CongTrans(SlotMul(x, y, p, p0i), m * B31, x * y, p);
  }

  ghost function Pointwise(a: seq<u32>, b: seq<u32>, p: u32, p0i: u32): (r: seq<u32>)
    requires |a| == |b|
    ensures |r| == |a|
  {
    seq(|a|, i requires 0 <= i < |a| => SlotMul(a[i], b[i], p, p0i))
  }

  lemma SlotOfProduct(f: seq<int>, g: seq<int>, logn: nat, gm: seq<u32>, j: nat, p: u32, p0i: u32)
    requires Field(p, p0i) && RootTree(gm, Pow2(logn), p, p0i)
    requires p > 0 && |f| == |g| == Pow2(logn) && j < Pow2(logn)
    ensures NTT(Residues(NegaMul(f, g), p), logn, gm, p, p0i)[j]
         == SlotMul(NTT(Residues(f, p), logn, gm, p, p0i)[j], NTT(Residues(g, p), logn, gm, p, p0i)[j], p, p0i)
  {
    hide Cong, NTT, Point, RootTree, Residues, NegaMul, Field, SlotMul, IsRoot, Eval, Pow2;
    var x := Point(gm, logn, j, p, p0i);
    ResiduesEvaluate(f, logn, gm, j, p, p0i);
    ResiduesEvaluate(g, logn, gm, j, p, p0i);
    ResiduesEvaluate(NegaMul(f, g), logn, gm, j, p, p0i);
    EvalNegaMul(f, g, x, p);
    var a: u32 := NTT(Residues(f, p), logn, gm, p, p0i)[j];
    var b: u32 := NTT(Residues(g, p), logn, gm, p, p0i)[j];
    var c: u32 := NTT(Residues(NegaMul(f, g), p), logn, gm, p, p0i)[j];
    SlotMulSpec(a, b, p, p0i);
    CongMul(a, Eval(f, x), b, Eval(g, x), p);
    CongSym(a * b, Eval(f, x) * Eval(g, x), p);
    CongTrans(c, Eval(NegaMul(f, g), x), Eval(f, x) * Eval(g, x), p);
    CongTrans(c, Eval(f, x) * Eval(g, x), a * b, p);
    CongSym(SlotMul(a, b, p, p0i), a * b, p);
    CongTrans(c, a * b, SlotMul(a, b, p, p0i), p);
    CongUnique(c, SlotMul(a, b, p, p0i), p);
  }

  /**
   * The inverse transform of the slot-wise product of two transforms is the product of the
   * two polynomials modulo X^N + 1, reduced modulo p.
   */
  lemma ProductThroughNTT(f: seq<int>, g: seq<int>, logn: nat, gm: seq<u32>, igm: seq<u32>, p: u32, p0i: u32)
    requires Field(p, p0i) && logn <= 10 && p > 0 && |f| == |g| == Pow2(logn)
    requires RootTree(gm, Pow2(logn), p, p0i) && Inverses(gm, igm, Pow2(logn), p, p0i)
    ensures INTT(Pointwise(NTT(Residues(f, p), logn, gm, p, p0i), NTT(Residues(g, p), logn, gm, p, p0i), p, p0i),
                 logn, igm, p, p0i)
         == Residues(NegaMul(f, g), p)
  {
    hide NTT, INTT, RootTree, Inverses, Residues, NegaMul, Field, SlotMul, Pow2;
    var a := NTT(Residues(f, p), logn, gm, p, p0i);
    var b := NTT(Residues(g, p), logn, gm, p, p0i);
    var c := NTT(Residues(NegaMul(f, g), p), logn, gm, p, p0i);
    forall j | 0 <= j < Pow2(logn)
      ensures c[j] == SlotMul(a[j], b[j], p, p0i)
    {
      SlotOfProduct(f, g, logn, gm, j, p, p0i);
    }
    assert c == Pointwise(a, b, p, p0i);
    RoundTrip(Residues(NegaMul(f, g), p), logn, gm, igm, p, p0i);
  }

  /** A polynomial that vanishes modulo p at every point is zero modulo p. */
  lemma VanishesEverywhere(d: seq<int>, logn: nat, gm: seq<u32>, igm: seq<u32>, p: u32, p0i: u32)
    requires Field(p, p0i) && logn <= 10 && p > 0 && |d| == Pow2(logn)
    requires RootTree(gm, Pow2(logn), p, p0i) && Inverses(gm, igm, Pow2(logn), p, p0i)
    requires forall j :: 0 <= j < Pow2(logn) ==> Cong(Eval(d, Point(gm, logn, j, p, p0i)), 0, p)
    ensures forall i :: 0 <= i < |d| ==> Cong(d[i], 0, p)
  {
    hide NTT, INTT, RootTree, Inverses, Field, Pow2, Cong, Eval, Point;
    var z := Zero(|d|);
    var a, b := NTT(Residues(d, p), logn, gm, p, p0i), NTT(Residues(z, p), logn, gm, p, p0i);
    forall j | 0 <= j < Pow2(logn)
      ensures a[j] == b[j]
    {
      var x := Point(gm, logn, j, p, p0i);
      ResiduesEvaluate(d, logn, gm, j, p, p0i);
      ResiduesEvaluate(z, logn, gm, j, p, p0i);
      EvalZero(|d|, x);
      CongTrans(a[j], Eval(d, x), 0, p);
      CongSym(b[j], 0, p);
      CongTrans(a[j], 0, b[j], p);
      CongUnique(a[j], b[j], p);
    }
    assert a == b;
    RoundTrip(Residues(d, p), logn, gm, igm, p, p0i);
    RoundTrip(Residues(z, p), logn, gm, igm, p, p0i);
    forall i | 0 <= i < |d|
      ensures Cong(d[i], 0, p)
    {
      assert Residues(d, p)[i] == Residues(z, p)[i];
      CongMod(d[i], p);
      CongMod(0, p);
      CongTrans(d[i], d[i] % p, 0, p);
    }
  }
}
