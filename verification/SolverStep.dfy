/** What one subtraction of a scaled k*(f, g) does to fG - gF, on the stored big integers of keygen.c. */
module SolverStep {
  import opened Words
  import opened Congruence
  import opened Modp
  import opened ModpPowers
  import opened Poly
  import opened PolyRing
  import opened Zint
  import opened ZintCrt
  import opened SubScaled
  import opened PolySubScaled
  import opened NormLift

  /** c * 2^(31*sch + scl) as a factor. */
  ghost function Power(sch: nat, scl: nat): int {
    Base(sch) * Pow2(scl)
  }

  /** The result of the subtraction, not reduced modulo 2^(31*len), fits its words. */
  ghost predicate NoTruncation(was: seq<u32>, c: int, sch: nat, scl: nat) {
    Digits(was) && |was| > 0 && 0 - Base(|was|) <= 2 * (SVal(was) - c * Power(sch, scl)) < Base(|was|)
  }

  lemma SignedRange(s: seq<u32>)
    requires Digits(s) && |s| > 0
    ensures 0 - Base(|s|) <= 2 * SVal(s) < Base(|s|) && Cong(SVal(s), Val(s), Base(|s|))
  {
    hide Val, Base, Cong;
    TopBit(s);
    ValBound(s);
    var neg := if s[|s| - 1] >= B31 / 2 then 1 else 0;
    assert SVal(s) - Val(s) == Base(|s|) * (0 - neg);
    ByQuotient(SVal(s), Val(s), Base(|s|), 0 - neg);
  }

  /** Without truncation, the stored integer is the exact difference. */
  lemma LoweredExact(now: seq<u32>, was: seq<u32>, c: int, sch: nat, scl: nat)
    requires Lowered(now, was, c, sch, scl) && NoTruncation(was, c, sch, scl)
    ensures SVal(now) == SVal(was) - c * Power(sch, scl)
  {
    hide Val, Base, Cong, SVal, Digits, Pow2;
    var b, d := Base(|was|), c * Power(sch, scl);
    SignedRange(now);
    SignedRange(was);
    var e := Val(was) + (0 - d);
    CongTrans(SVal(now), Val(now), e, b);
    CongSym(SVal(was), Val(was), b);
    CongRefl(d, b);
    CongSub(Val(was), SVal(was), d, d, b);
    CongTrans(SVal(now), e, SVal(was) - d, b);
    CongUnique(SVal(now), SVal(was) - d, b);
  }

  /** No coefficient of F - 2^(31*sch+scl)*prod needs more than its words. */
  ghost predicate AllFit(was: seq<u32>, len: nat, stride: nat, n: nat, prod: seq<int>, sch: nat, scl: nat) {
    |prod| == n && Layout(|was|, len, stride, n) &&
    forall j :: 0 <= j < n ==> NoTruncation(Number(was, len, stride, j), prod[j], sch, scl)
  }

  lemma {:induction false} ScaleLeft(c: int, k: seq<int>, f: seq<int>)
    requires |k| == |f| > 0
    ensures NegaMul(Scale(c, k), f) == Scale(c, NegaMul(k, f))
  {
    hide NegaMul, Scale;
    Commute(Scale(c, k), f);
    MulScale(f, c, k);
    Commute(k, f);
  }

  /** The stored polynomial after the subtraction. */
  lemma SubtractedExact(now: seq<u32>, was: seq<u32>, len: nat, stride: nat, n: nat, f: seq<int>, k: seq<int>, sch: nat, scl: nat)
    requires |f| == |k| == n > 0 && Subtracted(now, was, len, stride, n, NegaMul(k, f), sch, scl)
    requires AllFit(was, len, stride, n, NegaMul(k, f), sch, scl)
    ensures Coefficients(now, len, stride, n) ==
      PSub(Coefficients(was, len, stride, n), NegaMul(Scale(Power(sch, scl), k), f))
  {
    hide NegaMul, Lowered, NoTruncation, SVal, Number, Power;
    var prod, m := NegaMul(k, f), Power(sch, scl);
    ScaleLeft(m, k, f);
    forall j | 0 <= j < n
      ensures Coefficients(now, len, stride, n)[j] == Coefficients(was, len, stride, n)[j] - Scale(m, prod)[j]
    {
      LoweredExact(Number(now, len, stride, j), Number(was, len, stride, j), prod[j], sch, scl);
      assert prod[j] * m == m * prod[j];
    }
  }

  /**
   * One reduction of the solver: after poly_sub_scaled (or poly_sub_scaled_ntt) on F with f and on G
   * with g, by the same k and scale, fG - gF is what it was, whatever k is.
   */
  lemma ReductionStep(F0: seq<u32>, F1: seq<u32>, G0: seq<u32>, G1: seq<u32>, len: nat, stride: nat, n: nat,
                      f: seq<int>, g: seq<int>, k: seq<int>, sch: nat, scl: nat)
    requires |f| == |g| == |k| == n > 0
    requires Subtracted(F1, F0, len, stride, n, NegaMul(k, f), sch, scl) && AllFit(F0, len, stride, n, NegaMul(k, f), sch, scl)
    requires Subtracted(G1, G0, len, stride, n, NegaMul(k, g), sch, scl) && AllFit(G0, len, stride, n, NegaMul(k, g), sch, scl)
    ensures Determinant(f, g, Coefficients(F1, len, stride, n), Coefficients(G1, len, stride, n))
         == Determinant(f, g, Coefficients(F0, len, stride, n), Coefficients(G0, len, stride, n))
  {
    hide NegaMul, Subtracted, AllFit, Scale, Coefficients, Determinant, PSub, Power;
    SubtractedExact(F1, F0, len, stride, n, f, k, sch, scl);
    SubtractedExact(G1, G0, len, stride, n, g, k, sch, scl);
    SubtractedLayout(F1, F0, len, stride, n, NegaMul(k, f), sch, scl);
    SubtractedLayout(G1, G0, len, stride, n, NegaMul(k, g), sch, scl);
    KeptDeterminant(f, g, Coefficients(F0, len, stride, n), Coefficients(G0, len, stride, n), Scale(Power(sch, scl), k),
                    Coefficients(F1, len, stride, n), Coefficients(G1, len, stride, n));
  }

  lemma SubtractedLayout(now: seq<u32>, was: seq<u32>, len: nat, stride: nat, n: nat, prod: seq<int>, sch: nat, scl: nat)
    requires Subtracted(now, was, len, stride, n, prod, sch, scl)
    ensures Layout(|now|, len, stride, n) && Layout(|was|, len, stride, n)
  {
    hide Lowered;
  }

  lemma KeptDeterminant(f: seq<int>, g: seq<int>, F: seq<int>, G: seq<int>, k: seq<int>, F1: seq<int>, G1: seq<int>)
    requires |f| == |g| == |F| == |G| == |k| > 0
    requires F1 == PSub(F, NegaMul(k, f)) && G1 == PSub(G, NegaMul(k, g))
    ensures Determinant(f, g, F1, G1) == Determinant(f, g, F, G)
  {
    hide NegaMul;
    ReductionKeeps(f, g, F, G, k);
  }
}
