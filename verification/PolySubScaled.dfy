/** poly_sub_scaled and poly_sub_scaled_ntt of keygen.c: two ways to compute F - 2^sc*k*f. */
module PolySubScaled {
  import opened Words
  import opened Congruence
  import opened Modp
  import opened ModpPowers
  import opened Twiddle
  import opened Ntt
  import opened NttLoops
  import opened Poly
  import opened LooseNtt
  import opened Zint
  import opened ZintCrt
  import opened SubScaled
  import NtruCheck

  // ---------------------------------------------------------------------
  // What both functions are to compute
  // ---------------------------------------------------------------------

  /** The coefficients of a polynomial stored as numbers of `len` words every `stride` words. */
  ghost function Coefficients(a: seq<u32>, len: nat, stride: nat, n: nat): (r: seq<int>)
    requires Layout(|a|, len, stride, n)
    ensures |r| == n
  {
    seq(n, v requires 0 <= v < n => SVal(Number(a, len, stride, v)))
  }

  /** now is was - c*2^(31*sch+scl) modulo 2^(31*len). */
  ghost predicate Lowered(now: seq<u32>, was: seq<u32>, c: int, sch: nat, scl: nat) {
    Added(now, was, 0 - c * (Base(sch) * Pow2(scl)))
  }

  /** Every coefficient of F has lost the corresponding coefficient of k*f, scaled. */
  ghost predicate Subtracted(now: seq<u32>, was: seq<u32>, len: nat, stride: nat, n: nat, prod: seq<int>, sch: nat, scl: nat) {
    |prod| == n && Layout(|now|, len, stride, n) && Layout(|was|, len, stride, n) &&
    forall j :: 0 <= j < n ==> Lowered(Number(now, len, stride, j), Number(was, len, stride, j), prod[j], sch, scl)
  }

  /** The specification fixes every word of every coefficient. */
  lemma SubtractedUnique(a: seq<u32>, b: seq<u32>, was: seq<u32>, len: nat, stride: nat, n: nat, prod: seq<int>, sch: nat, scl: nat, j: nat)
    requires j < n && Subtracted(a, was, len, stride, n, prod, sch, scl) && Subtracted(b, was, len, stride, n, prod, sch, scl)
    ensures Number(a, len, stride, j) == Number(b, len, stride, j)
  {
    hide Number, Cong, Val, Base, Pow2, Digits;
    var x, y, w := Number(a, len, stride, j), Number(b, len, stride, j), Number(was, len, stride, j);
    assert Lowered(x, w, prod[j], sch, scl) && Lowered(y, w, prod[j], sch, scl);
    var e := Val(w) + (0 - prod[j] * (Base(sch) * Pow2(scl)));
    CongSym(Val(y), e, Base(|w|));
    CongTrans(Val(x), e, Val(y), Base(|w|));
    ValBound(x);
    ValBound(y);
    CongUnique(Val(x), Val(y), Base(|w|));
    ValInjective(x, y);
  }

  /** Two arrays that meet the specification from the same start are equal, gaps included. */
  lemma SameArrays(a: seq<u32>, b: seq<u32>, was: seq<u32>, len: nat, stride: nat, n: nat, prod: seq<int>, sch: nat, scl: nat)
    requires Subtracted(a, was, len, stride, n, prod, sch, scl) && Subtracted(b, was, len, stride, n, prod, sch, scl)
    requires GapsKept(a, was, len, stride, n) && GapsKept(b, was, len, stride, n)
    ensures a == b
  {
    hide Lowered;
    forall q | 0 <= q < |a|
      ensures a[q] == b[q]
    {
      if InNumbers(q, len, stride, n) {
        var v: int :| 0 <= v < n && v * stride <= q < v * stride + len;
        SubtractedUnique(a, b, was, len, stride, n, prod, sch, scl, v);
        assert a[q] == Number(a, len, stride, v)[q - v * stride];
        assert b[q] == Number(b, len, stride, v)[q - v * stride];
      }
    }
  }

  lemma AddedTrans(a: seq<u32>, b: seq<u32>, c: seq<u32>, x: int, y: int)
    requires Added(a, b, x) && Added(b, c, y)
    ensures Added(a, c, x + y)
  {
    hide Cong, Val, Base, Digits;
    CongRefl(x, Base(|c|));
    CongAdd(Val(b), Val(c) + y, x, x, Base(|c|));
    CongTrans(Val(a), Val(b) + x, Val(c) + (x + y), Base(|c|));
  }

  lemma AmountIs(k: int, y: seq<u32>, sch: nat, scl: nat)
    ensures Amount(k, y, sch, scl) == 0 - (0 - k * SVal(y)) * (Base(sch) * Pow2(scl))
  {
    hide SVal, Base, Pow2;
    var a, b, s := Base(sch), Pow2(scl), SVal(y);
    assert k * (a * (b * s)) == (k * s) * (a * b) by {
      assert a * (b * s) == (a * b) * s by { MulAssoc(a, b, s); }
      assert k * ((a * b) * s) == (k * s) * (a * b) by { MulAssoc(k, s, a * b); assert s * (a * b) == (a * b) * s; }
    }
    assert (0 - k * s) * (a * b) == 0 - (k * s) * (a * b);
  }

  lemma LowerBy(a: seq<u32>, b: seq<u32>, c: seq<u32>, k: int, y: seq<u32>, e: int, sch: nat, scl: nat)
    requires Added(a, b, Amount(k, y, sch, scl)) && Lowered(b, c, e, sch, scl)
    ensures Lowered(a, c, e - k * SVal(y), sch, scl)
  {
    hide Added, Amount, SVal, Base, Pow2;
    AmountIs(k, y, sch, scl);
    AddedTrans(a, b, c, Amount(k, y, sch, scl), 0 - e * (Base(sch) * Pow2(scl)));
    var m, t := Base(sch) * Pow2(scl), k * SVal(y);
    assert 0 - (0 - t) * m + (0 - e * m) == 0 - (e - t) * m;
  }

  lemma LowerNothing(a: seq<u32>, sch: nat, scl: nat)
    requires Digits(a)
    ensures Lowered(a, a, 0, sch, scl)
  {
    assert 0 * (Base(sch) * Pow2(scl)) == 0;
    CongRefl(Val(a), Base(|a|));
  }

  // ---------------------------------------------------------------------
  // The quadratic algorithm
  // ---------------------------------------------------------------------

  /** The part of coefficient j of k*f that rows 0..u-1 contribute. */
  ghost function Rows(k: seq<int>, f: seq<int>, u: nat, j: nat): int
    requires u <= |k| == |f| && j < |f|
  {
    if u == 0 then 0 else Rows(k, f, u - 1, j) + k[u - 1] * Wrapped(f, u - 1, j)
  }

  lemma {:induction false} RowsFromFront(k: seq<int>, f: seq<int>, u: nat, j: nat)
    requires u <= |k| == |f| && j < |f|
    ensures Rows(k, f, |k|, j) == Rows(k, f, u, j) + Schoolbook(k[u..], f, u, j)
    decreases |k| - u
  {
    if u < |k| {
      RowsFromFront(k, f, u + 1, j);
      assert k[u..][1..] == k[u + 1..];
    }
  }

  lemma RowsAreProduct(k: seq<int>, f: seq<int>, j: nat)
    requires |k| == |f| && j < |f|
    ensures Rows(k, f, |k|, j) == NegaMul(k, f)[j]
  {
    RowsFromFront(k, f, 0, j);
    assert k[0..] == k;
    NegaMulIsSchoolbook(k, f, j);
  }

  /** Coefficient j after rows 0..u-1 and the first v steps of row u. */
  ghost function Partly(k: seq<int>, f: seq<int>, u: nat, v: nat, j: nat): int
    requires u < |k| == |f| && j < |f| && v <= |f|
  {
    Rows(k, f, u, j) + if Step(u, j, |f|) < v then k[u] * Wrapped(f, u, j) else 0
  }

  /** The step of row u that reaches coefficient j. */
  ghost function Step(u: nat, j: nat, n: nat): (v: nat)
    requires u < n && j < n
    ensures v < n
  {
    if u <= j then j - u else n + j - u
  }

  /** The coefficient that step v of row u reaches. */
  function Target(u: nat, v: nat, n: nat): (j: nat)
    requires u < n && v < n
    ensures j < n
  {
    if u + v < n then u + v else u + v - n
  }

  lemma TargetStep(u: nat, v: nat, n: nat, j: nat)
    requires u < n && v < n && j < n
    ensures Step(u, j, n) == v <==> j == Target(u, v, n)
  {
  }

  /** The factor and the coefficient that step v of row u uses. */
  lemma StepFactor(k: seq<int>, f: seq<int>, u: nat, v: nat)
    requires u < |k| == |f| && v < |f|
    ensures var j := Target(u, v, |f|); var kf := if u + v < |f| then 0 - k[u] else k[u];
      0 - kf * f[v] == k[u] * Wrapped(f, u, j)
  {
    var kf := if u + v < |f| then 0 - k[u] else k[u];
    if u + v < |f| {
      assert (0 - k[u]) * f[v] == 0 - k[u] * f[v];
    } else {
      assert k[u] * (0 - f[v]) == 0 - k[u] * f[v];
    }
  }

  ghost predicate RowState(now: seq<u32>, was: seq<u32>, len: nat, stride: nat, k: seq<int>, f: seq<int>, u: nat, v: nat, sch: nat, scl: nat) {
    |k| == |f| && u < |f| && v <= |f| && Layout(|now|, len, stride, |f|) && Layout(|was|, len, stride, |f|) &&
    forall j :: 0 <= j < |f| ==> Lowered(Number(now, len, stride, j), Number(was, len, stride, j), Partly(k, f, u, v, j), sch, scl)
  }

  lemma RowStart(a: seq<u32>, len: nat, stride: nat, k: seq<int>, f: seq<int>, sch: nat, scl: nat)
    requires |k| == |f| > 0 && Layout(|a|, len, stride, |f|)
    requires forall j :: 0 <= j < |f| ==> Digits(Number(a, len, stride, j))
    ensures RowState(a, a, len, stride, k, f, 0, 0, sch, scl)
  {
    hide Number, Digits, Lowered;
    forall j | 0 <= j < |f|
      ensures Lowered(Number(a, len, stride, j), Number(a, len, stride, j), Partly(k, f, 0, 0, j), sch, scl)
    {
      LowerNothing(Number(a, len, stride, j), sch, scl);
    }
  }

  /** A finished row is the start of the next one. */
  lemma RowNext(now: seq<u32>, was: seq<u32>, len: nat, stride: nat, k: seq<int>, f: seq<int>, u: nat, sch: nat, scl: nat)
    requires RowState(now, was, len, stride, k, f, u, |f|, sch, scl)
    ensures u + 1 < |f| ==> RowState(now, was, len, stride, k, f, u + 1, 0, sch, scl)
    ensures u + 1 == |f| ==> Subtracted(now, was, len, stride, |f|, NegaMul(k, f), sch, scl)
  {
    hide Number, Lowered, NegaMul, Wrapped;
    forall j | 0 <= j < |f|
      ensures Partly(k, f, u, |f|, j) == Rows(k, f, u + 1, j)
      ensures u + 1 == |f| ==> Rows(k, f, u + 1, j) == NegaMul(k, f)[j]
    {
      RowsAreProduct(k, f, j);
    }
    if u + 1 < |f| {
      forall j | 0 <= j < |f|
        ensures Lowered(Number(now, len, stride, j), Number(was, len, stride, j), Partly(k, f, u + 1, 0, j), sch, scl)
      {
        assert Partly(k, f, u + 1, 0, j) == Rows(k, f, u + 1, j) == Partly(k, f, u, |f|, j);
      }
    } else {
      forall j | 0 <= j < |f|
        ensures Lowered(Number(now, len, stride, j), Number(was, len, stride, j), NegaMul(k, f)[j], sch, scl)
      {
        assert NegaMul(k, f)[j] == Partly(k, f, u, |f|, j);
      }
    }
  }

  /** One step of a row: one number changes, by k[u] times one coefficient of f. */
  lemma RowStep(now: seq<u32>, before: seq<u32>, was: seq<u32>, len: nat, stride: nat, k: seq<int>, f: seq<int>, u: nat, v: nat,
                sch: nat, scl: nat, y: seq<u32>, kf: int)
    requires RowState(before, was, len, stride, k, f, u, v, sch, scl) && v < |f| && SVal(y) == f[v]
    requires kf == if u + v < |f| then 0 - k[u] else k[u]
    requires var j := Target(u, v, |f|);
      OnlyChanged(now, before, j * stride, j * stride + len) && j * stride + len <= |now| && j * stride + len <= |before| &&
      Added(Slice(now, j * stride, len), Slice(before, j * stride, len), Amount(kf, y, sch, scl))
    ensures RowState(now, was, len, stride, k, f, u, v + 1, sch, scl)
  {
    hide Lowered, Added, Amount, SVal, OnlyChanged, Slice, Wrapped, Rows, Partly, Target;
    var t := Target(u, v, |f|);
    SameLength(now, before, t * stride, t * stride + len);
    forall j | 0 <= j < |f|
      ensures Lowered(Number(now, len, stride, j), Number(was, len, stride, j), Partly(k, f, u, v + 1, j), sch, scl)
    {
      NumberInside(|now|, len, stride, |f|, j);
      if j == t {
        PartlyHit(k, f, u, v, kf, j);
        LowerBy(Number(now, len, stride, j), Number(before, len, stride, j), Number(was, len, stride, j), kf, y, Partly(k, f, u, v, j), sch, scl);
      } else {
        PartlyMiss(k, f, u, v, j);
        OtherNumbers(now, before, len, stride, |f|, t, j);
      }
    }
  }

  lemma PartlyHit(k: seq<int>, f: seq<int>, u: nat, v: nat, kf: int, j: nat)
    requires u < |k| == |f| && v < |f| && j == Target(u, v, |f|) && kf == if u + v < |f| then 0 - k[u] else k[u]
    ensures Partly(k, f, u, v + 1, j) == Partly(k, f, u, v, j) - kf * f[v]
  {
    hide Wrapped, Rows;
    TargetStep(u, v, |f|, j);
    StepFactor(k, f, u, v);
  }

  lemma PartlyMiss(k: seq<int>, f: seq<int>, u: nat, v: nat, j: nat)
    requires u < |k| == |f| && v < |f| && j < |f| && j != Target(u, v, |f|)
    ensures Partly(k, f, u, v + 1, j) == Partly(k, f, u, v, j)
  {
    hide Wrapped, Rows;
    TargetStep(u, v, |f|, j);
  }

  lemma CoefficientAt(a: seq<u32>, len: nat, stride: nat, n: nat, v: nat)
    requires Layout(|a|, len, stride, n) && v < n
    ensures v * stride + len <= |a| && SVal(Slice(a, v * stride, len)) == Coefficients(a, len, stride, n)[v]
  {
    hide SVal;
    NumberInside(|a|, len, stride, n, v);
  }

  ghost predicate AllDigits(a: seq<u32>, len: nat, stride: nat, n: nat)
    requires Layout(|a|, len, stride, n)
  {
    forall j :: 0 <= j < n ==> Digits(Number(a, len, stride, j))
  }

  lemma DigitsAt(a: seq<u32>, len: nat, stride: nat, n: nat, j: nat)
    requires Layout(|a|, len, stride, n) && AllDigits(a, len, stride, n) && j < n
    ensures j * stride + len <= |a| && Digits(Slice(a, j * stride, len))
  {
    hide Digits;
    NumberInside(|a|, len, stride, n, j);
    assert Digits(Number(a, len, stride, j));
  }

  lemma RowDigits(now: seq<u32>, was: seq<u32>, len: nat, stride: nat, k: seq<int>, f: seq<int>, u: nat, v: nat, sch: nat, scl: nat, j: nat)
    requires RowState(now, was, len, stride, k, f, u, v, sch, scl) && j < |f|
    ensures j * stride + len <= |now| && Digits(Slice(now, j * stride, len))
  {
    hide Digits, Val, Base, Partly, Cong;
    NumberInside(|now|, len, stride, |f|, j);
    assert Lowered(Number(now, len, stride, j), Number(was, len, stride, j), Partly(k, f, u, v, j), sch, scl);
  }

  /** poly_sub_scaled. */
  method PolySubScaled(F: array<u32>, Flen: nat, Fstride: nat, f: array<u32>, flen: nat, fstride: nat, k: array<int>,
                       sch: nat, scl: nat, logn: nat)
    requires F != f && scl < 31 && k.Length == Pow2(logn)
    requires Layout(F.Length, Flen, Fstride, Pow2(logn)) && Layout(f.Length, flen, fstride, Pow2(logn))
    requires AllDigits(F[..], Flen, Fstride, Pow2(logn)) && AllDigits(f[..], flen, fstride, Pow2(logn))
    requires forall v :: 0 <= v < k.Length ==> 0 - B31 < k[v] < B31
    modifies F
    ensures Subtracted(F[..], old(F[..]), Flen, Fstride, Pow2(logn),
                       NegaMul(k[..], Coefficients(f[..], flen, fstride, Pow2(logn))), sch, scl)
    ensures GapsKept(F[..], old(F[..]), Flen, Fstride, Pow2(logn))
  {
    hide Slice, Number, Layout, AllDigits, Digits, NegaMul, RowState, Subtracted, Added, Amount, OnlyChanged, GapsKept, Coefficients, SVal, Pow2;
    var n := Pow2(logn);
    ghost var was: seq<u32> := F[..];
    ghost var ks := k[..];
    ghost var fs := Coefficients(f[..], flen, fstride, n);
    StartRow(was, Flen, Fstride, ks, fs, sch, scl);
    GapsRefl(was, Flen, Fstride, n);
    for u := 0 to n
      invariant f[..] == old(f[..]) && k[..] == ks && GapsKept(F[..], was, Flen, Fstride, n)
      invariant u < n ==> RowState(F[..], was, Flen, Fstride, ks, fs, u, 0, sch, scl)
      invariant u == n ==> Subtracted(F[..], was, Flen, Fstride, n, NegaMul(ks, fs), sch, scl)
    {
      assert ks[u] == k[u];
      PolyRow(F, Flen, Fstride, f, flen, fstride, k[u], u, sch, scl, n, ks, fs, was);
      RowNext(F[..], was, Flen, Fstride, ks, fs, u, sch, scl);
    }
  }

  lemma StartRow(a: seq<u32>, len: nat, stride: nat, k: seq<int>, f: seq<int>, sch: nat, scl: nat)
    requires |k| == |f| > 0 && Layout(|a|, len, stride, |f|) && AllDigits(a, len, stride, |f|)
    ensures RowState(a, a, len, stride, k, f, 0, 0, sch, scl)
  {
    hide RowState, Digits;
    RowStart(a, len, stride, k, f, sch, scl);
  }

  /** The inner loop; x runs through the coefficients of F and wraps around with a sign change. */
  method PolyRow(F: array<u32>, Flen: nat, Fstride: nat, f: array<u32>, flen: nat, fstride: nat, ku: int, u: nat,
                 sch: nat, scl: nat, n: nat, ghost ks: seq<int>, ghost fs: seq<int>, ghost was: seq<u32>)
    requires F != f && scl < 31 && u < n && |ks| == |fs| == n && ku == ks[u] && 0 - B31 < ku < B31
    requires Layout(F.Length, Flen, Fstride, n) && Layout(f.Length, flen, fstride, n)
    requires AllDigits(f[..], flen, fstride, n) && fs == Coefficients(f[..], flen, fstride, n)
    requires RowState(F[..], was, Flen, Fstride, ks, fs, u, 0, sch, scl) && GapsKept(F[..], was, Flen, Fstride, n)
    modifies F
    ensures RowState(F[..], was, Flen, Fstride, ks, fs, u, n, sch, scl) && GapsKept(F[..], was, Flen, Fstride, n)
  {
    hide Slice, Number, Layout, AllDigits, Digits, RowState, Added, Amount, OnlyChanged, GapsKept, Coefficients, SVal;
    var kf := 0 - ku;
    var j := u;
    for v := 0 to n
      invariant v < n ==> j == Target(u, v, n) && kf == if u + v < n then 0 - ku else ku
      invariant f[..] == old(f[..]) && GapsKept(F[..], was, Flen, Fstride, n)
      invariant RowState(F[..], was, Flen, Fstride, ks, fs, u, v, sch, scl)
    {
      RowDigits(F[..], was, Flen, Fstride, ks, fs, u, v, sch, scl, j);
      DigitsAt(f[..], flen, fstride, n, v);
      CoefficientAt(f[..], flen, fstride, n, v);
      ghost var before: seq<u32> := F[..];
      AddScaledMulSmall(F, j * Fstride, Flen, f, v * fstride, flen, kf, sch, scl);
      RowStep(F[..], before, was, Flen, Fstride, ks, fs, u, v, sch, scl, Slice(f[..], v * fstride, flen), kf);
      GapsStep(F[..], before, was, Flen, Fstride, n, j);
      if u + v == n - 1 {
        j := 0;
        kf := 0 - kf;
      } else {
        j := j + 1;
      }
    }
  }

  // ---------------------------------------------------------------------
  // The algorithm through the NTT
  // ---------------------------------------------------------------------

  /** The primes needed: usable for the CRT and for the NTT. */
  ghost predicate PrimesFor(ps: seq<SmallPrime>, n: nat) {
    CrtPrimes(ps, n) && forall u :: 0 <= u < n ==> NttPrime(ps[u].p, ps[u].g)
  }

  /** Every column comes out in reduced words, as zint_rebuild_CRT wants them. */
  ghost predicate Reduced(k: seq<int>, f: seq<int>, logn: nat, ps: seq<SmallPrime>, n: nat) {
    n <= |ps| && logn <= 10 && |k| == |f| &&
    forall u :: 0 <= u < n ==> ps[u].p > 0 && AllBelow(Column(k, f, logn, ps[u].p, ps[u].g), ps[u].p)
  }

  /** prod is the polynomial that the columns stand for. */
  ghost predicate Rebuilds(prod: seq<int>, k: seq<int>, f: seq<int>, logn: nat, ps: seq<SmallPrime>, n: nat) {
    n <= |ps| && logn <= 10 && |k| == |f| == |prod| && CoefficientsFit(ps, n, prod) &&
    forall u :: 0 <= u < n ==> ps[u].p > 0 && Column(k, f, logn, ps[u].p, ps[u].g) == Poly.Residues(prod, ps[u].p)
  }

  /** No coefficient of k is below -p, for any of the primes p. */
  ghost predicate AtLeastAll(k: seq<int>, ps: seq<SmallPrime>, n: nat) {
    n <= |ps| && forall u :: 0 <= u < n ==> AtLeast(k, 0 - ps[u].p)
  }

  /** The first `done` columns are as the transforms leave them. */
  ghost predicate ColumnsHold(fk: seq<u32>, tlen: nat, n: nat, k: seq<int>, f: seq<int>, logn: nat, ps: seq<SmallPrime>, done: nat) {
    done <= tlen <= |ps| && logn <= 10 && |k| == |f| == n &&
    forall u :: 0 <= u < done ==>
      ps[u].p > 0 && Fits(|fk|, u, tlen, n) && View(fk, u, tlen, n) == Column(k, f, logn, ps[u].p, ps[u].g)
  }

  /** The first `done` columns hold the product modulo the first primes. */
  ghost predicate ColumnsDone(fk: seq<u32>, tlen: nat, n: nat, prod: seq<int>, ps: seq<SmallPrime>, done: nat) {
    done <= tlen <= |ps| && |prod| == n &&
    forall u :: 0 <= u < done ==>
      ps[u].p > 0 && Fits(|fk|, u, tlen, n) && View(fk, u, tlen, n) == Poly.Residues(prod, ps[u].p)
  }

  lemma ColumnFits(len: nat, tlen: nat, n: nat, u: nat)
    requires u < tlen && len == n * tlen
    ensures Fits(len, u, tlen, n)
  {
    forall v | 0 <= v < n
      ensures Pos(u, tlen, v) < len
    {
      MulMono(v + 1, n, tlen);
    }
  }

  lemma ColumnPosition(tlen: nat, u: nat, w: nat, i: nat, j: nat)
    requires u < tlen && w < tlen && Pos(u, tlen, i) == Pos(w, tlen, j)
    ensures u == w
  {
    if i < j {
      MulMono(i + 1, j, tlen);
    } else if j < i {
      MulMono(j + 1, i, tlen);
    }
  }

  /** Working on one column leaves the others alone. */
  lemma OtherColumn(a: seq<u32>, b: seq<u32>, tlen: nat, n: nat, u: nat, w: nat)
    requires u < tlen && w < tlen && u != w && Fits(|a|, w, tlen, n) && SameElsewhere(a, b, u, tlen, n)
    ensures |a| == |b| && View(a, w, tlen, n) == View(b, w, tlen, n)
  {
    hide Pos;
    forall j | 0 <= j < n
      ensures a[Pos(w, tlen, j)] == b[Pos(w, tlen, j)]
    {
      var q := Pos(w, tlen, j);
      if OnGrid(q, u, tlen, n) {
        var i :| 0 <= i < n && q == Pos(u, tlen, i);
        ColumnPosition(tlen, u, w, i, j);
      }
    }
  }

  lemma ColumnsNext(a: seq<u32>, b: seq<u32>, tlen: nat, n: nat, k: seq<int>, f: seq<int>, logn: nat, ps: seq<SmallPrime>, u: nat)
    requires ColumnsHold(b, tlen, n, k, f, logn, ps, u) && u < tlen && SameElsewhere(a, b, u, tlen, n)
    requires ps[u].p > 0 && Fits(|a|, u, tlen, n) && View(a, u, tlen, n) == Column(k, f, logn, ps[u].p, ps[u].g)
    ensures ColumnsHold(a, tlen, n, k, f, logn, ps, u + 1)
  {
    hide Fits, View, SameElsewhere, Column;
    SameSize(a, b, u, tlen, n);
    forall w | 0 <= w < u
      ensures View(a, w, tlen, n) == Column(k, f, logn, ps[w].p, ps[w].g)
    {
      OtherColumn(a, b, tlen, n, u, w);
    }
  }

  lemma SameSize(a: seq<u32>, b: seq<u32>, u: nat, tlen: nat, n: nat)
    requires SameElsewhere(a, b, u, tlen, n)
    ensures |a| == |b|
  {
  }

  /** t1 := modp_set of every coefficient of k. */
  method SetAll(k: array<int>, t1: array<u32>, p: u32)
    requires k.Length == t1.Length
    modifies t1
    ensures t1[..] == SetWords(k[..], p)
  {
    hide Set;
    for v := 0 to k.Length
      invariant forall i :: 0 <= i < v ==> t1[i] == Set(k[i], p)
    {
      t1[v] := Set(k[v], p);
    }
    assert t1[..] == SetWords(k[..], p);
  }

  /** Column u of fk := f modulo p. */
  method ReduceColumn(fk: array<u32>, u: nat, tlen: nat, n: nat, f: array<u32>, flen: nat, fstride: nat, p: u32, p0i: u32, r2: u32, rx: u32)
    requires fk != f && Fits(fk.Length, u, tlen, n) && Field(p, p0i) && p > 0 && r2 == R2(p, p0i) && rx < p && Cong(rx, Base(flen), p)
    requires Layout(f.Length, flen, fstride, n) && AllDigits(f[..], flen, fstride, n)
    modifies fk
    ensures View(fk[..], u, tlen, n) == Poly.Residues(Coefficients(f[..], flen, fstride, n), p)
    ensures SameElsewhere(fk[..], old(fk[..]), u, tlen, n)
  {
    hide Fits, View, SameElsewhere, Layout, AllDigits, Digits, Coefficients, SVal, Slice, Field, R2, Cong, Base;
    ghost var fs := Coefficients(f[..], flen, fstride, n);
    ghost var r: seq<u32> := Poly.Residues(fs, p);
    ghost var w: seq<u32> := View(fk[..], u, tlen, n);
    SameRefl(fk[..], u, tlen, n);
    assert r[..0] + w[0..] == w;
    for v := 0 to n
      invariant f[..] == old(f[..]) && View(fk[..], u, tlen, n) == r[..v] + w[v..]
      invariant SameElsewhere(fk[..], old(fk[..]), u, tlen, n)
    {
      DigitsAt(f[..], flen, fstride, n, v);
      CoefficientAt(f[..], flen, fstride, n, v);
      var z := ModSmallSigned(f, v * fstride, flen, p, p0i, r2, rx);
      ResidueIs(z, fs[v], p);
      PrefixAt(r, w, v);
      ghost var h0: seq<u32> := fk[..];
      Store(fk, u, tlen, n, v, z);
      SameTrans(fk[..], h0, old(fk[..]), u, tlen, n);
    }
    assert r[..n] + w[n..] == r;
  }

  lemma ResidueIs(z: u32, x: int, p: u32)
    requires p > 0 && z < p && Cong(z, x, p)
    ensures z == Residue(x, p)
  {
    hide Cong;
    CongModEq(z, x, p);
    SmallMod(z, p);
  }

  /** Column u of fk := slot-wise product with t1. */
  method MultiplyColumn(t1: array<u32>, fk: array<u32>, u: nat, tlen: nat, n: nat, p: u32, p0i: u32)
    requires t1 != fk && t1.Length == n && Fits(fk.Length, u, tlen, n)
    modifies fk
    ensures View(fk[..], u, tlen, n) == Pointwise(t1[..], old(View(fk[..], u, tlen, n)), p, p0i)
    ensures SameElsewhere(fk[..], old(fk[..]), u, tlen, n)
  {
    hide Fits, View, SameElsewhere, SlotMul;
    ghost var w: seq<u32> := View(fk[..], u, tlen, n);
    ghost var r: seq<u32> := Pointwise(t1[..], w, p, p0i);
    SameRefl(fk[..], u, tlen, n);
    assert r[..0] + w[0..] == w;
    for v := 0 to n
      invariant t1[..] == old(t1[..]) && View(fk[..], u, tlen, n) == r[..v] + w[v..]
      invariant SameElsewhere(fk[..], old(fk[..]), u, tlen, n)
    {
      PrefixAt(r, w, v);
      var x := Load(fk, u, tlen, n, v);
      ghost var h0: seq<u32> := fk[..];
      Store(fk, u, tlen, n, v, SlotMul(t1[v], x, p, p0i));
      SameTrans(fk[..], h0, old(fk[..]), u, tlen, n);
    }
    assert r[..n] + w[n..] == r;
  }

  lemma RxIsBase(rx: u32, flen: nat, p: u32)
    requires p > 0 && rx == Pow(B31, flen) % p
    ensures Cong(rx, Base(flen), p)
  {
    hide Cong, Pow, Base;
    BaseIsPow(flen);
    CongMod(Pow(B31, flen), p);
  }

  /** One prime: column u of fk, for any k. */
  method ProductColumn(fk: array<u32>, u: nat, tlen: nat, f: array<u32>, flen: nat, fstride: nat, k: array<int>,
                       t1: array<u32>, gm: array<u32>, igm: array<u32>, logn: nat, p: u32, g: u32)
    requires logn <= 10 && 1 <= flen <= B31 && NttPrime(p, g) && k.Length == Pow2(logn)
    requires fk != f && fk != t1 && fk != gm && fk != igm && t1 != f && t1 != gm && t1 != igm && gm != igm && gm != f && igm != f
    requires t1.Length == gm.Length == igm.Length == Pow2(logn) && Fits(fk.Length, u, tlen, Pow2(logn))
    requires Layout(f.Length, flen, fstride, Pow2(logn)) && AllDigits(f[..], flen, fstride, Pow2(logn))
    modifies fk, t1, gm, igm
    ensures p > 0 && View(fk[..], u, tlen, Pow2(logn))
      == Column(k[..], Coefficients(f[..], flen, fstride, Pow2(logn)), logn, p, g)
    ensures SameElsewhere(fk[..], old(fk[..]), u, tlen, Pow2(logn))
  {
    hide Fits, View, SameElsewhere, Layout, AllDigits, Coefficients, NegInverse, NInv31, R2, Cong, Base, Pow2, Pow, NTT, INTT,
      Poly.Residues, NegaMul, Pointwise, RootTree, Inverses, Table, InverseTable, SetWords;
    var n := Pow2(logn);
    ghost var fs := Coefficients(f[..], flen, fstride, n);
    NInv31Spec(p);
    var p0i: u32 := NInv31(p);
    var r2: u32 := R2(p, p0i);
    var rx := Rx(flen, p, p0i, r2);
    RxIsBase(rx, flen, p);
    MkGm2(gm, igm, logn, g, p, p0i);
    SetAll(k, t1, p);
    WholeView(t1[..]);
    NTT2Ext(t1, 0, 1, gm, logn, p, p0i);
    WholeView(t1[..]);
    ghost var h0: seq<u32> := fk[..];
    ReduceColumn(fk, u, tlen, n, f, flen, fstride, p, p0i, r2, rx);
    ghost var h1: seq<u32> := fk[..];
    NTT2Ext(fk, u, tlen, gm, logn, p, p0i);
    SameTrans(fk[..], h1, h0, u, tlen, n);
    ghost var h2: seq<u32> := fk[..];
    MultiplyColumn(t1, fk, u, tlen, n, p, p0i);
    SameTrans(fk[..], h2, h0, u, tlen, n);
    ghost var h3: seq<u32> := fk[..];
    INTT2Ext(fk, u, tlen, igm, logn, p, p0i);
    SameTrans(fk[..], h3, h0, u, tlen, n);
    SameColumn(k[..], fs, logn, gm[..], igm[..], p, g);
  }

  lemma SameColumn(k: seq<int>, f: seq<int>, logn: nat, gm: seq<u32>, igm: seq<u32>, p: u32, g: u32)
    requires p > 0 && logn <= 10 && |k| == |f| && |gm| == |igm| == Pow2(logn)
    requires gm[..Pow2(logn)] == Table(p, g, logn) && igm[..Pow2(logn)] == InverseTable(p, g, logn)
    ensures ColumnFrom(k, f, logn, gm, igm, p, NInv31(p)) == Column(k, f, logn, p, g)
  {
    hide Pow2;
    assert gm == gm[..Pow2(logn)] && igm == igm[..Pow2(logn)];
  }

  lemma WholeView(a: seq<u32>)
    ensures Fits(|a|, 0, 1, |a|) && View(a, 0, 1, |a|) == a
  {
    assert forall i: nat :: Pos(0, 1, i) == i;
  }

  /** The rebuilt numbers are the coefficients of the product themselves. */
  lemma RebuiltProduct(cur: seq<u32>, start: seq<u32>, tlen: nat, n: nat, prod: seq<int>, ps: seq<SmallPrime>, j: nat)
    requires Layout(|cur|, tlen, tlen, n) && Layout(|start|, tlen, tlen, n) && CrtPrimes(ps, tlen) && j < n
    requires ColumnsDone(start, tlen, n, prod, ps, tlen)
    requires Result(Number(cur, tlen, tlen, j), Number(start, tlen, tlen, j), ps, true)
    requires 0 - Prod(ps, tlen) < 2 * prod[j] < Prod(ps, tlen)
    ensures SVal(Number(cur, tlen, tlen, j)) == prod[j]
  {
    hide SVal, Prod, Digits, CrtPrimes;
    var z := SVal(Number(cur, tlen, tlen, j));
    forall u | 0 <= u < tlen
      ensures Cong(z, prod[j], ps[u].p)
    {
      ColumnEntry(start, tlen, n, prod, ps, u, j);
      CrtEntry(z, Number(start, tlen, tlen, j), prod[j], ps, u);
    }
    CenteredUnique(z, prod[j], ps, tlen);
  }

  lemma ColumnEntry(start: seq<u32>, tlen: nat, n: nat, prod: seq<int>, ps: seq<SmallPrime>, u: nat, j: nat)
    requires ColumnsDone(start, tlen, n, prod, ps, tlen) && Layout(|start|, tlen, tlen, n) && u < tlen && j < n
    ensures ps[u].p > 0 && Number(start, tlen, tlen, j)[u] == Residue(prod[j], ps[u].p)
  {
    var v := View(start, u, tlen, n);
    assert v[j] == start[Pos(u, tlen, j)];
    assert v == Poly.Residues(prod, ps[u].p);
    assert v[j] == Residue(prod[j], ps[u].p);
  }

  lemma CrtEntry(z: int, res: seq<u32>, x: int, ps: seq<SmallPrime>, u: nat)
    requires Centered(z, res, ps) && u < |res| && ps[u].p > 0 && res[u] == Residue(x, ps[u].p)
    ensures Cong(z, x, ps[u].p)
  {
    hide Cong, Prod;
    assert Cong(z, res[u], ps[u].p);
    CongMod(x, ps[u].p);
    CongTrans(z, res[u], x, ps[u].p);
  }

  lemma CenteredUnique(z: int, x: int, ps: seq<SmallPrime>, n: nat)
    requires CrtPrimes(ps, n) && forall u :: 0 <= u < n ==> Cong(z, x, ps[u].p)
    requires 0 - Prod(ps, n) < 2 * z < Prod(ps, n) && 0 - Prod(ps, n) < 2 * x < Prod(ps, n)
    ensures z == x
  {
    hide Cong, Prod, CrtPrimes;
    CrtWidth(ps, n);
    CrtCong(z, x, ps, n);
    var m :| z - x == Prod(ps, n) * m;
    ByQuotient(z, x, Prod(ps, n), m);
    CongUnique(z, x, Prod(ps, n));
  }

  lemma CrtWidth(ps: seq<SmallPrime>, n: nat)
    requires CrtPrimes(ps, n)
    ensures n <= |ps|
  {
  }

  lemma ColumnsInRange(fk: seq<u32>, tlen: nat, n: nat, prod: seq<int>, ps: seq<SmallPrime>, j: nat)
    requires ColumnsDone(fk, tlen, n, prod, ps, tlen) && Layout(|fk|, tlen, tlen, n) && j < n
    ensures InRange(Number(fk, tlen, tlen, j), ps)
  {
    hide ColumnsDone, Layout, Number;
    ColumnWidth(fk, tlen, n, prod, ps, j);
    forall u | 0 <= u < tlen
      ensures Number(fk, tlen, tlen, j)[u] < ps[u].p
    {
      ColumnEntry(fk, tlen, n, prod, ps, u, j);
    }
  }

  lemma ColumnWidth(fk: seq<u32>, tlen: nat, n: nat, prod: seq<int>, ps: seq<SmallPrime>, j: nat)
    requires ColumnsDone(fk, tlen, n, prod, ps, tlen) && Layout(|fk|, tlen, tlen, n) && j < n
    ensures tlen <= |ps| && j * tlen + tlen <= |fk| && |prod| == n
  {
    NumberInside(|fk|, tlen, tlen, n, j);
  }

  lemma ProductLayout(tlen: nat, n: nat)
    ensures Layout(n * tlen, tlen, tlen, n)
  {
    forall v | 0 <= v < n
      ensures v * tlen + tlen <= n * tlen
    {
      MulMono(v + 1, n, tlen);
    }
  }

  /** After the first v numbers of F have been lowered. */
  ghost predicate LowerPrefix(now: seq<u32>, was: seq<u32>, len: nat, stride: nat, n: nat, prod: seq<int>, v: nat, sch: nat, scl: nat) {
    |prod| == n && v <= n && Layout(|now|, len, stride, n) && Layout(|was|, len, stride, n) &&
    forall j :: 0 <= j < n ==>
      Lowered(Number(now, len, stride, j), Number(was, len, stride, j), if j < v then prod[j] else 0, sch, scl)
  }

  lemma LowerPrefixStart(a: seq<u32>, len: nat, stride: nat, n: nat, prod: seq<int>, sch: nat, scl: nat)
    requires |prod| == n && Layout(|a|, len, stride, n) && AllDigits(a, len, stride, n)
    ensures LowerPrefix(a, a, len, stride, n, prod, 0, sch, scl)
  {
    hide Number, Lowered, Digits;
    forall j | 0 <= j < n
      ensures Lowered(Number(a, len, stride, j), Number(a, len, stride, j), 0, sch, scl)
    {
      LowerNothing(Number(a, len, stride, j), sch, scl);
    }
  }

  lemma LowerPrefixStep(now: seq<u32>, before: seq<u32>, was: seq<u32>, len: nat, stride: nat, n: nat, prod: seq<int>, v: nat,
                        sch: nat, scl: nat, y: seq<u32>)
    requires LowerPrefix(before, was, len, stride, n, prod, v, sch, scl) && v < n && SVal(y) == prod[v]
    requires OnlyChanged(now, before, v * stride, v * stride + len) && v * stride + len <= |now| && v * stride + len <= |before|
    requires Added(Slice(now, v * stride, len), Slice(before, v * stride, len), Amount(-1, y, sch, scl))
    ensures LowerPrefix(now, was, len, stride, n, prod, v + 1, sch, scl)
  {
    hide Lowered, Added, Amount, SVal, OnlyChanged, Slice;
    SameLength(now, before, v * stride, v * stride + len);
    forall j | 0 <= j < n
      ensures Lowered(Number(now, len, stride, j), Number(was, len, stride, j), if j < v + 1 then prod[j] else 0, sch, scl)
    {
      NumberInside(|now|, len, stride, n, j);
      if j == v {
        LowerBy(Number(now, len, stride, j), Number(before, len, stride, j), Number(was, len, stride, j), -1, y, 0, sch, scl);
      } else {
        OtherNumbers(now, before, len, stride, n, v, j);
      }
    }
  }

  lemma LowerPrefixEnd(now: seq<u32>, was: seq<u32>, len: nat, stride: nat, n: nat, prod: seq<int>, sch: nat, scl: nat)
    requires LowerPrefix(now, was, len, stride, n, prod, n, sch, scl)
    ensures Subtracted(now, was, len, stride, n, prod, sch, scl)
  {
    hide Lowered, Number;
  }

  lemma LowerPrefixDigits(now: seq<u32>, was: seq<u32>, len: nat, stride: nat, n: nat, prod: seq<int>, v: nat, sch: nat, scl: nat)
    requires LowerPrefix(now, was, len, stride, n, prod, v, sch, scl) && v < n
    ensures v * stride + len <= |now| && Digits(Slice(now, v * stride, len))
  {
    hide Digits, Val, Base, Cong;
    NumberInside(|now|, len, stride, n, v);
    assert Lowered(Number(now, len, stride, v), Number(was, len, stride, v), 0, sch, scl);
  }

  /** a holds the polynomial prod, `len` words per coefficient. */
  ghost predicate Holds(a: seq<u32>, len: nat, n: nat, prod: seq<int>) {
    Layout(|a|, len, len, n) && AllDigits(a, len, len, n) && Coefficients(a, len, len, n) == prod
  }

  /** All columns, then the Chinese remainder theorem: fk := the polynomial over the integers that they stand for. */
  method RebuildProduct(f: array<u32>, flen: nat, fstride: nat, k: array<int>, logn: nat, ps: seq<SmallPrime>)
      returns (fk: array<u32>, ghost prod: seq<int>)
    requires logn <= 10 && 1 <= flen < B31 && k.Length == Pow2(logn) && PrimesFor(ps, flen + 1)
    requires Layout(f.Length, flen, fstride, Pow2(logn)) && AllDigits(f[..], flen, fstride, Pow2(logn))
    requires Reduced(k[..], Coefficients(f[..], flen, fstride, Pow2(logn)), logn, ps, flen + 1)
    ensures fresh(fk)
    ensures Holds(fk[..], flen + 1, Pow2(logn), prod)
    ensures Rebuilds(prod, k[..], Coefficients(f[..], flen, fstride, Pow2(logn)), logn, ps, flen + 1)
  {
    hide Fits, View, SameElsewhere, Layout, AllDigits, Digits, Coefficients, Cong, Base, Pow2, Poly.Residues, ColumnsHold, Column,
      PrimesFor, CrtPrimes, Prod, Number, Result, InRange, GapsKept, NttPrime, Holds, Reduced, Rebuilds;
    var n := Pow2(logn);
    var tlen := flen + 1;
    ghost var fs := Coefficients(f[..], flen, fstride, n);
    var gm, igm, t1 := new u32[n], new u32[n], new u32[n];
    ProductLayout(tlen, n);
    fk := new u32[n * tlen];
    PrimesWidth(ps, tlen);
    ColumnsNone(fk[..], tlen, n, k[..], fs, logn, ps);
    var u := 0;
    while u < tlen
      invariant 0 <= u <= tlen && f[..] == old(f[..]) && k[..] == old(k[..])
      invariant ColumnsHold(fk[..], tlen, n, k[..], fs, logn, ps, u)
    {
      ColumnFits(fk.Length, tlen, n, u);
      PrimeAt(ps, tlen, u);
      ghost var before: seq<u32> := fk[..];
      ProductColumn(fk, u, tlen, f, flen, fstride, k, t1, gm, igm, logn, ps[u].p, ps[u].g);
      ColumnsNext(fk[..], before, tlen, n, k[..], fs, logn, ps, u);
      u := u + 1;
    }
    ghost var start: seq<u32> := fk[..];
    forall j | 0 <= j < n
      ensures InRange(Number(start, tlen, tlen, j), ps)
    {
      HoldInRange(start, tlen, n, k[..], fs, logn, ps, j);
    }
    var tmp := new u32[tlen];
    RebuildCRT(fk, tlen, tlen, n, ps, true, tmp);
    prod := Coefficients(fk[..], tlen, tlen, n);
    CollectRebuilt(fk[..], start, tlen, n, k[..], fs, logn, ps);
  }

  /** Row j of column u. */
  lemma HoldEntry(start: seq<u32>, tlen: nat, n: nat, k: seq<int>, f: seq<int>, logn: nat, ps: seq<SmallPrime>, u: nat, j: nat)
    requires ColumnsHold(start, tlen, n, k, f, logn, ps, tlen) && Layout(|start|, tlen, tlen, n) && u < tlen && j < n
    ensures ps[u].p > 0 && Number(start, tlen, tlen, j)[u] == Column(k, f, logn, ps[u].p, ps[u].g)[j]
  {
    hide Column;
    var v := View(start, u, tlen, n);
    assert v[j] == start[Pos(u, tlen, j)];
    assert v == Column(k, f, logn, ps[u].p, ps[u].g);
  }

  lemma HoldInRange(start: seq<u32>, tlen: nat, n: nat, k: seq<int>, f: seq<int>, logn: nat, ps: seq<SmallPrime>, j: nat)
    requires ColumnsHold(start, tlen, n, k, f, logn, ps, tlen) && Layout(|start|, tlen, tlen, n) && j < n && Reduced(k, f, logn, ps, tlen)
    ensures InRange(Number(start, tlen, tlen, j), ps)
  {
    hide ColumnsHold, Layout, Number, Column;
    HoldWidth(start, tlen, n, k, f, logn, ps, j);
    forall u | 0 <= u < tlen
      ensures Number(start, tlen, tlen, j)[u] < ps[u].p
    {
      HoldEntry(start, tlen, n, k, f, logn, ps, u, j);
      BelowAt(Column(k, f, logn, ps[u].p, ps[u].g), j, ps[u].p);
    }
  }

  lemma HoldWidth(fk: seq<u32>, tlen: nat, n: nat, k: seq<int>, f: seq<int>, logn: nat, ps: seq<SmallPrime>, j: nat)
    requires ColumnsHold(fk, tlen, n, k, f, logn, ps, tlen) && Layout(|fk|, tlen, tlen, n) && j < n
    ensures tlen <= |ps| && j * tlen + tlen <= |fk| && |k| == |f| == n
  {
    NumberInside(|fk|, tlen, tlen, n, j);
  }

  /** The rebuilt numbers have the columns as their residues. */
  lemma CollectRebuilt(cur: seq<u32>, start: seq<u32>, tlen: nat, n: nat, k: seq<int>, f: seq<int>, logn: nat, ps: seq<SmallPrime>)
    requires Layout(|cur|, tlen, tlen, n) && Layout(|start|, tlen, tlen, n) && ColumnsHold(start, tlen, n, k, f, logn, ps, tlen)
    requires Reduced(k, f, logn, ps, tlen)
    requires forall j :: 0 <= j < n ==> Result(Number(cur, tlen, tlen, j), Number(start, tlen, tlen, j), ps, true)
    ensures Holds(cur, tlen, n, Coefficients(cur, tlen, tlen, n))
    ensures Rebuilds(Coefficients(cur, tlen, tlen, n), k, f, logn, ps, tlen)
  {
    hide Digits, SVal, Number, Result, ColumnsHold, Column, Reduced, Prod, Centered;
    var prod := Coefficients(cur, tlen, tlen, n);
    assert tlen <= |ps| && logn <= 10 && |k| == |f| == n by { HoldParts(start, tlen, n, k, f, logn, ps); }
    forall j | 0 <= j < n
      ensures Digits(Number(cur, tlen, tlen, j))
      ensures 0 - Prod(ps, tlen) < 2 * prod[j] < Prod(ps, tlen)
    {
      NumberInside(|cur|, tlen, tlen, n, j);
      ResultParts(Number(cur, tlen, tlen, j), Number(start, tlen, tlen, j), ps);
    }
    CollectCoefficients(cur, tlen, n, prod);
    forall u | 0 <= u < tlen
      ensures ps[u].p > 0 && Column(k, f, logn, ps[u].p, ps[u].g) == Poly.Residues(prod, ps[u].p)
    {
      RebuiltColumn(cur, start, tlen, n, k, f, logn, ps, u);
    }
  }

  lemma HoldParts(fk: seq<u32>, tlen: nat, n: nat, k: seq<int>, f: seq<int>, logn: nat, ps: seq<SmallPrime>)
    requires ColumnsHold(fk, tlen, n, k, f, logn, ps, tlen)
    ensures tlen <= |ps| && logn <= 10 && |k| == |f| == n
  {
  }

  lemma ResultParts(cur: seq<u32>, res: seq<u32>, ps: seq<SmallPrime>)
    requires Result(cur, res, ps, true)
    ensures |cur| == |res| <= |ps| && Digits(cur) && Centered(SVal(cur), res, ps)
    ensures 0 - Prod(ps, |res|) < 2 * SVal(cur) < Prod(ps, |res|)
  {
    hide Digits, SVal, Prod;
  }

  lemma RebuiltColumn(cur: seq<u32>, start: seq<u32>, tlen: nat, n: nat, k: seq<int>, f: seq<int>, logn: nat, ps: seq<SmallPrime>, u: nat)
    requires Layout(|cur|, tlen, tlen, n) && Layout(|start|, tlen, tlen, n) && ColumnsHold(start, tlen, n, k, f, logn, ps, tlen)
    requires Reduced(k, f, logn, ps, tlen) && u < tlen <= |ps| && |k| == |f| == n && logn <= 10
    requires forall j :: 0 <= j < n ==> Result(Number(cur, tlen, tlen, j), Number(start, tlen, tlen, j), ps, true)
    ensures ps[u].p > 0 && Column(k, f, logn, ps[u].p, ps[u].g) == Poly.Residues(Coefficients(cur, tlen, tlen, n), ps[u].p)
  {
    hide Digits, SVal, Number, Result, ColumnsHold, Column, Prod, Cong, Layout;
    var prod := Coefficients(cur, tlen, tlen, n);
    var p := ps[u].p;
    forall j | 0 <= j < n
      ensures Column(k, f, logn, p, ps[u].g)[j] == Residue(prod[j], p)
    {
      NumberInside(|cur|, tlen, tlen, n, j);
      NumberInside(|start|, tlen, tlen, n, j);
      ResultParts(Number(cur, tlen, tlen, j), Number(start, tlen, tlen, j), ps);
      HoldEntry(start, tlen, n, k, f, logn, ps, u, j);
      HoldWidth(start, tlen, n, k, f, logn, ps, j);
      BelowAt(Column(k, f, logn, p, ps[u].g), j, p);
      CongSym(prod[j], Number(start, tlen, tlen, j)[u], p);
      ResidueIs(Column(k, f, logn, p, ps[u].g)[j], prod[j], p);
    }
  }

  lemma CollectProduct(cur: seq<u32>, start: seq<u32>, tlen: nat, n: nat, prod: seq<int>, ps: seq<SmallPrime>)
    requires Layout(|cur|, tlen, tlen, n) && Layout(|start|, tlen, tlen, n) && CrtPrimes(ps, tlen) && |prod| == n
    requires ColumnsDone(start, tlen, n, prod, ps, tlen) && CoefficientsFit(ps, tlen, prod)
    requires forall j :: 0 <= j < n ==> Result(Number(cur, tlen, tlen, j), Number(start, tlen, tlen, j), ps, true)
    ensures Holds(cur, tlen, n, prod)
  {
    hide Digits, SVal, Number, Result, ColumnsDone, CoefficientsFit, CrtPrimes;
    forall j | 0 <= j < n
      ensures Digits(Number(cur, tlen, tlen, j)) && SVal(Number(cur, tlen, tlen, j)) == prod[j]
    {
      NumberInside(|cur|, tlen, tlen, n, j);
      FitsAt(ps, tlen, prod, j);
      RebuiltProduct(cur, start, tlen, n, prod, ps, j);
      ResultDigits(Number(cur, tlen, tlen, j), Number(start, tlen, tlen, j), ps);
    }
    CollectCoefficients(cur, tlen, n, prod);
  }

  /** Every coefficient is below half the product of the primes in size. */
  ghost predicate CoefficientsFit(ps: seq<SmallPrime>, n: nat, prod: seq<int>) {
    n <= |ps| && forall j :: 0 <= j < |prod| ==> 0 - Prod(ps, n) < 2 * prod[j] < Prod(ps, n)
  }

  lemma FitsAt(ps: seq<SmallPrime>, n: nat, prod: seq<int>, j: nat)
    requires CoefficientsFit(ps, n, prod) && j < |prod|
    ensures n <= |ps| && 0 - Prod(ps, n) < 2 * prod[j] < Prod(ps, n)
  {
    hide Prod;
  }

  lemma PrimesWidth(ps: seq<SmallPrime>, n: nat)
    requires PrimesFor(ps, n)
    ensures n <= |ps| && CrtPrimes(ps, n)
  {
    hide NttPrime;
  }

  lemma PrimeAt(ps: seq<SmallPrime>, n: nat, u: nat)
    requires PrimesFor(ps, n) && u < n
    ensures u < |ps| && NttPrime(ps[u].p, ps[u].g)
  {
    hide NttPrime;
  }

  lemma ColumnsNone(fk: seq<u32>, tlen: nat, n: nat, k: seq<int>, f: seq<int>, logn: nat, ps: seq<SmallPrime>)
    requires tlen <= |ps| && |k| == |f| == n && logn <= 10
    ensures ColumnsHold(fk, tlen, n, k, f, logn, ps, 0)
  {
  }

  lemma ResultDigits(cur: seq<u32>, res: seq<u32>, ps: seq<SmallPrime>)
    requires Result(cur, res, ps, true)
    ensures Digits(cur)
  {
    hide Digits, Centered, SVal;
  }

  lemma CollectCoefficients(a: seq<u32>, tlen: nat, n: nat, prod: seq<int>)
    requires Layout(|a|, tlen, tlen, n) && |prod| == n
    requires forall j :: 0 <= j < n ==> Digits(Number(a, tlen, tlen, j)) && SVal(Number(a, tlen, tlen, j)) == prod[j]
    ensures Holds(a, tlen, n, prod)
  {
    hide Digits, SVal, Number;
  }

  lemma HoldsParts(a: seq<u32>, len: nat, n: nat, prod: seq<int>)
    requires Holds(a, len, n, prod)
    ensures Layout(|a|, len, len, n) && AllDigits(a, len, len, n) && Coefficients(a, len, len, n) == prod
  {
    hide Layout, AllDigits, Coefficients;
  }

  /**
   * poly_sub_scaled_ntt: it subtracts what its columns stand for, which is k*f, as in PolySubScaled,
   * when no coefficient of k is below -p for a prime p and k*f is below half the product of the primes.
   */
  method PolySubScaledNtt(F: array<u32>, Flen: nat, Fstride: nat, f: array<u32>, flen: nat, fstride: nat, k: array<int>,
                          sch: nat, scl: nat, logn: nat, ps: seq<SmallPrime>)
    requires F != f && scl < 31 && logn <= 10 && 1 <= flen < B31 && k.Length == Pow2(logn)
    requires Layout(F.Length, Flen, Fstride, Pow2(logn)) && Layout(f.Length, flen, fstride, Pow2(logn))
    requires AllDigits(F[..], Flen, Fstride, Pow2(logn)) && AllDigits(f[..], flen, fstride, Pow2(logn))
    requires PrimesFor(ps, flen + 1)
    requires AtLeastAll(k[..], ps, flen + 1) || Reduced(k[..], Coefficients(f[..], flen, fstride, Pow2(logn)), logn, ps, flen + 1)
    modifies F
    ensures exists prod :: Rebuilds(prod, k[..], Coefficients(f[..], flen, fstride, Pow2(logn)), logn, ps, flen + 1) &&
                           Subtracted(F[..], old(F[..]), Flen, Fstride, Pow2(logn), prod, sch, scl)
    ensures AtLeastAll(k[..], ps, flen + 1) && CoefficientsFit(ps, flen + 1, NegaMul(k[..], Coefficients(f[..], flen, fstride, Pow2(logn)))) ==>
      Subtracted(F[..], old(F[..]), Flen, Fstride, Pow2(logn),
                 NegaMul(k[..], Coefficients(f[..], flen, fstride, Pow2(logn))), sch, scl)
    ensures GapsKept(F[..], old(F[..]), Flen, Fstride, Pow2(logn))
  {
    hide Slice, Layout, AllDigits, Digits, Coefficients, Pow2, NegaMul, PrimesFor, GapsKept, CoefficientsFit, LowerPrefix, Subtracted,
      OnlyChanged, Added, Amount, SVal, Holds, Reduced, Rebuilds, AtLeastAll;
    var n := Pow2(logn);
    var tlen := flen + 1;
    ghost var was: seq<u32> := F[..];
    ghost var fs := Coefficients(f[..], flen, fstride, n);
    if AtLeastAll(k[..], ps, tlen) {
      ReducedWhen(k[..], fs, logn, ps, tlen);
    }
    var fk, prod := RebuildProduct(f, flen, fstride, k, logn, ps);
    ghost var product: seq<u32> := fk[..];
    HoldsParts(product, tlen, n, prod);
    LowerPrefixStart(was, Flen, Fstride, n, prod, sch, scl);
    GapsRefl(was, Flen, Fstride, n);
    for u := 0 to n
      invariant fk[..] == product && GapsKept(F[..], was, Flen, Fstride, n)
      invariant LowerPrefix(F[..], was, Flen, Fstride, n, prod, u, sch, scl)
    {
      LowerPrefixDigits(F[..], was, Flen, Fstride, n, prod, u, sch, scl);
      DigitsAt(fk[..], tlen, tlen, n, u);
      CoefficientAt(fk[..], tlen, tlen, n, u);
      ghost var before: seq<u32> := F[..];
      SubScaledNumber(F, u * Fstride, Flen, fk, u * tlen, tlen, sch, scl);
      LowerPrefixStep(F[..], before, was, Flen, Fstride, n, prod, u, sch, scl, Slice(fk[..], u * tlen, tlen));
      GapsStep(F[..], before, was, Flen, Fstride, n, u);
    }
    LowerPrefixEnd(F[..], was, Flen, Fstride, n, prod, sch, scl);
    if AtLeastAll(k[..], ps, tlen) && CoefficientsFit(ps, tlen, NegaMul(k[..], fs)) {
      RebuildsWhen(k[..], fs, logn, ps, tlen);
      RebuildsUnique(prod, NegaMul(k[..], fs), k[..], fs, logn, ps, tlen);
    }
  }

  // ---------------------------------------------------------------------
  // For which k both algorithms agree
  // ---------------------------------------------------------------------

  lemma ReducedWhen(k: seq<int>, f: seq<int>, logn: nat, ps: seq<SmallPrime>, n: nat)
    requires PrimesFor(ps, n) && logn <= 10 && |k| == |f| == Pow2(logn) && AtLeastAll(k, ps, n)
    ensures Reduced(k, f, logn, ps, n)
  {
    hide NttPrime, CrtPrimes, AtLeast, Column, AllBelow, Pow2;
    PrimesWidth(ps, n);
    forall u | 0 <= u < n
      ensures ps[u].p > 0 && AllBelow(Column(k, f, logn, ps[u].p, ps[u].g), ps[u].p)
    {
      ColumnReduced(k, f, logn, ps[u].p, ps[u].g);
    }
  }

  /** With coefficients from -p up and a product that fits, the columns stand for the product. */
  lemma RebuildsWhen(k: seq<int>, f: seq<int>, logn: nat, ps: seq<SmallPrime>, n: nat)
    requires PrimesFor(ps, n) && logn <= 10 && |k| == |f| == Pow2(logn) && AtLeastAll(k, ps, n)
    requires CoefficientsFit(ps, n, NegaMul(k, f))
    ensures Rebuilds(NegaMul(k, f), k, f, logn, ps, n)
  {
    hide NttPrime, CrtPrimes, AtLeast, Column, Poly.Residues, NegaMul, CoefficientsFit, Pow2;
    PrimesWidth(ps, n);
    forall u | 0 <= u < n
      ensures ps[u].p > 0 && Column(k, f, logn, ps[u].p, ps[u].g) == Poly.Residues(NegaMul(k, f), ps[u].p)
    {
      ColumnRight(k, f, logn, ps[u].p, ps[u].g);
    }
  }

  /** The columns stand for one polynomial only. */
  lemma RebuildsUnique(a: seq<int>, b: seq<int>, k: seq<int>, f: seq<int>, logn: nat, ps: seq<SmallPrime>, n: nat)
    requires PrimesFor(ps, n) && Rebuilds(a, k, f, logn, ps, n) && Rebuilds(b, k, f, logn, ps, n)
    ensures a == b
  {
    hide NttPrime, CrtPrimes, Column, Prod, Cong;
    PrimesWidth(ps, n);
    forall j | 0 <= j < |a|
      ensures a[j] == b[j]
    {
      forall u | 0 <= u < n
        ensures Cong(a[j], b[j], ps[u].p)
      {
        assert Poly.Residues(a, ps[u].p)[j] == Poly.Residues(b, ps[u].p)[j];
        SameResidue(a[j], b[j], ps[u].p);
      }
      CenteredUnique(a[j], b[j], ps, n);
    }
  }

  lemma SameResidue(x: int, y: int, p: u32)
    requires p > 0 && Residue(x, p) == Residue(y, p)
    ensures Cong(x, y, p)
  {
    hide Cong;
    CongMod(x, p);
    CongMod(y, p);
    CongTrans(x, x % p, y, p);
  }

  /**
   * Exactly when poly_sub_scaled_ntt subtracts k*f: let x bound the coefficients of k from below. It
   * does so for all such k and all f with a product that fits, if and only if x >= -p for every prime p used.
   */
  lemma NttAgreesIff(x: int, logn: nat, ps: seq<SmallPrime>, n: nat)
    requires PrimesFor(ps, n) && logn <= 10 && n >= 2 && 0 - B31 <= x <= 0
    ensures (forall k, f :: |k| == |f| == Pow2(logn) && AtLeast(k, x) && CoefficientsFit(ps, n, NegaMul(k, f)) ==>
               Rebuilds(NegaMul(k, f), k, f, logn, ps, n))
       <==> (forall u :: 0 <= u < n <= |ps| ==> x >= 0 - ps[u].p)
  {
    hide PrimesFor, NegaMul, CoefficientsFit, Rebuilds, Pow2, AtLeast, AtLeastAll, Const;
    PrimesWidth(ps, n);
    if u :| 0 <= u < n && x < 0 - ps[u].p {
      var k, f := Const(x, Pow2(logn)), Const(1, Pow2(logn));
      Disagrees(x, logn, ps, n, u);
      ConstAtLeast(x, Pow2(logn));
      assert |k| == |f| == Pow2(logn);
    } else {
      forall k, f | |k| == |f| == Pow2(logn) && AtLeast(k, x) && CoefficientsFit(ps, n, NegaMul(k, f))
        ensures Rebuilds(NegaMul(k, f), k, f, logn, ps, n)
      {
        AtLeastEach(k, x, ps, n);
        RebuildsWhen(k, f, logn, ps, n);
      }
    }
  }

  lemma AtLeastEach(k: seq<int>, x: int, ps: seq<SmallPrime>, n: nat)
    requires n <= |ps| && AtLeast(k, x) && forall u :: 0 <= u < n ==> x >= 0 - ps[u].p
    ensures AtLeastAll(k, ps, n)
  {
  }

  /** A constant below -p, times 1: the product fits, and the columns stand for something else. */
  lemma Disagrees(x: int, logn: nat, ps: seq<SmallPrime>, n: nat, u: nat)
    requires PrimesFor(ps, n) && logn <= 10 && 2 <= n <= |ps| && u < n && 0 - B31 <= x < 0 - ps[u].p
    ensures var k, f := Const(x, Pow2(logn)), Const(1, Pow2(logn));
      CoefficientsFit(ps, n, NegaMul(k, f)) && !Rebuilds(NegaMul(k, f), k, f, logn, ps, n)
  {
    hide NegaMul, CrtPrimes, NttPrime, Pow2, Const, Column, Poly.Residues, Prod;
    var k, f := Const(x, Pow2(logn)), Const(1, Pow2(logn));
    PrimesWidth(ps, n);
    ConstantProduct(x, Pow2(logn));
    WideProduct(ps, n);
    ColumnWrong(x, logn, ps[u].p, ps[u].g);
  }

  /** An input that the caller admits, for the first prime of the table: k = -(2^31 - 1), f = 1, degree 2. */
  lemma FailingInput()
    ensures var k, f := Const(1 - B31, 2), Const(1, 2);
      Column(k, f, 1, NtruCheck.P0, NtruCheck.G0) != Poly.Residues(NegaMul(k, f), NtruCheck.P0)
  {
    hide Column, Poly.Residues, NegaMul, NttPrime, Const;
    NtruCheck.FirstPrime();
    assert Pow2(1) == 2;
    ColumnWrong(1 - B31, 1, NtruCheck.P0, NtruCheck.G0);
  }

  /** c * 1, of which every coefficient is at most |c|. */
  lemma ConstantProduct(x: int, n: nat)
    requires n > 0 && 0 - B31 <= x <= 0
    ensures |NegaMul(Const(x, n), Const(1, n))| == n
    ensures forall j :: 0 <= j < n ==> 0 - B31 <= NegaMul(Const(x, n), Const(1, n))[j] <= 0
  {
    var f := Const(1, n);
    assert Const(x, n)[1..] == Zero(n - 1);
    ZeroTimes(n - 1, MulX(f));
  }

  lemma {:induction false} ZeroTimes(m: nat, g: seq<int>)
    ensures NegaMul(Zero(m), g) == Zero(|g|)
  {
    if m > 0 {
      assert Zero(m)[1..] == Zero(m - 1);
      ZeroTimes(m - 1, MulX(g));
    }
  }

  lemma {:induction false} WideProduct(ps: seq<SmallPrime>, n: nat)
    requires 2 <= n && CrtPrimes(ps, n)
    ensures n <= |ps| && Prod(ps, n) > 2 * B31
  {
    hide Cong;
    GetModulus(ps, n - 1, n);
    var p := ps[n - 1].p;
    if n > 2 {
      WideProduct(ps, n - 1);
      MulMono(1, p, Prod(ps, n - 1));
      assert p * Prod(ps, n - 1) == Prod(ps, n);
    } else {
      GetModulus(ps, 0, n);
      assert Prod(ps, 1) == Prod(ps, 0) * ps[0].p == ps[0].p;
      MulMono(B31 / 2, ps[0].p, p);
      assert (B31 / 2) * p > 2 * B31;
    }
  }

  /** Subtracting different polynomials leaves different arrays, as long as F is long enough to show it. */
  lemma DifferentArrays(a: seq<u32>, was: seq<u32>, len: nat, stride: nat, n: nat, prod: seq<int>, other: seq<int>, sch: nat, scl: nat, j: nat)
    requires Subtracted(a, was, len, stride, n, prod, sch, scl) && Subtracted(a, was, len, stride, n, other, sch, scl) && j < n
    requires var d := (prod[j] - other[j]) * (Base(sch) * Pow2(scl)); 0 - Base(len) < d < Base(len)
    ensures prod[j] == other[j]
  {
    hide Number, Cong, Val, Base, Pow2, Digits;
    var x, w := Number(a, len, stride, j), Number(was, len, stride, j);
    var m := Base(sch) * Pow2(scl);
    assert Lowered(x, w, prod[j], sch, scl) && Lowered(x, w, other[j], sch, scl);
    var e, g := 0 - prod[j] * m, 0 - other[j] * m;
    CongSym(Val(x), Val(w) + e, Base(|w|));
    CongTrans(Val(w) + e, Val(x), Val(w) + g, Base(|w|));
    NumberWidth(was, len, stride, n, j);
    assert (prod[j] - other[j]) * m == prod[j] * m - other[j] * m;
    CongUnique(Val(w) + e, Val(w) + g, Base(|w|));
    assert (prod[j] - other[j]) * m == 0;
    MulPos(Base(sch), Pow2(scl));
    NoZeroFactor(prod[j] - other[j], m);
  }

  lemma NumberWidth(a: seq<u32>, len: nat, stride: nat, n: nat, j: nat)
    requires Layout(|a|, len, stride, n) && j < n
    ensures |Number(a, len, stride, j)| == len
  {
    NumberInside(|a|, len, stride, n, j);
  }

  lemma NoZeroFactor(d: int, m: int)
    requires d * m == 0 && m > 0
    ensures d == 0
  {
    if d > 0 {
      MulMono(1, d, m);
    } else if d < 0 {
      MulMono(d, -1, m);
    }
  }
}
