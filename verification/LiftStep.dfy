/** The lift of solve_NTRU_intermediate in keygen.c, from reducing F' and G' to rebuilding F and G. */
module LiftStep {
  import opened Words
  import opened Congruence
  import opened Modp
  import opened ModpPowers
  import opened Twiddle
  import opened Ntt
  import opened NttLoops
  import opened Poly
  import opened PolyRing
  import opened Zint
  import opened ZintCrt
  import opened SubScaled
  import opened PolySubScaled
  import opened NormLift
  import opened FgStep

  /** f is available: as NTT columns from u on (and plain ones before), or, from prime slen on, as integers. */
  ghost predicate Available(ft: seq<u32>, slen: nat, l: nat, ps: seq<SmallPrime>, f: seq<int>, u: nat) {
    if u <= slen then InColumns(ft, slen, l, ps, f, 0, u, false) && InColumns(ft, slen, l, ps, f, u, slen, true)
    else Holds(ft, slen, Pow2(l), f)
  }

  lemma NextDirect(ft: seq<u32>, slen: nat, l: nat, ps: seq<SmallPrime>, f: seq<int>, u: nat)
    requires u < slen && InColumns(ft, slen, l, ps, f, 0, u + 1, false) && InColumns(ft, slen, l, ps, f, u + 1, slen, true)
    ensures Available(ft, slen, l, ps, f, u + 1)
  {
    hide InColumns, Holds;
  }

  lemma NextRebuilt(ft: seq<u32>, slen: nat, l: nat, ps: seq<SmallPrime>, f: seq<int>, u: nat)
    requires u >= slen && Holds(ft, slen, Pow2(l), f)
    ensures Available(ft, slen, l, ps, f, u + 1)
  {
    hide InColumns, Holds, Pow2;
  }

  lemma DirectNow(ft: seq<u32>, slen: nat, l: nat, ps: seq<SmallPrime>, f: seq<int>, u: nat)
    requires Available(ft, slen, l, ps, f, u)
    ensures u <= slen ==> InColumns(ft, slen, l, ps, f, 0, u, false) && InColumns(ft, slen, l, ps, f, u, slen, true)
    ensures u > slen ==> Holds(ft, slen, Pow2(l), f)
  {
    hide InColumns, Holds, Pow2;
  }

  /** When the first slen primes are done, f is rebuilt. */
  method RebuildWhenDue(ft: array<u32>, slen: nat, l: nat, ps: seq<SmallPrime>, u: nat, ghost f: seq<int>)
    requires l <= 10 && slen >= 1 && |f| == Pow2(l) && ft.Length == Pow2(l) * slen && CrtPrimes(ps, slen)
    requires Available(ft[..], slen, l, ps, f, u) && CoefficientsFit(ps, slen, f)
    modifies ft
    ensures u < slen ==> Available(ft[..], slen, l, ps, f, u)
    ensures u >= slen ==> Holds(ft[..], slen, Pow2(l), f)
  {
    hide InColumns, Holds, Pow2, CrtPrimes, CoefficientsFit, Available;
    DirectNow(ft[..], slen, l, ps, f, u);
    if u == slen {
      RebuildColumns(ft, slen, l, ps, f);
    }
  }

  /** The image of f modulo prime u, in NTT representation. */
  method ImageOf(fx: array<u32>, ft: array<u32>, slen: nat, l: nat, ps: seq<SmallPrime>, u: nat, gm: array<u32>, igm: array<u32>,
                 p0i: u32, r2: u32, ghost f: seq<int>)
    requires 1 <= l <= 10 && 1 <= slen <= B31 && |f| == Pow2(l) == fx.Length && u < |ps|
    requires TablesFor(gm[..], igm[..], ps[u], l) && p0i == NInv31(ps[u].p) && r2 == R2(ps[u].p, p0i)
    requires fx != ft && fx != gm && fx != igm && ft != gm && ft != igm
    requires u < slen ==> Available(ft[..], slen, l, ps, f, u)
    requires u >= slen ==> Holds(ft[..], slen, Pow2(l), f)
    modifies fx, ft
    ensures ps[u].p > 0 && fx[..] == Image(f, ps[u], l, true) && Available(ft[..], slen, l, ps, f, u + 1)
  {
    hide Fits, View, SameElsewhere, NTT, INTT, Residues, RootTree, Inverses, Field, Pow2, Table, NInv31, InColumns, TablesFor, R2, Cong, Base,
      Holds, Layout, AllDigits, Coefficients, Available, Pow, ColumnIs;
    TableParts(gm[..], igm[..], ps[u], l);
    if u < slen {
      DirectNow(ft[..], slen, l, ps, f, u);
      ColumnAt(ft[..], slen, l, ps, f, u, slen, u, true);
      ColumnParts(ft[..], slen, l, ps, f, u, true);
      CopyColumn(fx, ft, u, slen);
      ghost var before: seq<u32> := ft[..];
      ColumnsSplit(before, slen, l, ps, f, u, slen, true);
      LeaveNtt(ft[..], slen, l, ps, f, u, gm[..], igm[..]);
      INTT2Ext(ft, u, slen, igm, l, ps[u].p, p0i);
      PlainColumn(ft[..], before, slen, l, ps, f, u, igm[..]);
      ColumnsGrow(ft[..], before, slen, l, ps, f, u, false);
      ColumnsKept(ft[..], before, slen, l, ps, f, u + 1, slen, true, u, Pow2(l));
      NextDirect(ft[..], slen, l, ps, f, u);
    } else {
      var rx := Rx(slen, ps[u].p, p0i, r2);
      RxIsBase(rx, slen, ps[u].p);
      HoldsParts(ft[..], slen, Pow2(l), f);
      WholeView(fx[..]);
      ReduceColumn(fx, 0, 1, Pow2(l), ft, slen, slen, ps[u].p, p0i, r2, rx);
      WholeView(fx[..]);
      NTT2Ext(fx, 0, 1, gm, l, ps[u].p, p0i);
      WholeView(fx[..]);
      TableIs(gm[..], igm[..], ps[u], l);
      NextRebuilt(ft[..], slen, l, ps, f, u);
    }
  }

  lemma TableIs(gm: seq<u32>, igm: seq<u32>, sp: SmallPrime, l: nat)
    requires TablesFor(gm, igm, sp, l)
    ensures l <= 10 && sp.p > 0 && gm == Table(sp.p, sp.g, l)
  {
    hide RootTree, Inverses, Table, Field, NInv31, Pow2;
  }

  /** F' modulo every prime, one column each. */
  method ReduceAll(Ft: array<u32>, llen: nat, Fd: array<u32>, dlen: nat, l: nat, ps: seq<SmallPrime>, ghost F': seq<int>)
    requires 1 <= l <= 10 && 1 <= dlen <= B31 && |F'| == Pow2(l - 1) && Ft != Fd && Ft.Length == Pow2(l) * llen
    requires StepPrimes(ps, llen) && Holds(Fd[..], dlen, Pow2(l - 1), F')
    modifies Ft
    ensures InColumns(Ft[..], llen, l - 1, ps, F', 0, llen, false)
  {
    hide Fits, View, SameElsewhere, Residues, Field, Pow2, NInv31, InColumns, R2, Cong, Base, Holds, Layout, AllDigits, Coefficients, Pow, StepPrimes,
      NttPrime, NegInverse;
    var hn := Pow2(l - 1);
    HoldsParts(Fd[..], dlen, hn, F');
    NoColumns(Ft[..], llen, l, ps, F', Ft[..], llen, F', false);
    var u := 0;
    while u < llen
      invariant u <= llen && InColumns(Ft[..], llen, l - 1, ps, F', 0, u, false)
    {
      StepPrime(ps, llen, u);
      FieldOf(ps[u].p, ps[u].g);
      var p0i: u32 := NInv31(ps[u].p);
      var r2 := R2(ps[u].p, p0i);
      var rx := Rx(dlen, ps[u].p, p0i, r2);
      RxIsBase(rx, dlen, ps[u].p);
      HalfColumnFits(Ft.Length, llen, l, u);
      ghost var before: seq<u32> := Ft[..];
      ReduceColumn(Ft, u, llen, hn, Fd, dlen, dlen, ps[u].p, p0i, r2, rx);
      assert ColumnIs(Ft[..], llen, l - 1, ps, F', u, false);
      ColumnsGrow(Ft[..], before, llen, l - 1, ps, F', u, false);
      u := u + 1;
    }
  }

  lemma FieldOf(p: u32, g: u32)
    requires NttPrime(p, g)
    ensures p > 0 && Field(p, NInv31(p))
  {
    hide NInv31, NegInverse, Cong;
    NInv31Spec(p);
  }

  lemma HalfColumnFits(len: nat, llen: nat, l: nat, u: nat)
    requires l >= 1 && u < llen && len == Pow2(l) * llen
    ensures Fits(len, u, llen, Pow2(l)) && Fits(len, u, llen, Pow2(l - 1))
  {
    hide Fits, Pow2;
    Pow2Half(l);
    ColumnFits(len, llen, Pow2(l), u);
    FitsFewer(len, u, llen, Pow2(l - 1), Pow2(l));
  }

  lemma FitsFewer(len: nat, off: nat, stride: nat, h: nat, n: nat)
    requires Fits(len, off, stride, n) && h <= n
    ensures Fits(len, off, stride, h)
  {
  }

  /** One polynomial lifted by one prime: column u goes from F' to F'(X^2) * g(-X). */
  method LiftInto(Ft: array<u32>, llen: nat, l: nat, ps: seq<SmallPrime>, u: nat, gx: array<u32>, Fp: array<u32>, gm: array<u32>, igm: array<u32>,
                  p0i: u32, ghost g: seq<int>, ghost F': seq<int>)
    requires 1 <= l <= 10 && |g| == Pow2(l) == gx.Length && |F'| == Pow2(l - 1) == Fp.Length && u < llen && u < |ps|
    requires Ft.Length == Pow2(l) * llen && TablesFor(gm[..], igm[..], ps[u], l) && p0i == NInv31(ps[u].p)
    requires gx != Ft && Fp != Ft && Fp != gm && Ft != gm && Ft != igm && gx != Fp && Fp != igm
    requires ps[u].p > 0 && gx[..] == Image(g, ps[u], l, true)
    requires InColumns(Ft[..], llen, l, ps, Lift(F', g), 0, u, false) && InColumns(Ft[..], llen, l - 1, ps, F', u, llen, false)
    modifies Ft, Fp
    ensures InColumns(Ft[..], llen, l, ps, Lift(F', g), 0, u + 1, false) && InColumns(Ft[..], llen, l - 1, ps, F', u + 1, llen, false)
  {
    hide Fits, View, SameElsewhere, NTT, Residues, Lift, RootTree, Inverses, Field, Pow2, Table, NInv31, InColumns, TablesFor, ColumnIs;
    TableParts(gm[..], igm[..], ps[u], l);
    TableIs(gm[..], igm[..], ps[u], l);
    TableTree(gm[..], igm[..], ps[u], l);
    ColumnsSplit(Ft[..], llen, l - 1, ps, F', u, llen, false);
    ColumnParts(Ft[..], llen, l - 1, ps, F', u, false);
    CopyColumn(Fp, Ft, u, llen);
    HalfColumnFits(Ft.Length, llen, l, u);
    ghost var before: seq<u32> := Ft[..];
    LiftColumn(gx, Fp, Ft, u, llen, gm, igm, l, ps[u].p, p0i, g, F');
    LiftLength(F', g, l);
    LiftedColumn(Ft[..], llen, l, ps, Lift(F', g), u);
    ColumnsGrow(Ft[..], before, llen, l, ps, Lift(F', g), u, false);
    Pow2Half(l);
    ColumnsKept(Ft[..], before, llen, l - 1, ps, F', u + 1, llen, false, u, Pow2(l));
  }

  lemma TableTree(gm: seq<u32>, igm: seq<u32>, sp: SmallPrime, l: nat)
    requires TablesFor(gm, igm, sp, l)
    ensures RootTree(gm, Pow2(l), sp.p, NInv31(sp.p)) && Inverses(gm, igm, Pow2(l), sp.p, NInv31(sp.p))
  {
    hide RootTree, Inverses, Table, Field, NInv31, Pow2;
  }

  lemma LiftLength(F': seq<int>, g: seq<int>, l: nat)
    requires l >= 1 && |g| == Pow2(l) && |F'| == Pow2(l - 1)
    ensures |g| == 2 * |F'| && |Lift(F', g)| == Pow2(l)
  {
    Pow2Half(l);
  }

  lemma LiftedColumn(a: seq<u32>, len: nat, l: nat, ps: seq<SmallPrime>, h: seq<int>, u: nat)
    requires u < len && u < |ps| && ps[u].p > 0 && l <= 10 && |h| == Pow2(l) && Fits(|a|, u, len, Pow2(l))
    requires View(a, u, len, Pow2(l)) == Residues(h, ps[u].p)
    ensures ColumnIs(a, len, l, ps, h, u, false)
  {
    hide Fits, View, Residues, Pow2;
  }

  lemma AvailableAtStart(ft: seq<u32>, slen: nat, l: nat, ps: seq<SmallPrime>, f: seq<int>)
    requires InColumns(ft, slen, l, ps, f, 0, slen, true)
    ensures Available(ft, slen, l, ps, f, 0)
  {
    hide ColumnIs;
  }

  lemma LiftStart(Ft: seq<u32>, llen: nat, l: nat, ps: seq<SmallPrime>, h: seq<int>)
    ensures InColumns(Ft, llen, l, ps, h, 0, 0, false)
  {
  }

  /**
   * The lift: from f and g in NTT columns, and from integers F' and G' of half the degree, to the
   * integers F = F'(X^2)g(-X) and G = G'(X^2)f(-X). If F' and G' solve the equation for the norms of
   * f and g, then F and G solve it for f and g.
   */
  method LiftSolution(Ft: array<u32>, Gt: array<u32>, llen: nat, ft: array<u32>, gt: array<u32>, slen: nat,
                      Fd: array<u32>, Gd: array<u32>, dlen: nat, l: nat, ps: seq<SmallPrime>,
                      ghost f: seq<int>, ghost g: seq<int>, ghost F': seq<int>, ghost G': seq<int>, ghost q: int)
    requires 1 <= l <= 10 && 1 <= slen < llen && slen <= B31 && 1 <= dlen <= B31 && StepPrimes(ps, llen)
    requires |f| == |g| == Pow2(l) && |F'| == |G'| == Pow2(l - 1)
    requires Ft.Length == Gt.Length == Pow2(l) * llen && ft.Length == gt.Length == Pow2(l) * slen
    requires Ft != Gt && Ft != ft && Ft != gt && Ft != Fd && Ft != Gd && Gt != ft && Gt != gt && Gt != Fd && Gt != Gd && ft != gt
    requires InColumns(ft[..], slen, l, ps, f, 0, slen, true) && CoefficientsFit(ps, slen, f)
    requires InColumns(gt[..], slen, l, ps, g, 0, slen, true) && CoefficientsFit(ps, slen, g)
    requires Holds(Fd[..], dlen, Pow2(l - 1), F') && Holds(Gd[..], dlen, Pow2(l - 1), G')
    requires LiftFits(ps, llen, f, g, F', G', l)
    modifies Ft, Gt, ft, gt
    ensures Holds(ft[..], slen, Pow2(l), f) && Holds(gt[..], slen, Pow2(l), g)
    ensures Rebuilt(Ft[..], Gt[..], llen, l, f, g, F', G')
    ensures SolvesHalf(f, g, F', G', q, l) ==> SolvesFull(f, g, Ft[..], Gt[..], llen, q, l)
  {
    hide Pow2, InColumns, TablesFor, R2, Holds, StepPrimes, CrtPrimes, CoefficientsFit, NttPrime, RootTree, Inverses, Available, Lift, Image, NInv31, LiftFits,
      Rebuilt, SolvesHalf, SolvesFull;
    var n, hn := Pow2(l), Pow2(l - 1);
    var gm, igm, fx, gx, Fp, Gp := new u32[n], new u32[n], new u32[n], new u32[n], new u32[hn], new u32[hn];
    FewerPrimes(ps, llen, slen);
    FewerPrimes(ps, llen, llen);
    LiftFitsParts(ps, llen, f, g, F', G', l);
    ReduceAll(Ft, llen, Fd, dlen, l, ps, F');
    ReduceAll(Gt, llen, Gd, dlen, l, ps, G');
    AvailableAtStart(ft[..], slen, l, ps, f);
    AvailableAtStart(gt[..], slen, l, ps, g);
    LiftStart(Ft[..], llen, l, ps, Lift(F', g));
    LiftStart(Gt[..], llen, l, ps, Lift(G', f));
    var u := 0;
    while u < llen
      invariant u <= llen && Available(ft[..], slen, l, ps, f, u) && Available(gt[..], slen, l, ps, g, u)
      invariant InColumns(Ft[..], llen, l, ps, Lift(F', g), 0, u, false) && InColumns(Ft[..], llen, l - 1, ps, F', u, llen, false)
      invariant InColumns(Gt[..], llen, l, ps, Lift(G', f), 0, u, false) && InColumns(Gt[..], llen, l - 1, ps, G', u, llen, false)
    {
      StepPrime(ps, llen, u);
      RebuildWhenDue(ft, slen, l, ps, u, f);
      RebuildWhenDue(gt, slen, l, ps, u, g);
      var p0i := PrimeTables(gm, igm, l, ps[u]);
      TableParts(gm[..], igm[..], ps[u], l);
      var r2: u32 := R2(ps[u].p, p0i);
      ImageOf(fx, ft, slen, l, ps, u, gm, igm, p0i, r2, f);
      ImageOf(gx, gt, slen, l, ps, u, gm, igm, p0i, r2, g);
      LiftInto(Ft, llen, l, ps, u, gx, Fp, gm, igm, p0i, g, F');
      LiftInto(Gt, llen, l, ps, u, fx, Gp, gm, igm, p0i, f, G');
      u := u + 1;
    }
    DirectNow(ft[..], slen, l, ps, f, u);
    DirectNow(gt[..], slen, l, ps, g, u);
    RebuildColumns(Ft, llen, l, ps, Lift(F', g));
    RebuildColumns(Gt, llen, l, ps, Lift(G', f));
    LiftResult(Ft[..], Gt[..], llen, l, f, g, F', G', q);
  }

  /** The lifted polynomials are below half the product of the primes. */
  ghost predicate LiftFits(ps: seq<SmallPrime>, llen: nat, f: seq<int>, g: seq<int>, F': seq<int>, G': seq<int>, l: nat) {
    l >= 1 && |f| == |g| == Pow2(l) && |F'| == |G'| == Pow2(l - 1) && |g| == 2 * |F'| &&
    CoefficientsFit(ps, llen, Lift(F', g)) && CoefficientsFit(ps, llen, Lift(G', f))
  }

  lemma LiftFitsParts(ps: seq<SmallPrime>, llen: nat, f: seq<int>, g: seq<int>, F': seq<int>, G': seq<int>, l: nat)
    requires LiftFits(ps, llen, f, g, F', G', l)
    ensures |g| == |f| == 2 * |F'| == 2 * |G'| && |Lift(F', g)| == |Lift(G', f)| == Pow2(l)
    ensures CoefficientsFit(ps, llen, Lift(F', g)) && CoefficientsFit(ps, llen, Lift(G', f))
  {
    hide Lift, CoefficientsFit, Pow2;
    LiftLength(F', g, l);
    LiftLength(G', f, l);
  }

  ghost predicate Rebuilt(Ft: seq<u32>, Gt: seq<u32>, llen: nat, l: nat, f: seq<int>, g: seq<int>, F': seq<int>, G': seq<int>) {
    |f| == |g| == 2 * |F'| && |F'| == |G'| && Holds(Ft, llen, Pow2(l), Lift(F', g)) && Holds(Gt, llen, Pow2(l), Lift(G', f))
  }

  /** f'G' - g'F' = q at half the degree, for the norms f' and g'. */
  ghost predicate SolvesHalf(f: seq<int>, g: seq<int>, F': seq<int>, G': seq<int>, q: int, l: nat) {
    l >= 1 && |f| == |g| == 2 * |F'| && |F'| == |G'| == Pow2(l - 1) && Determinant(Norm(f), Norm(g), F', G') == Const(q, |F'|)
  }

  /** fG - gF = q at the full degree, for the stored integers F and G. */
  ghost predicate SolvesFull(f: seq<int>, g: seq<int>, Ft: seq<u32>, Gt: seq<u32>, llen: nat, q: int, l: nat) {
    var n := Pow2(l);
    |f| == |g| == n && Layout(|Ft|, llen, llen, n) && Layout(|Gt|, llen, llen, n) &&
    Determinant(f, g, Coefficients(Ft, llen, llen, n), Coefficients(Gt, llen, llen, n)) == Const(q, n)
  }

  lemma LiftResult(Ft: seq<u32>, Gt: seq<u32>, llen: nat, l: nat, f: seq<int>, g: seq<int>, F': seq<int>, G': seq<int>, q: int)
    requires l >= 1 && |f| == |g| == Pow2(l) == 2 * |F'| && |F'| == |G'| > 0
    requires Holds(Ft, llen, Pow2(l), Lift(F', g)) && Holds(Gt, llen, Pow2(l), Lift(G', f))
    ensures Rebuilt(Ft, Gt, llen, l, f, g, F', G')
    ensures SolvesHalf(f, g, F', G', q, l) ==> SolvesFull(f, g, Ft, Gt, llen, q, l)
  {
    hide Holds, Lift, Norm, Determinant, Coefficients, Layout, Pow2;
    HoldsParts(Ft, llen, Pow2(l), Lift(F', g));
    HoldsParts(Gt, llen, Pow2(l), Lift(G', f));
    if SolvesHalf(f, g, F', G', q, l) {
      LiftKeepsEquation(f, g, F', G', q);
    }
  }
}
