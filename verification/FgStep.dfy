/** make_fg_step of keygen.c, which halves the degree of f and g by their norms. */
module FgStep {
  import opened Words
  import opened Congruence
  import opened Modp
  import opened ModpPowers
  import opened Twiddle
  import opened Ntt
  import opened NttLoops
  import opened Poly
  import opened PolyRing
  import opened Zint
  import opened ZintCrt
  import opened SubScaled
  import opened PolySubScaled
  import opened NormLift

  // ---------------------------------------------------------------------
  // Polynomials stored by residues
  // ---------------------------------------------------------------------

  /** The polynomial f modulo one prime, plain or in NTT representation with that prime's table. */
  ghost function Image(f: seq<int>, sp: SmallPrime, l: nat, ntt: bool): (r: seq<u32>)
    requires sp.p > 0 && l <= 10
    ensures |r| == |f|
  {
    if ntt then NTT(Residues(f, sp.p), l, Table(sp.p, sp.g, l), sp.p, NInv31(sp.p)) else Residues(f, sp.p)
  }

  /** Column u of a, one word every `len`, is the image of f modulo prime u. */
  ghost predicate ColumnIs(a: seq<u32>, len: nat, l: nat, ps: seq<SmallPrime>, f: seq<int>, u: nat, ntt: bool) {
    u < len && u < |ps| && ps[u].p > 0 && l <= 10 && |f| == Pow2(l) && Fits(|a|, u, len, Pow2(l)) &&
    View(a, u, len, Pow2(l)) == Image(f, ps[u], l, ntt)
  }

  /** Columns lo to hi - 1 hold f. */
  ghost predicate InColumns(a: seq<u32>, len: nat, l: nat, ps: seq<SmallPrime>, f: seq<int>, lo: nat, hi: nat, ntt: bool) {
    forall u :: lo <= u < hi ==> ColumnIs(a, len, l, ps, f, u, ntt)
  }

  lemma ColumnAt(a: seq<u32>, len: nat, l: nat, ps: seq<SmallPrime>, f: seq<int>, lo: nat, hi: nat, u: nat, ntt: bool)
    requires InColumns(a, len, l, ps, f, lo, hi, ntt) && lo <= u < hi
    ensures ColumnIs(a, len, l, ps, f, u, ntt)
  {
  }

  lemma ColumnParts(a: seq<u32>, len: nat, l: nat, ps: seq<SmallPrime>, f: seq<int>, u: nat, ntt: bool)
    requires ColumnIs(a, len, l, ps, f, u, ntt)
    ensures u < len && u < |ps| && ps[u].p > 0 && l <= 10 && |f| == Pow2(l) && Fits(|a|, u, len, Pow2(l))
    ensures View(a, u, len, Pow2(l)) == Image(f, ps[u], l, ntt)
  {
  }

  /** Writing one column leaves another one, of the same or of half the height, alone. */
  lemma ColumnKept(a: seq<u32>, b: seq<u32>, len: nat, l: nat, ps: seq<SmallPrime>, f: seq<int>, w: nat, ntt: bool, u: nat, n: nat)
    requires ColumnIs(b, len, l, ps, f, w, ntt) && u < len && u != w && SameElsewhere(a, b, u, len, n) && n >= Pow2(l)
    ensures ColumnIs(a, len, l, ps, f, w, ntt)
  {
    hide View, Image, Pow2, Fits;
    SameSize(a, b, u, len, n);
    KeptView(a, b, len, Pow2(l), n, u, w);
  }

  lemma KeptView(a: seq<u32>, b: seq<u32>, len: nat, h: nat, n: nat, u: nat, w: nat)
    requires u < len && w < len && u != w && Fits(|a|, w, len, h) && SameElsewhere(a, b, u, len, n)
    ensures |a| == |b| && View(a, w, len, h) == View(b, w, len, h)
  {
    hide Pos;
    forall j | 0 <= j < h
      ensures a[Pos(w, len, j)] == b[Pos(w, len, j)]
    {
      var q := Pos(w, len, j);
      if OnGrid(q, u, len, n) {
        var i :| 0 <= i < n && q == Pos(u, len, i);
        ColumnPosition(len, u, w, i, j);
      }
    }
  }

  lemma ColumnsKept(a: seq<u32>, b: seq<u32>, len: nat, l: nat, ps: seq<SmallPrime>, f: seq<int>, lo: nat, hi: nat, ntt: bool, u: nat, n: nat)
    requires InColumns(b, len, l, ps, f, lo, hi, ntt) && u < len && !(lo <= u < hi) && SameElsewhere(a, b, u, len, n) && n >= Pow2(l)
    ensures InColumns(a, len, l, ps, f, lo, hi, ntt)
  {
    hide ColumnIs, SameElsewhere, Pow2;
    forall w | lo <= w < hi
      ensures ColumnIs(a, len, l, ps, f, w, ntt)
    {
      ColumnKept(a, b, len, l, ps, f, w, ntt, u, n);
    }
  }

  /** One more column is in place. */
  lemma ColumnsGrow(a: seq<u32>, b: seq<u32>, len: nat, l: nat, ps: seq<SmallPrime>, f: seq<int>, u: nat, ntt: bool)
    requires InColumns(b, len, l, ps, f, 0, u, ntt) && ColumnIs(a, len, l, ps, f, u, ntt) && SameElsewhere(a, b, u, len, Pow2(l))
    ensures InColumns(a, len, l, ps, f, 0, u + 1, ntt)
  {
    hide SameElsewhere, Pow2, View, Image, Fits;
    forall w | 0 <= w < u + 1
      ensures ColumnIs(a, len, l, ps, f, w, ntt)
    {
      if w < u {
        ColumnKept(a, b, len, l, ps, f, w, ntt, u, Pow2(l));
      }
    }
  }

  /** The tables of one prime. */
  ghost predicate TablesFor(gm: seq<u32>, igm: seq<u32>, sp: SmallPrime, l: nat) {
    sp.p > 0 && l <= 10 && |gm| == |igm| == Pow2(l) && Field(sp.p, NInv31(sp.p)) && gm == Table(sp.p, sp.g, l) &&
    RootTree(gm, Pow2(l), sp.p, NInv31(sp.p)) && Inverses(gm, igm, Pow2(l), sp.p, NInv31(sp.p))
  }

  /** modp_ninv31 and modp_mkgm2 for one prime. */
  method PrimeTables(gm: array<u32>, igm: array<u32>, l: nat, sp: SmallPrime) returns (p0i: u32)
    requires l <= 10 && gm != igm && gm.Length == igm.Length == Pow2(l) && NttPrime(sp.p, sp.g)
    modifies gm, igm
    ensures p0i == NInv31(sp.p) && TablesFor(gm[..], igm[..], sp, l)
  {
    hide Pow2, Table, RootTree, Inverses, NInv31, NegInverse, Cong;
    NInv31Spec(sp.p);
    p0i := NInv31(sp.p);
    MkGm2(gm, igm, l, sp.g, sp.p, p0i);
    assert gm[..Pow2(l)] == gm[..];
  }

  /** Images at half the degree do not care which of the two tables is used. */
  lemma HalfImage(h: seq<int>, sp: SmallPrime, l: nat)
    requires sp.p > 0 && 1 <= l <= 10
    ensures NTT(Residues(h, sp.p), l - 1, Table(sp.p, sp.g, l), sp.p, NInv31(sp.p)) == Image(h, sp, l - 1, true)
  {
    hide NTT, Residues, NInv31, Pow2, Table;
    Pow2Half(l);
    var a, b := Table(sp.p, sp.g, l), Table(sp.p, sp.g, l - 1);
    forall k | 0 <= k < Pow2(l - 1)
      ensures a[k] == b[k]
    {
      TablePrefix(sp.p, sp.g, l, k);
    }
    assert a[..Pow2(l - 1)] == b[..Pow2(l - 1)];
    NTTPrefix(Residues(h, sp.p), l - 1, a, b, sp.p, NInv31(sp.p));
  }

  // ---------------------------------------------------------------------
  // One column of make_fg_step
  // ---------------------------------------------------------------------

  method CopyColumn(t: array<u32>, src: array<u32>, u: nat, len: nat)
    requires t != src && Fits(src.Length, u, len, t.Length)
    modifies t
    ensures t[..] == View(src[..], u, len, t.Length)
  {
    hide Fits, View;
    for v := 0 to t.Length
      invariant src[..] == old(src[..]) && t[..v] == View(src[..], u, len, t.Length)[..v]
    {
      t[v] := Load(src, u, len, t.Length, v);
    }
  }

  /** The norm of the polynomial in t1, into column u of fd. */
  method NormInto(t1: array<u32>, fd: array<u32>, u: nat, tlen: nat, gm: array<u32>, igm: array<u32>, l: nat, ps: seq<SmallPrime>, p0i: u32,
                  inNtt: bool, outNtt: bool, ghost f: seq<int>)
    requires 1 <= l <= 10 && |f| == Pow2(l) == t1.Length && u < tlen && u < |ps| && TablesFor(gm[..], igm[..], ps[u], l) && p0i == NInv31(ps[u].p)
    requires t1 != fd && t1 != gm && t1 != igm && fd != gm && fd != igm && fd.Length == Pow2(l - 1) * tlen
    requires t1[..] == Image(f, ps[u], l, inNtt) && InColumns(fd[..], tlen, l - 1, ps, Norm(f), 0, u, outNtt)
    modifies t1, fd
    ensures InColumns(fd[..], tlen, l - 1, ps, Norm(f), 0, u + 1, outNtt)
  {
    hide Fits, View, SameElsewhere, NTT, Residues, Norm, RootTree, Inverses, Field, Pow2, Table, NInv31, InColumns;
    ColumnFits(fd.Length, tlen, Pow2(l - 1), u);
    ghost var before: seq<u32> := fd[..];
    NormColumn(t1, fd, u, tlen, gm, igm, l, ps[u].p, p0i, inNtt, outNtt, f);
    HalfImage(Norm(f), ps[u], l);
    NormLength(f, l);
    assert ColumnIs(fd[..], tlen, l - 1, ps, Norm(f), u, outNtt);
    ColumnsGrow(fd[..], before, tlen, l - 1, ps, Norm(f), u, outNtt);
  }

  lemma NormLength(f: seq<int>, l: nat)
    requires l > 0 && |f| == Pow2(l)
    ensures |Norm(f)| == Pow2(l - 1)
  {
  }

  /** One of the first slen columns: the source column serves directly, and leaves the NTT domain. */
  method DirectColumn(fs: array<u32>, slen: nat, fd: array<u32>, tlen: nat, u: nat, t1: array<u32>, gm: array<u32>, igm: array<u32>,
                      l: nat, ps: seq<SmallPrime>, p0i: u32, inNtt: bool, outNtt: bool, ghost f: seq<int>)
    requires 1 <= l <= 10 && |f| == Pow2(l) == t1.Length && u < slen <= tlen && u < |ps|
    requires TablesFor(gm[..], igm[..], ps[u], l) && p0i == NInv31(ps[u].p)
    requires t1 != fd && t1 != gm && t1 != igm && fd != gm && fd != igm && fs != t1 && fs != fd && fs != gm && fs != igm
    requires fd.Length == Pow2(l - 1) * tlen
    requires InColumns(fs[..], slen, l, ps, f, 0, u, false) && InColumns(fs[..], slen, l, ps, f, u, slen, inNtt)
    requires InColumns(fd[..], tlen, l - 1, ps, Norm(f), 0, u, outNtt)
    modifies fs, fd, t1
    ensures InColumns(fs[..], slen, l, ps, f, 0, u + 1, false) && InColumns(fs[..], slen, l, ps, f, u + 1, slen, inNtt)
    ensures InColumns(fd[..], tlen, l - 1, ps, Norm(f), 0, u + 1, outNtt)
  {
    hide Fits, View, SameElsewhere, NTT, INTT, Residues, Norm, RootTree, Inverses, Field, Pow2, Table, NInv31, InColumns, Image, TablesFor, ColumnIs;
    ColumnAt(fs[..], slen, l, ps, f, u, slen, u, inNtt);
    ColumnParts(fs[..], slen, l, ps, f, u, inNtt);
    CopyColumn(t1, fs, u, slen);
    NormInto(t1, fd, u, tlen, gm, igm, l, ps, p0i, inNtt, outNtt, f);
    ghost var before: seq<u32> := fs[..];
    ColumnsSplit(before, slen, l, ps, f, u, slen, inNtt);
    if inNtt {
      LeaveNtt(fs[..], slen, l, ps, f, u, gm[..], igm[..]);
      INTT2Ext(fs, u, slen, igm, l, ps[u].p, p0i);
      assert ColumnIs(fs[..], slen, l, ps, f, u, false) by {
        PlainColumn(fs[..], before, slen, l, ps, f, u, igm[..]);
      }
      ColumnsGrow(fs[..], before, slen, l, ps, f, u, false);
      ColumnsKept(fs[..], before, slen, l, ps, f, u + 1, slen, true, u, Pow2(l));
    } else {
      ColumnsJoin(before, slen, l, ps, f, u);
    }
  }

  lemma ColumnsSplit(a: seq<u32>, len: nat, l: nat, ps: seq<SmallPrime>, f: seq<int>, u: nat, hi: nat, ntt: bool)
    requires InColumns(a, len, l, ps, f, u, hi, ntt) && u < hi
    ensures ColumnIs(a, len, l, ps, f, u, ntt) && InColumns(a, len, l, ps, f, u + 1, hi, ntt)
  {
    hide ColumnIs;
  }

  lemma ColumnsJoin(a: seq<u32>, len: nat, l: nat, ps: seq<SmallPrime>, f: seq<int>, u: nat)
    requires InColumns(a, len, l, ps, f, 0, u, false) && ColumnIs(a, len, l, ps, f, u, false)
    ensures InColumns(a, len, l, ps, f, 0, u + 1, false)
  {
    hide ColumnIs;
  }

  /** The facts that INTT2Ext needs. */
  lemma LeaveNtt(a: seq<u32>, len: nat, l: nat, ps: seq<SmallPrime>, f: seq<int>, u: nat, gm: seq<u32>, igm: seq<u32>)
    requires ColumnIs(a, len, l, ps, f, u, true) && TablesFor(gm, igm, ps[u], l)
    ensures Fits(|a|, u, len, Pow2(l)) && Pow2(l) <= |igm|
    ensures INTT(View(a, u, len, Pow2(l)), l, igm, ps[u].p, NInv31(ps[u].p)) == Residues(f, ps[u].p)
  {
    hide Fits, View, NTT, INTT, RootTree, Inverses, Field, Pow2, Table, NInv31;
    ResiduesBelow(f, ps[u].p);
    RoundTrip(Residues(f, ps[u].p), l, gm, igm, ps[u].p, NInv31(ps[u].p));
  }

  lemma ResiduesBelow(f: seq<int>, p: u32)
    requires p > 0
    ensures AllBelow(Residues(f, p), p)
  {
  }

  lemma PlainColumn(a: seq<u32>, b: seq<u32>, len: nat, l: nat, ps: seq<SmallPrime>, f: seq<int>, u: nat, igm: seq<u32>)
    requires ColumnIs(b, len, l, ps, f, u, true) && SameElsewhere(a, b, u, len, Pow2(l)) && Fits(|a|, u, len, Pow2(l))
    requires View(a, u, len, Pow2(l)) == INTT(View(b, u, len, Pow2(l)), l, igm, ps[u].p, NInv31(ps[u].p))
    requires INTT(View(b, u, len, Pow2(l)), l, igm, ps[u].p, NInv31(ps[u].p)) == Residues(f, ps[u].p)
    ensures ColumnIs(a, len, l, ps, f, u, false)
  {
    hide Fits, View, NTT, INTT, Residues, Pow2, Table, NInv31, SameElsewhere;
  }

  /** One of the remaining columns: the rebuilt integers are reduced modulo the prime. */
  method ReducedColumn(fs: array<u32>, slen: nat, fd: array<u32>, tlen: nat, u: nat, t1: array<u32>, gm: array<u32>, igm: array<u32>,
                       l: nat, ps: seq<SmallPrime>, p0i: u32, r2: u32, rx: u32, outNtt: bool, ghost f: seq<int>)
    requires 1 <= l <= 10 && |f| == Pow2(l) == t1.Length && u < tlen && u < |ps|
    requires TablesFor(gm[..], igm[..], ps[u], l) && p0i == NInv31(ps[u].p) && r2 == R2(ps[u].p, p0i)
    requires rx < ps[u].p && Cong(rx, Base(slen), ps[u].p)
    requires t1 != fd && t1 != gm && t1 != igm && fd != gm && fd != igm && fs != t1 && fs != fd
    requires fd.Length == Pow2(l - 1) * tlen && Holds(fs[..], slen, Pow2(l), f)
    requires InColumns(fd[..], tlen, l - 1, ps, Norm(f), 0, u, outNtt)
    modifies fd, t1
    ensures InColumns(fd[..], tlen, l - 1, ps, Norm(f), 0, u + 1, outNtt)
  {
    hide Fits, View, SameElsewhere, NTT, Residues, Norm, RootTree, Inverses, Field, Pow2, Table, NInv31, InColumns, TablesFor, R2, Cong, Base, Holds,
      Layout, AllDigits, Coefficients;
    HoldsParts(fs[..], slen, Pow2(l), f);
    TableParts(gm[..], igm[..], ps[u], l);
    WholeView(t1[..]);
    ReduceColumn(t1, 0, 1, Pow2(l), fs, slen, slen, ps[u].p, p0i, r2, rx);
    WholeView(t1[..]);
    NormInto(t1, fd, u, tlen, gm, igm, l, ps, p0i, false, outNtt, f);
  }

  lemma TableParts(gm: seq<u32>, igm: seq<u32>, sp: SmallPrime, l: nat)
    requires TablesFor(gm, igm, sp, l)
    ensures sp.p > 0 && Field(sp.p, NInv31(sp.p)) && |gm| == |igm| == Pow2(l)
  {
    hide RootTree, Inverses, Table, Field, NInv31, Pow2;
  }

  // ---------------------------------------------------------------------
  // make_fg_step
  // ---------------------------------------------------------------------

  /** The primes, and what the degree and the sizes have to be. */
  ghost predicate StepPrimes(ps: seq<SmallPrime>, len: nat) {
    CrtPrimes(ps, len) && forall u :: 0 <= u < len ==> NttPrime(ps[u].p, ps[u].g)
  }

  lemma StepPrime(ps: seq<SmallPrime>, len: nat, u: nat)
    requires StepPrimes(ps, len) && u < len
    ensures len <= |ps| && NttPrime(ps[u].p, ps[u].g)
  {
    hide NttPrime;
  }

  lemma FewerPrimes(ps: seq<SmallPrime>, len: nat, m: nat)
    requires StepPrimes(ps, len) && m <= len
    ensures CrtPrimes(ps, m) && len <= |ps|
  {
    hide NttPrime, CrtPrime;
  }

  /**
   * zint_rebuild_CRT on columns: they become the polynomial over the integers, one number for each
   * coefficient.
   */
  method RebuildColumns(fs: array<u32>, slen: nat, l: nat, ps: seq<SmallPrime>, ghost f: seq<int>)
    requires l <= 10 && slen >= 1 && |f| == Pow2(l) && fs.Length == Pow2(l) * slen && CrtPrimes(ps, slen)
    requires InColumns(fs[..], slen, l, ps, f, 0, slen, false) && CoefficientsFit(ps, slen, f)
    modifies fs
    ensures Holds(fs[..], slen, Pow2(l), f)
  {
    hide Layout, CrtPrimes, InColumns, CoefficientsFit, Number, Result, InRange, GapsKept, Digits, Prod, Pow2, Holds;
    var n := Pow2(l);
    ghost var start: seq<u32> := fs[..];
    ProductLayout(slen, n);
    CrtWidth(ps, slen);
    PlainColumns(start, slen, l, ps, f);
    forall j | 0 <= j < n
      ensures InRange(Number(start, slen, slen, j), ps)
    {
      ColumnsInRange(start, slen, n, f, ps, j);
    }
    var tmp := new u32[slen];
    RebuildCRT(fs, slen, slen, n, ps, true, tmp);
    CollectProduct(fs[..], start, slen, n, f, ps);
  }

  lemma PlainColumns(a: seq<u32>, len: nat, l: nat, ps: seq<SmallPrime>, f: seq<int>)
    requires InColumns(a, len, l, ps, f, 0, len, false) && len >= 1 && len <= |ps| && |f| == Pow2(l)
    ensures ColumnsDone(a, len, Pow2(l), f, ps, len)
  {
    hide View, Fits, Residues, Pow2;
    forall u | 0 <= u < len
      ensures ps[u].p > 0 && Fits(|a|, u, len, Pow2(l)) && View(a, u, len, Pow2(l)) == Residues(f, ps[u].p)
    {
      ColumnParts(a, len, l, ps, f, u, false);
    }
  }

  /**
   * make_fg_step: from the residues of f and g modulo slen primes, in either domain, to those of their
   * norms modulo tlen primes, in either domain, and f and g themselves rebuilt.
   */
  method MakeFgStep(fs: array<u32>, gs: array<u32>, slen: nat, fd: array<u32>, gd: array<u32>, tlen: nat, l: nat, ps: seq<SmallPrime>,
                    inNtt: bool, outNtt: bool, ghost f: seq<int>, ghost g: seq<int>)
    requires 1 <= l <= 10 && 1 <= slen <= tlen && slen <= B31 && |f| == |g| == Pow2(l)
    requires fs != fd && fs != gs && fs != gd && gs != fd && gs != gd && fd != gd && StepPrimes(ps, tlen)
    requires fs.Length == gs.Length == Pow2(l) * slen && fd.Length == gd.Length == Pow2(l - 1) * tlen
    requires InColumns(fs[..], slen, l, ps, f, 0, slen, inNtt) && CoefficientsFit(ps, slen, f)
    requires InColumns(gs[..], slen, l, ps, g, 0, slen, inNtt) && CoefficientsFit(ps, slen, g)
    modifies fs, gs, fd, gd
    ensures Holds(fs[..], slen, Pow2(l), f) && Holds(gs[..], slen, Pow2(l), g)
    ensures InColumns(fd[..], tlen, l - 1, ps, Norm(f), 0, tlen, outNtt)
    ensures InColumns(gd[..], tlen, l - 1, ps, Norm(g), 0, tlen, outNtt)
  {
    hide Norm, Pow2, Table, NInv31, InColumns, TablesFor, R2, Cong, Base, Holds, StepPrimes, CrtPrimes, CoefficientsFit, NttPrime, RootTree, Inverses, Pow;
    var n := Pow2(l);
    var gm, igm, t1 := new u32[n], new u32[n], new u32[n];
    FewerPrimes(ps, tlen, slen);
    NoColumns(fs[..], slen, l, ps, f, fd[..], tlen, Norm(f), outNtt);
    NoColumns(gs[..], slen, l, ps, g, gd[..], tlen, Norm(g), outNtt);
    var u := 0;
    while u < slen
      invariant u <= slen
      invariant InColumns(fs[..], slen, l, ps, f, 0, u, false) && InColumns(fs[..], slen, l, ps, f, u, slen, inNtt)
      invariant InColumns(gs[..], slen, l, ps, g, 0, u, false) && InColumns(gs[..], slen, l, ps, g, u, slen, inNtt)
      invariant InColumns(fd[..], tlen, l - 1, ps, Norm(f), 0, u, outNtt)
      invariant InColumns(gd[..], tlen, l - 1, ps, Norm(g), 0, u, outNtt)
    {
      StepPrime(ps, tlen, u);
      var p0i := PrimeTables(gm, igm, l, ps[u]);
      DirectColumn(fs, slen, fd, tlen, u, t1, gm, igm, l, ps, p0i, inNtt, outNtt, f);
      DirectColumn(gs, slen, gd, tlen, u, t1, gm, igm, l, ps, p0i, inNtt, outNtt, g);
      u := u + 1;
    }
    RebuildColumns(fs, slen, l, ps, f);
    RebuildColumns(gs, slen, l, ps, g);
    while u < tlen
      invariant slen <= u <= tlen && Holds(fs[..], slen, n, f) && Holds(gs[..], slen, n, g)
      invariant InColumns(fd[..], tlen, l - 1, ps, Norm(f), 0, u, outNtt)
      invariant InColumns(gd[..], tlen, l - 1, ps, Norm(g), 0, u, outNtt)
    {
      StepPrime(ps, tlen, u);
      var p0i := PrimeTables(gm, igm, l, ps[u]);
      TableParts(gm[..], igm[..], ps[u], l);
      var r2 := R2(ps[u].p, p0i);
      var rx := Rx(slen, ps[u].p, p0i, r2);
      RxIsBase(rx, slen, ps[u].p);
      ReducedColumn(fs, slen, fd, tlen, u, t1, gm, igm, l, ps, p0i, r2, rx, outNtt, f);
      ReducedColumn(gs, slen, gd, tlen, u, t1, gm, igm, l, ps, p0i, r2, rx, outNtt, g);
      u := u + 1;
    }
  }

  lemma NoColumns(a: seq<u32>, len: nat, l: nat, ps: seq<SmallPrime>, f: seq<int>, b: seq<u32>, tlen: nat, g: seq<int>, ntt: bool)
    requires l >= 1
    ensures InColumns(a, len, l, ps, f, 0, 0, false) && InColumns(b, tlen, l - 1, ps, g, 0, 0, ntt)
  {
  }
}
