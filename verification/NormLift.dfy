/** Going down and up one degree in the NTRU solver: make_fg_step and the lift loop. */
module NormLift {
  import opened Words
  import opened Congruence
  import opened Modp
  import opened ModpPowers
  import opened Twiddle
  import opened Ntt
  import opened NttLoops
  import opened Poly
  import opened PolyRing

  // ---------------------------------------------------------------------
  // The equation over the integers
  // ---------------------------------------------------------------------

  /** fG - gF. */
  ghost function Determinant(f: seq<int>, g: seq<int>, F: seq<int>, G: seq<int>): seq<int>
    requires |f| == |g| == |F| == |G|
  {
    PSub(NegaMul(f, G), NegaMul(g, F))
  }

  /** F = F'(X^2) * g(-X), and G likewise from G' and f. */
  ghost function Lift(h': seq<int>, g: seq<int>): (r: seq<int>)
    ensures |r| == 2 * |h'|
  {
    NegaMul(Conj(g), Spread(h'))
  }

  lemma LiftProduct(f: seq<int>, h': seq<int>)
    requires |f| == 2 * |h'| > 0
    ensures NegaMul(f, Lift(h', f)) == Spread(NegaMul(Norm(f), h'))
  {
    hide NegaMul, Norm, Conj, Spread;
    var s := Spread(h');
    Commute(Conj(f), s);
    LeftCommute(f, s, Conj(f));
    NormIsProduct(f);
    SpreadMul(Norm(f), h');
    Commute(s, Spread(Norm(f)));
  }

  /** A solution for the norms at half the degree lifts to a solution at the full degree. */
  lemma LiftKeepsEquation(f: seq<int>, g: seq<int>, F': seq<int>, G': seq<int>, q: int)
    requires |f| == |g| == 2 * |F'| && |F'| == |G'| > 0
    requires Determinant(Norm(f), Norm(g), F', G') == Const(q, |F'|)
    ensures Determinant(f, g, Lift(F', g), Lift(G', f)) == Const(q, |f|)
  {
    hide NegaMul, Norm, Spread, Lift, Const;
    LiftProduct(f, G');
    LiftProduct(g, F');
    SpreadLinear(NegaMul(Norm(f), G'), NegaMul(Norm(g), F'), 0);
    SpreadConst(q, |F'|);
  }

  lemma SpreadConst(q: int, n: nat)
    requires n > 0
    ensures Spread(Const(q, n)) == Const(q, 2 * n)
  {
    var a, b := Spread(Const(q, n)), Const(q, 2 * n);
    forall i | 0 <= i < 2 * n
      ensures a[i] == b[i]
    {
      HalfIndex(i);
    }
  }

  // ---------------------------------------------------------------------
  // Values at a point and at its opposite
  // ---------------------------------------------------------------------

  lemma {:induction false} EvalConj(f: seq<int>, x: int)
    ensures Eval(Conj(f), x) == Eval(f, 0 - x)
    ensures Eval(Negate(Conj(f)), x) == 0 - Eval(f, 0 - x)
    decreases |f|
  {
    if |f| > 0 {
      var t := f[1..];
      EvalConj(t, x);
      ConjTail(f);
      var e := Eval(t, 0 - x);
      assert (0 - x) * e == 0 - x * e && x * (0 - e) == 0 - x * e;
    }
  }

  ghost function Negate(f: seq<int>): (r: seq<int>)
    ensures |r| == |f|
  {
    seq(|f|, i requires 0 <= i < |f| => 0 - f[i])
  }

  lemma ConjTail(f: seq<int>)
    requires |f| > 0
    ensures Conj(f)[0] == f[0] && Conj(f)[1..] == Negate(Conj(f[1..]))
    ensures Negate(Conj(f))[0] == 0 - f[0] && Negate(Conj(f))[1..] == Conj(f[1..])
  {
    forall i | 0 <= i < |f| - 1
      ensures Conj(f)[1..][i] == 0 - Conj(f[1..])[i] && Negate(Conj(f))[1..][i] == Conj(f[1..])[i]
    {
      NextParity(i);
    }
  }

  lemma NextParity(i: nat)
    ensures (i + 1) % 2 == 0 <==> i % 2 == 1
  {
  }

  lemma {:induction false} EvalSpread(h: seq<int>, x: int)
    ensures Eval(Spread(h), x) == Eval(h, x * x)
    decreases |h|
  {
    if |h| > 0 {
      EvalSpread(h[1..], x);
      SpreadFirst(h);
      var s, e := Spread(h[1..]), Eval(h[1..], x * x);
      assert Spread(h)[1..] == [0] + s && ([0] + s)[1..] == s;
      assert Eval([0] + s, x) == 0 + x * e;
      assert x * (x * e) == (x * x) * e by { MulAssoc(x, x, e); }
    }
  }

  /** The norm at x^2 is f(x)*f(-x), for every x that satisfies x^N = -1. */
  lemma NormValue(f: seq<int>, x: int, p: int)
    requires |f| > 0 && |f| % 2 == 0 && IsRoot(x, |f|, p)
    ensures Cong(Eval(Norm(f), x * x), Eval(f, x) * Eval(f, 0 - x), p)
  {
    hide Cong, IsRoot, NegaMul, Norm, Spread, Conj, Eval;
    NormIsProduct(f);
    EvalSpread(Norm(f), x);
    EvalConj(f, x);
    EvalNegaMul(f, Conj(f), x, p);
  }

  // ---------------------------------------------------------------------
  // Consecutive slots are opposite points
  // ---------------------------------------------------------------------

  lemma SlotPoints(gm: seq<u32>, logn: nat, v: nat, p: u32, p0i: u32)
    requires logn > 0 && v < Pow2(logn - 1)
    ensures var s := Root(gm, Pow2(logn - 1) + v, p, p0i);
      Point(gm, logn, 2 * v, p, p0i) == s && Point(gm, logn, 2 * v + 1, p, p0i) == 0 - s &&
      Point(gm, logn - 1, v, p, p0i) == NodeVal(gm, Pow2(logn - 1) + v, p, p0i)
  {
    hide Root, Pow2;
    Pow2Half(logn);
    var m := Pow2(logn - 1);
    PointIs(gm, logn, 2 * v, p, p0i);
    PointIs(gm, logn, 2 * v + 1, p, p0i);
    PointIs(gm, logn - 1, v, p, p0i);
    NodePair(gm, m + v, p, p0i);
    assert Pow2(logn) + 2 * v == 2 * (m + v) && Pow2(logn) + (2 * v + 1) == 2 * (m + v) + 1;
  }

  lemma PointIs(gm: seq<u32>, logn: nat, j: nat, p: u32, p0i: u32)
    ensures Point(gm, logn, j, p, p0i) == NodeVal(gm, Pow2(logn) + j, p, p0i)
  {
    hide NodeVal, Pow2;
    assert 1 * Pow2(logn) + j == Pow2(logn) + j;
  }

  lemma NodePair(gm: seq<u32>, k: nat, p: u32, p0i: u32)
    requires k > 0
    ensures NodeVal(gm, 2 * k, p, p0i) == Root(gm, k, p, p0i) && NodeVal(gm, 2 * k + 1, p, p0i) == 0 - Root(gm, k, p, p0i)
  {
    hide Root;
  }

  lemma HalfTree(gm: seq<u32>, logn: nat, p: u32, p0i: u32)
    requires logn > 0 && RootTree(gm, Pow2(logn), p, p0i)
    ensures RootTree(gm, Pow2(logn - 1), p, p0i)
  {
    hide Cong, Root, NodeVal;
  }

  lemma HalfInverses(gm: seq<u32>, igm: seq<u32>, logn: nat, p: u32, p0i: u32)
    requires logn > 0 && Inverses(gm, igm, Pow2(logn), p, p0i)
    ensures Inverses(gm, igm, Pow2(logn - 1), p, p0i)
  {
    hide Cong, Root;
  }

  /** The square of the point of slot 2v is the point of slot v at half the degree. */
  lemma SquarePoint(gm: seq<u32>, logn: nat, v: nat, p: u32, p0i: u32)
    requires logn > 0 && v < Pow2(logn - 1) && RootTree(gm, Pow2(logn), p, p0i)
    ensures var s := Point(gm, logn, 2 * v, p, p0i);
      Point(gm, logn, 2 * v + 1, p, p0i) == 0 - s && Cong(s * s, Point(gm, logn - 1, v, p, p0i), p)
  {
    hide Cong, Root, NodeVal, Point;
    Pow2Half(logn);
    SlotPoints(gm, logn, v, p, p0i);
    var k := Pow2(logn - 1) + v;
    assert Cong(Root(gm, k, p, p0i) * Root(gm, k, p, p0i), NodeVal(gm, k, p, p0i), p);
  }

  /** Congruent points give congruent values. */
  lemma {:induction false} EvalPoint(f: seq<int>, x: int, y: int, p: int)
    requires p > 0 && Cong(x, y, p)
    ensures Cong(Eval(f, x), Eval(f, y), p)
    decreases |f|
  {
    hide Cong;
    if |f| == 0 {
      CongRefl(0, p);
    } else {
      EvalPoint(f[1..], x, y, p);
      CongMul(x, y, Eval(f[1..], x), Eval(f[1..], y), p);
      CongRefl(f[0], p);
      CongAdd(f[0], f[0], x * Eval(f[1..], x), y * Eval(f[1..], y), p);
    }
  }

  // ---------------------------------------------------------------------
  // make_fg_step on one prime
  // ---------------------------------------------------------------------

  ghost function NormSlots(a: seq<u32>, p: u32, p0i: u32): (r: seq<u32>)
    ensures |r| == |a| / 2
  {
    seq(|a| / 2, v requires 0 <= v < |a| / 2 => SlotMul(a[2 * v], a[2 * v + 1], p, p0i))
  }

  lemma NormSlot(f: seq<int>, logn: nat, gm: seq<u32>, v: nat, p: u32, p0i: u32)
    requires Field(p, p0i) && RootTree(gm, Pow2(logn), p, p0i) && p > 0
    requires logn > 0 && |f| == Pow2(logn) && v < Pow2(logn - 1)
    ensures |f| == 2 * Pow2(logn - 1)
    ensures SlotMul(NTT(Residues(f, p), logn, gm, p, p0i)[2 * v], NTT(Residues(f, p), logn, gm, p, p0i)[2 * v + 1], p, p0i)
         == NTT(Residues(Norm(f), p), logn - 1, gm, p, p0i)[v]
  {
    hide Cong, NTT, Point, RootTree, Residues, Norm, Field, SlotMul, IsRoot, Eval, Pow2;
    Pow2Half(logn);
    HalfTree(gm, logn, p, p0i);
    var s, y := Point(gm, logn, 2 * v, p, p0i), Point(gm, logn - 1, v, p, p0i);
    SquarePoint(gm, logn, v, p, p0i);
    ResiduesEvaluate(f, logn, gm, 2 * v, p, p0i);
    ResiduesEvaluate(f, logn, gm, 2 * v + 1, p, p0i);
    ResiduesEvaluate(Norm(f), logn - 1, gm, v, p, p0i);
    var a: u32 := NTT(Residues(f, p), logn, gm, p, p0i)[2 * v];
    var b: u32 := NTT(Residues(f, p), logn, gm, p, p0i)[2 * v + 1];
    var c: u32 := NTT(Residues(Norm(f), p), logn - 1, gm, p, p0i)[v];
    NormValue(f, s, p);
    EvalPoint(Norm(f), s * s, y, p);
    SlotMulSpec(a, b, p, p0i);
    MeetProducts(a, b, c, SlotMul(a, b, p, p0i), Eval(f, s), Eval(f, 0 - s), Eval(Norm(f), s * s), Eval(Norm(f), y), p);
  }

  lemma MeetProducts(a: int, b: int, c: int, m: int, ea: int, eb: int, e2: int, ey: int, p: int)
    requires p > 0 && 0 <= m < p && 0 <= c < p
    requires Cong(a, ea, p) && Cong(b, eb, p) && Cong(m, a * b, p)
    requires Cong(c, ey, p) && Cong(e2, ea * eb, p) && Cong(e2, ey, p)
    ensures m == c
  {
    hide Cong;
    CongMul(a, ea, b, eb, p);
    CongTrans(m, a * b, ea * eb, p);
    CongSym(e2, ea * eb, p);
    CongTrans(m, ea * eb, e2, p);
    CongTrans(m, e2, ey, p);
    CongSym(c, ey, p);
    CongTrans(m, ey, c, p);
    CongUnique(m, c, p);
  }

  /** Multiplying consecutive slots of the transform of f gives the transform of its norm. */
  lemma NormThroughNTT(f: seq<int>, logn: nat, gm: seq<u32>, p: u32, p0i: u32)
    requires Field(p, p0i) && RootTree(gm, Pow2(logn), p, p0i) && p > 0 && logn > 0 && |f| == Pow2(logn)
    ensures NormSlots(NTT(Residues(f, p), logn, gm, p, p0i), p, p0i) == NTT(Residues(Norm(f), p), logn - 1, gm, p, p0i)
  {
    hide NTT, RootTree, Residues, Norm, Field, SlotMul, Pow2;
    Pow2Half(logn);
    forall v | 0 <= v < |f| / 2
      ensures NormSlots(NTT(Residues(f, p), logn, gm, p, p0i), p, p0i)[v]
           == NTT(Residues(Norm(f), p), logn - 1, gm, p, p0i)[v]
    {
      NormSlot(f, logn, gm, v, p, p0i);
    }
  }

  /** The loop over pairs of slots. */
  method NormLoop(t1: array<u32>, fd: array<u32>, off: nat, stride: nat, hn: nat, p: u32, p0i: u32)
    requires t1 != fd && t1.Length == 2 * hn && Fits(fd.Length, off, stride, hn)
    modifies fd
    ensures View(fd[..], off, stride, hn) == NormSlots(t1[..], p, p0i)
    ensures SameElsewhere(fd[..], old(fd[..]), off, stride, hn)
  {
    hide Fits, View, SameElsewhere, MontyMul, R2, SlotMul, NormSlots;
    ghost var r: seq<u32> := NormSlots(t1[..], p, p0i);
    ghost var w: seq<u32> := View(fd[..], off, stride, hn);
    SameRefl(fd[..], off, stride, hn);
    assert r[..0] + w[0..] == w;
    for v := 0 to hn
      invariant View(fd[..], off, stride, hn) == r[..v] + w[v..] && t1[..] == old(t1[..])
      invariant SameElsewhere(fd[..], old(fd[..]), off, stride, hn)
    {
      NormSlotAt(t1[..], v, p, p0i);
      PrefixAt(r, w, v);
      ghost var h0: seq<u32> := fd[..];
      Store(fd, off, stride, hn, v, SlotMul(t1[2 * v], t1[2 * v + 1], p, p0i));
      SameTrans(fd[..], h0, old(fd[..]), off, stride, hn);
    }
    assert r[..hn] + w[hn..] == r;
  }

  lemma NormSlotAt(a: seq<u32>, v: nat, p: u32, p0i: u32)
    requires v < |a| / 2
    ensures NormSlots(a, p, p0i)[v] == SlotMul(a[2 * v], a[2 * v + 1], p, p0i)
  {
    hide SlotMul;
  }

  /**
   * One column of make_fg_step: t1 holds f modulo p, in NTT form or not; the column of the
   * output receives the norm of f modulo p, in NTT form or not.
   */
  method NormColumn(t1: array<u32>, fd: array<u32>, off: nat, stride: nat, gm: array<u32>, igm: array<u32>, logn: nat,
                    p: u32, p0i: u32, inNtt: bool, outNtt: bool, ghost f: seq<int>)
    requires 1 <= logn <= 10 && Field(p, p0i) && p > 0 && |f| == Pow2(logn) == t1.Length
    requires t1 != fd && t1 != gm && t1 != igm && fd != gm && fd != igm && Fits(fd.Length, off, stride, Pow2(logn - 1))
    requires gm.Length >= Pow2(logn) && igm.Length >= Pow2(logn)
    requires RootTree(gm[..], Pow2(logn), p, p0i) && Inverses(gm[..], igm[..], Pow2(logn), p, p0i)
    requires t1[..] == if inNtt then NTT(Residues(f, p), logn, gm[..], p, p0i) else Residues(f, p)
    modifies t1, fd
    ensures View(fd[..], off, stride, Pow2(logn - 1))
      == if outNtt then NTT(Residues(Norm(f), p), logn - 1, gm[..], p, p0i) else Residues(Norm(f), p)
    ensures SameElsewhere(fd[..], old(fd[..]), off, stride, Pow2(logn - 1))
  {
    hide Fits, View, SameElsewhere, NTT, INTT, Residues, Norm, RootTree, Inverses, Field, Pow2, NormSlots;
    Pow2Half(logn);
    HalfTree(gm[..], logn, p, p0i);
    HalfInverses(gm[..], igm[..], logn, p, p0i);
    if !inNtt {
      UnitFits(t1[..]);
      NTT2Ext(t1, 0, 1, gm, logn, p, p0i);
      UnitFits(t1[..]);
    }
    NormThroughNTT(f, logn, gm[..], p, p0i);
    NormLoop(t1, fd, off, stride, Pow2(logn - 1), p, p0i);
    if !outNtt {
      ghost var h0: seq<u32> := fd[..];
      RoundTrip(Residues(Norm(f), p), logn - 1, gm[..], igm[..], p, p0i);
      INTT2Ext(fd, off, stride, igm, logn - 1, p, p0i);
      SameTrans(fd[..], h0, old(fd[..]), off, stride, Pow2(logn - 1));
    }
  }

  lemma UnitFits(a: seq<u32>)
    ensures Fits(|a|, 0, 1, |a|) && View(a, 0, 1, |a|) == a
  {
    assert forall i: nat :: Pos(0, 1, i) == i;
  }

  // ---------------------------------------------------------------------
  // The lift on one prime
  // ---------------------------------------------------------------------

  /** Slots 2v and 2v+1 of the lift: each takes the other slot of g, times slot v of F'. */
  ghost function LiftSlots(gx: seq<u32>, fp: seq<u32>, p: u32, p0i: u32): (r: seq<u32>)
    requires |gx| == 2 * |fp|
    ensures |r| == |gx|
  {
    seq(|gx|, i requires 0 <= i < |gx| => LiftSlot(gx, fp, i, p, p0i))
  }

  function LiftSlot(gx: seq<u32>, fp: seq<u32>, i: nat, p: u32, p0i: u32): u32
    requires |gx| == 2 * |fp| && i < |gx|
  {
    MontyMul(gx[Partner(i)], MontyMul(fp[i / 2], R2(p, p0i), p, p0i), p, p0i)
  }

  function Partner(i: nat): (j: nat)
    ensures forall n :: i < 2 * n ==> j < 2 * n
  {
    if i % 2 == 0 then i + 1 else i - 1
  }

  lemma LiftSlotSpec(x: u32, y: u32, p: u32, p0i: u32)
    requires Field(p, p0i) && x < p && y < p
    ensures MontyMul(y, R2(p, p0i), p, p0i) < p
    ensures var m := MontyMul(x, MontyMul(y, R2(p, p0i), p, p0i), p, p0i); m < p && Cong(m, x * y, p)
  {
    hide Cong, MontyMul, R2, NegInverse;
    R2Spec(p, p0i);
    var e: u32 := MontyMul(y, R2(p, p0i), p, p0i);
    RepMulMixed(y, R2(p, p0i), B31, p, p0i);
    RepMulMixed(x, e, y, p, p0i);
  }

  lemma LiftSlotValue(g: seq<int>, h': seq<int>, logn: nat, gm: seq<u32>, i: nat, p: u32, p0i: u32)
    requires Field(p, p0i) && RootTree(gm, Pow2(logn), p, p0i) && p > 0
    requires logn > 0 && |g| == Pow2(logn) && |h'| == Pow2(logn - 1) && i < Pow2(logn)
    ensures |g| == 2 * |h'|
    ensures LiftSlot(NTT(Residues(g, p), logn, gm, p, p0i), NTT(Residues(h', p), logn - 1, gm, p, p0i), i, p, p0i)
         == NTT(Residues(Lift(h', g), p), logn, gm, p, p0i)[i]
  {
    hide Cong, NTT, Point, RootTree, Residues, Field, MontyMul, IsRoot, Eval, Pow2, Conj, Spread, NegaMul, R2;
    Pow2Half(logn);
    HalfTree(gm, logn, p, p0i);
    HalfIndex(i);
    var v := i / 2;
    var x, y := Point(gm, logn, i, p, p0i), Point(gm, logn - 1, v, p, p0i);
    SquarePoint(gm, logn, v, p, p0i);
    assert Point(gm, logn, Partner(i), p, p0i) == 0 - x && Cong(x * x, y, p) by {
      assert i == 2 * v || i == 2 * v + 1;
      var s := Point(gm, logn, 2 * v, p, p0i);
      assert (0 - s) * (0 - s) == s * s;
    }
    ResiduesEvaluate(g, logn, gm, Partner(i), p, p0i);
    ResiduesEvaluate(h', logn - 1, gm, v, p, p0i);
    ResiduesEvaluate(Lift(h', g), logn, gm, i, p, p0i);
    EvalNegaMul(Conj(g), Spread(h'), x, p);
    EvalConj(g, x);
    EvalSpread(h', x);
    EvalPoint(h', x * x, y, p);
    var a: u32 := NTT(Residues(g, p), logn, gm, p, p0i)[Partner(i)];
    var b: u32 := NTT(Residues(h', p), logn - 1, gm, p, p0i)[v];
    var c: u32 := NTT(Residues(Lift(h', g), p), logn, gm, p, p0i)[i];
    LiftSlotSpec(a, b, p, p0i);
    var m: u32 := MontyMul(a, MontyMul(b, R2(p, p0i), p, p0i), p, p0i);
    var e := Eval(h', x * x);
    CongSym(e, Eval(h', y), p);
    CongTrans(b, Eval(h', y), e, p);
    CongRefl(Eval(Lift(h', g), x), p);
    MeetProducts(a, b, c, m, Eval(g, 0 - x), e, Eval(Lift(h', g), x), Eval(Lift(h', g), x), p);
  }

  /** The slot formula of the lift loop computes the transform of the lifted polynomial. */
  lemma LiftThroughNTT(g: seq<int>, h': seq<int>, logn: nat, gm: seq<u32>, p: u32, p0i: u32)
    requires Field(p, p0i) && RootTree(gm, Pow2(logn), p, p0i) && p > 0
    requires logn > 0 && |g| == Pow2(logn) && |h'| == Pow2(logn - 1)
    ensures |g| == 2 * |h'|
    ensures LiftSlots(NTT(Residues(g, p), logn, gm, p, p0i), NTT(Residues(h', p), logn - 1, gm, p, p0i), p, p0i)
         == NTT(Residues(Lift(h', g), p), logn, gm, p, p0i)
  {
    hide NTT, RootTree, Residues, Lift, Field, LiftSlot, Pow2;
    Pow2Half(logn);
    forall i | 0 <= i < |g|
      ensures LiftSlot(NTT(Residues(g, p), logn, gm, p, p0i), NTT(Residues(h', p), logn - 1, gm, p, p0i), i, p, p0i)
           == NTT(Residues(Lift(h', g), p), logn, gm, p, p0i)[i]
    {
      LiftSlotValue(g, h', logn, gm, i, p, p0i);
    }
  }

  /** The loop body pair x[0], x[llen]. */
  method LiftLoop(gx: array<u32>, fp: array<u32>, ft: array<u32>, off: nat, stride: nat, hn: nat, p: u32, p0i: u32)
    requires gx != ft && fp != ft && gx.Length == 2 * hn && fp.Length == hn && Fits(ft.Length, off, stride, 2 * hn)
    modifies ft
    ensures View(ft[..], off, stride, 2 * hn) == LiftSlots(gx[..], fp[..], p, p0i)
    ensures SameElsewhere(ft[..], old(ft[..]), off, stride, 2 * hn)
  {
    hide Fits, View, SameElsewhere, MontyMul, R2, LiftSlots;
    ghost var r: seq<u32> := LiftSlots(gx[..], fp[..], p, p0i);
    ghost var w: seq<u32> := View(ft[..], off, stride, 2 * hn);
    SameRefl(ft[..], off, stride, 2 * hn);
    assert r[..0] + w[0..] == w;
    for v := 0 to hn
      invariant View(ft[..], off, stride, 2 * hn) == r[..2 * v] + w[2 * v..] && gx[..] == old(gx[..]) && fp[..] == old(fp[..])
      invariant SameElsewhere(ft[..], old(ft[..]), off, stride, 2 * hn)
    {
      LiftSlotAt(gx[..], fp[..], v, p, p0i);
      PrefixPair(r, w, 2 * v);
      var mFp: u32 := MontyMul(fp[v], R2(p, p0i), p, p0i);
      ghost var h0: seq<u32> := ft[..];
      StorePair(ft, off, stride, 2 * hn, 2 * v, 2 * v + 1, MontyMul(gx[2 * v + 1], mFp, p, p0i), MontyMul(gx[2 * v], mFp, p, p0i));
      SameTrans(ft[..], h0, old(ft[..]), off, stride, 2 * hn);
    }
    assert r[..2 * hn] + w[2 * hn..] == r;
  }

  lemma LiftSlotAt(gx: seq<u32>, fp: seq<u32>, v: nat, p: u32, p0i: u32)
    requires |gx| == 2 * |fp| && v < |fp|
    ensures var r := LiftSlots(gx, fp, p, p0i); var m := MontyMul(fp[v], R2(p, p0i), p, p0i);
      r[2 * v] == MontyMul(gx[2 * v + 1], m, p, p0i) && r[2 * v + 1] == MontyMul(gx[2 * v], m, p, p0i)
  {
    hide MontyMul, R2;
    assert (2 * v) / 2 == v && (2 * v + 1) / 2 == v && (2 * v) % 2 == 0 && (2 * v + 1) % 2 == 1;
  }

  lemma PrefixPair(r: seq<u32>, w: seq<u32>, k: nat)
    requires |r| == |w| && k + 1 < |r|
    ensures (r[..k] + w[k..])[k := r[k]][k + 1 := r[k + 1]] == r[..k + 2] + w[k + 2..]
  {
  }

  /** One column of the lift: from f and G' (or g and F') modulo p to the lifted polynomial modulo p. */
  method LiftColumn(gx: array<u32>, fp: array<u32>, ft: array<u32>, off: nat, stride: nat, gm: array<u32>, igm: array<u32>,
                    logn: nat, p: u32, p0i: u32, ghost g: seq<int>, ghost h': seq<int>)
    requires 1 <= logn <= 10 && Field(p, p0i) && p > 0 && |g| == Pow2(logn) == gx.Length && |h'| == Pow2(logn - 1) == fp.Length
    requires gx != ft && fp != ft && fp != gm && ft != gm && ft != igm && Fits(ft.Length, off, stride, Pow2(logn))
    requires gm.Length >= Pow2(logn) && igm.Length >= Pow2(logn) && gx != fp && fp != igm
    requires RootTree(gm[..], Pow2(logn), p, p0i) && Inverses(gm[..], igm[..], Pow2(logn), p, p0i)
    requires gx[..] == NTT(Residues(g, p), logn, gm[..], p, p0i) && fp[..] == Residues(h', p)
    modifies fp, ft
    ensures View(ft[..], off, stride, Pow2(logn)) == Residues(Lift(h', g), p)
    ensures SameElsewhere(ft[..], old(ft[..]), off, stride, Pow2(logn))
  {
    hide Fits, View, SameElsewhere, NTT, INTT, Residues, Lift, RootTree, Inverses, Field, Pow2, LiftSlots;
    Pow2Half(logn);
    UnitFits(fp[..]);
    NTT2Ext(fp, 0, 1, gm, logn - 1, p, p0i);
    UnitFits(fp[..]);
    LiftThroughNTT(g, h', logn, gm[..], p, p0i);
    LiftLoop(gx, fp, ft, off, stride, Pow2(logn - 1), p, p0i);
    ghost var h0: seq<u32> := ft[..];
    RoundTrip(Residues(Lift(h', g), p), logn, gm[..], igm[..], p, p0i);
    INTT2Ext(ft, off, stride, igm, logn, p, p0i);
    SameTrans(ft[..], h0, old(ft[..]), off, stride, Pow2(logn));
  }
}
