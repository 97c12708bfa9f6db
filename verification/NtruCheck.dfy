/** The last part of solve_NTRU: range check on F and G, then the NTRU equation itself. */
module NtruCheck {
  import opened Words
  import opened Congruence
  import opened Modp
  import opened ModpPowers
  import opened Twiddle
  import opened Ntt
  import opened NttLoops
  import opened Poly
  import opened Zint

  const Q: u32 := 12289

  /** PRIMES[0]. */
  const P0: u32 := 2147473409
  const G0: u32 := 383167813

  type i8 = x: int | -128 <= x < 128

  /** fG - gF = q in Z[X]/(X^N + 1). */
  ghost predicate NtruEquation(f: seq<int>, g: seq<int>, F: seq<int>, G: seq<int>)
    requires |f| == |g| == |F| == |G| > 0
  {
    PSub(NegaMul(f, G), NegaMul(g, F)) == Const(Q, |f|)
  }

  /** zint_one_to_plain: a 31-bit two's complement word as an int32_t. */
  function OneToPlain(w: u32): int {
    var v := if (w / 0x4000_0000) % 2 == 1 && w < B31 then w + B31 else w;
    if v < B31 then v else v - B32
  }

  /** That integer is the value of the word as a big integer of one word. */
  lemma OneWord(w: u32)
    requires w < B31
    ensures OneToPlain(w) == SVal([w])
  {
    assert [w][1..] == [];
    assert Val([w]) == w + B31 * Val([]) == w;
    assert Base(0) == 1;
    assert Base(1) == B31 * Base(0) == B31;
    hide Val, Base;
    if w >= B31 / 2 {
      assert (w / 0x4000_0000) % 2 == 1;
    } else {
      assert w / 0x4000_0000 == 0;
    }
  }

  lemma OneWordAt(s: seq<u32>, u: nat)
    requires Digits(s) && u < |s|
    ensures OneToPlain(s[u]) == SignedWords(s)[u]
  {
    hide OneToPlain, SVal;
    OneWord(s[u]);
  }

  /** The values of words that each are a signed big integer. */
  ghost function SignedWords(s: seq<u32>): (r: seq<int>)
    ensures |r| == |s|
  {
    seq(|s|, i requires 0 <= i < |s| => SVal([s[i]]))
  }

  /** poly_big_to_small. */
  method BigToSmall(d: array<i8>, s: array<u32>, off: nat, lim: nat, logn: nat) returns (ok: bool)
    requires lim <= 127 && d.Length == Pow2(logn) && off + Pow2(logn) <= s.Length && Digits(s[off..off + Pow2(logn)])
    modifies d
    ensures ok <==> Within(SignedWords(s[off..off + Pow2(logn)]), lim)
    ensures ok ==> d[..] == SignedWords(s[off..off + Pow2(logn)])
  {
    hide OneToPlain, Pow2, SVal, Val;
    var n := Pow2(logn);
    ghost var z := SignedWords(s[off..off + n]);
    for u := 0 to n
      invariant forall i :: 0 <= i < u ==> 0 - lim <= z[i] <= lim && d[i] == z[i]
    {
      OneWordAt(s[off..off + n], u);
      var x := OneToPlain(s[off + u]);
      assert x == z[u];
      if x < 0 - lim || x > lim {
        return false;
      }
      d[u] := x;
    }
    assert forall i :: 0 <= i < n ==> d[..][i] == z[i];
    ok := true;
  }

  lemma Pow1024(g: int)
    ensures Pow(g, 1024) == Pow(Pow(Pow(Pow(Pow(g, 4), 4), 4), 4), 4)
  {
    PowMul(Pow(Pow(Pow(g, 4), 4), 4), 4, 4);
    PowMul(Pow(Pow(g, 4), 4), 4, 16);
    PowMul(Pow(g, 4), 4, 64);
    PowMul(g, 4, 256);
  }

  lemma FourthPower(x: int, y: int, z: int, g: int, p: int)
    requires Cong(g, x, p) && Cong(x * x, y, p) && Cong(y * y, z, p)
    ensures Cong(Pow(g, 4), z, p)
  {
    assert Pow(g, 4) == (g * g) * (g * g) by {
      assert Pow(g, 2) == g * Pow(g, 1) == g * g;
      PowAdd(g, 2, 2);
    }
    hide Cong, Pow;
    CongMul(g, x, g, x, p);
    CongTrans(g * g, x * x, y, p);
    CongMul(g * g, y, g * g, y, p);
    CongTrans(Pow(g, 4), y * y, z, p);
  }

  /** The first table entry really is a modulus with a 2048th root of unity. */
  lemma FirstPrime()
    ensures NttPrime(P0, G0)
  {
    var p := P0;
    CongRefl(G0, p);
    var g1, g2, g3, g4 := Pow(G0, 4), Pow(Pow(G0, 4), 4), Pow(Pow(Pow(G0, 4), 4), 4), Pow(Pow(Pow(Pow(G0, 4), 4), 4), 4);
    FourthPower(G0, 2094155704, 1759521232, G0, p);
    FourthPower(1759521232, 151851426, 1221036673, g1, p);
    FourthPower(1221036673, 1276384561, 2027081968, g2, p);
    FourthPower(2027081968, 21133924, 486666911, g3, p);
    FourthPower(486666911, 1044177596, 2147473408, g4, p);
    Pow1024(G0);
    ByQuotient(2147473408, -1, p, 1);
    CongTrans(Pow(G0, 1024), 2147473408, -1, p);
  }

  /** Reduces x modulo p and transforms it. */
  method SmallNtt(x: array<i8>, gm: array<u32>, logn: nat, p: u32, p0i: u32) returns (t: array<u32>)
    requires Modulus(p) && x.Length == Pow2(logn) && gm.Length >= Pow2(logn)
    ensures fresh(t) && t[..] == NTT(Residues(x[..], p), logn, gm[..], p, p0i)
  {
    hide Set, Pow2, NTT;
    var n := Pow2(logn);
    t := new u32[n];
    for u := 0 to n
      invariant forall i :: 0 <= i < u ==> t[i] == Residue(x[i], p)
    {
      SetSpec(x[u], p);
      t[u] := Set(x[u], p);
    }
    assert t[..] == Residues(x[..], p);
    UnitView(t[..]);
    NTT2Ext(t, 0, 1, gm, logn, p, p0i);
    UnitView(t[..]);
  }

  lemma UnitView(a: seq<u32>)
    ensures Fits(|a|, 0, 1, |a|) && View(a, 0, 1, |a|) == a
  {
    assert forall i: nat :: Pos(0, 1, i) == i;
  }

  /** One slot of the final comparison. */
  function SlotDiff(a: u32, b: u32, c: u32, d: u32, p: u32, p0i: u32): u32 {
    Sub(MontyMul(a, b, p, p0i), MontyMul(c, d, p, p0i), p)
  }

  lemma SlotDiffSpec(a: u32, b: u32, c: u32, d: u32, p: u32, p0i: u32)
    requires Field(p, p0i) && a < p && b < p && c < p && d < p
    ensures SlotDiff(a, b, c, d, p, p0i) == MontyMul(Q, 1, p, p0i) <==> Cong(a * b - c * d, Q, p)
  {
    hide Cong, MontyMul, Sub, NegInverse;
    ProductFits(a, b, p);
    ProductFits(c, d, p);
    ProductFits(Q, 1, p);
    MontyMulSpec(a, b, p, p0i);
    MontyMulSpec(c, d, p, p0i);
    MontyMulSpec(Q, 1, p, p0i);
    var x: u32, y: u32, r: u32 := MontyMul(a, b, p, p0i), MontyMul(c, d, p, p0i), MontyMul(Q, 1, p, p0i);
    SubSpec(x, y, p);
    var z: u32 := Sub(x, y, p);
    CongScale(z, x - y, B31, p);
    CongSub(B31 * x, a * b, B31 * y, c * d, p);
    assert B31 * (x - y) == B31 * x - B31 * y;
    CongTrans(B31 * z, B31 * (x - y), a * b - c * d, p);
    if z == r {
      CongSym(B31 * z, a * b - c * d, p);
      CongTrans(a * b - c * d, B31 * z, Q * 1, p);
    }
    if Cong(a * b - c * d, Q, p) {
      CongTrans(B31 * z, a * b - c * d, Q, p);
      CongSym(B31 * r, Q, p);
      CongTrans(B31 * z, Q, B31 * r, p);
      CancelR(z, r, p, p0i);
      CongUnique(z, r, p);
    }
  }

  /** A product of two slots is the value of the product polynomial. */
  lemma SlotOfNegaMul(f: seq<int>, g: seq<int>, logn: nat, gm: seq<u32>, j: nat, p: u32, p0i: u32)
    requires Field(p, p0i) && RootTree(gm, Pow2(logn), p, p0i) && p > 0 && j < Pow2(logn)
    requires |f| == |g| == Pow2(logn)
    ensures var a := NTT(Residues(f, p), logn, gm, p, p0i)[j]; var b := NTT(Residues(g, p), logn, gm, p, p0i)[j];
      a < p && b < p && Cong(a * b, Eval(NegaMul(f, g), Point(gm, logn, j, p, p0i)), p)
  {
    hide Cong, NTT, Point, RootTree, Residues, NegaMul, Field, IsRoot, Eval, Pow2;
    var x := Point(gm, logn, j, p, p0i);
    ResiduesEvaluate(f, logn, gm, j, p, p0i);
    ResiduesEvaluate(g, logn, gm, j, p, p0i);
    EvalNegaMul(f, g, x, p);
    var a: int, b: int := NTT(Residues(f, p), logn, gm, p, p0i)[j], NTT(Residues(g, p), logn, gm, p, p0i)[j];
    CongMul(a, Eval(f, x), b, Eval(g, x), p);
    CongSym(Eval(NegaMul(f, g), x), Eval(f, x) * Eval(g, x), p);
    CongTrans(a * b, Eval(f, x) * Eval(g, x), Eval(NegaMul(f, g), x), p);
  }

  ghost function Defect(f: seq<int>, g: seq<int>, F: seq<int>, G: seq<int>): (d: seq<int>)
    requires |f| == |g| == |F| == |G| > 0
    ensures |d| == |f|
  {
    PSub(PSub(NegaMul(f, G), NegaMul(g, F)), Const(Q, |f|))
  }

  lemma EvalDefect(f: seq<int>, g: seq<int>, F: seq<int>, G: seq<int>, x: int)
    requires |f| == |g| == |F| == |G| > 0
    ensures Eval(Defect(f, g, F, G), x) == Eval(NegaMul(f, G), x) - Eval(NegaMul(g, F), x) - Q
  {
    hide NegaMul, Eval, PSub, Const;
    EvalAdd(NegaMul(f, G), NegaMul(g, F), x);
    EvalAdd(PSub(NegaMul(f, G), NegaMul(g, F)), Const(Q, |f|), x);
    EvalConst(Q, |f|, x);
  }

  /** The test that solve_NTRU applies to slot j. */
  ghost predicate SlotTest(f: seq<int>, g: seq<int>, F: seq<int>, G: seq<int>, logn: nat, gm: seq<u32>, j: nat, p: u32, p0i: u32)
    requires p > 0 && |f| == |g| == |F| == |G| == Pow2(logn) && j < Pow2(logn)
  {
    SlotDiff(NTT(Residues(f, p), logn, gm, p, p0i)[j], NTT(Residues(G, p), logn, gm, p, p0i)[j],
             NTT(Residues(g, p), logn, gm, p, p0i)[j], NTT(Residues(F, p), logn, gm, p, p0i)[j], p, p0i)
      == MontyMul(Q, 1, p, p0i)
  }

  /** What a slot of the comparison says about the polynomials. */
  lemma SlotMeaning(f: seq<int>, g: seq<int>, F: seq<int>, G: seq<int>, logn: nat, gm: seq<u32>, j: nat, p: u32, p0i: u32)
    requires Field(p, p0i) && RootTree(gm, Pow2(logn), p, p0i) && p > 0 && j < Pow2(logn)
    requires |f| == |g| == |F| == |G| == Pow2(logn)
    ensures SlotTest(f, g, F, G, logn, gm, j, p, p0i)
       <==> Cong(Eval(Defect(f, g, F, G), Point(gm, logn, j, p, p0i)), 0, p)
  {
    hide Cong, NTT, Point, RootTree, Residues, NegaMul, Field, SlotDiff, MontyMul, IsRoot, Eval, Pow2, Defect;
    var x := Point(gm, logn, j, p, p0i);
    SlotOfNegaMul(f, G, logn, gm, j, p, p0i);
    SlotOfNegaMul(g, F, logn, gm, j, p, p0i);
    EvalDefect(f, g, F, G, x);
    var a: u32, b: u32 := NTT(Residues(f, p), logn, gm, p, p0i)[j], NTT(Residues(G, p), logn, gm, p, p0i)[j];
    var c: u32, d: u32 := NTT(Residues(g, p), logn, gm, p, p0i)[j], NTT(Residues(F, p), logn, gm, p, p0i)[j];
    SlotDiffSpec(a, b, c, d, p, p0i);
    var u, v := Eval(NegaMul(f, G), x), Eval(NegaMul(g, F), x);
    CongSub(a * b, u, c * d, v, p);
    ShiftCong(a * b - c * d, u - v, Q, p);
  }

  lemma ShiftCong(m: int, e: int, q: int, p: int)
    requires Cong(m, e, p)
    ensures Cong(m, q, p) <==> Cong(e - q, 0, p)
  {
    CongPositive(m, e, p);
    hide Cong;
    CongRefl(q, p);
    if Cong(m, q, p) {
      CongSym(m, e, p);
      CongTrans(e, m, q, p);
      CongSub(e, q, q, q, p);
    }
    if Cong(e - q, 0, p) {
      CongAdd(e - q, 0, q, q, p);
      CongTrans(m, e, q, p);
    }
  }

  lemma DefectBound(f: seq<int>, g: seq<int>, F: seq<int>, G: seq<int>, logn: nat)
    requires logn <= 10 && |f| == |g| == |F| == |G| == Pow2(logn)
    requires Within(f, 128) && Within(g, 128) && Within(F, 128) && Within(G, 128)
    ensures Within(Defect(f, g, F, G), 0x0300_0000)
  {
    hide NegaMul, Within, Pow2, Const, PSub;
    var n := Pow2(logn);
    var b := n * (128 * 128);
    assert n <= 1024 by { DegreeBound(logn); }
    NegaMulBound(f, G, 128, 128);
    NegaMulBound(g, F, 128, 128);
    SumWithin(NegaMul(f, G), NegaMul(g, F), b, b);
    ConstWithin(Q, n);
    SumWithin(PSub(NegaMul(f, G), NegaMul(g, F)), Const(Q, n), b + b, Q);
    WithinMore(Defect(f, g, F, G), b + b + Q, 0x0300_0000);
  }

  lemma DegreeBound(logn: nat)
    requires logn <= 10
    ensures Pow2(logn) <= 1024
  {
    Pow2Mono(logn, 10);
    assert Pow2(10) == 1024;
  }

  lemma ConstWithin(c: nat, n: nat)
    requires n > 0
    ensures Within(Const(c, n), c)
  {
  }

  lemma WithinMore(f: seq<int>, a: int, b: int)
    requires Within(f, a) && a <= b
    ensures Within(f, b)
  {
  }

  /** Coefficients this small are determined by their residues. */
  lemma LiftToIntegers(f: seq<int>, g: seq<int>, F: seq<int>, G: seq<int>, logn: nat, p: int)
    requires Modulus(p) && logn <= 10 && |f| == |g| == |F| == |G| == Pow2(logn)
    requires Within(f, 128) && Within(g, 128) && Within(F, 128) && Within(G, 128)
    requires forall i :: 0 <= i < |f| ==> Cong(Defect(f, g, F, G)[i], 0, p)
    ensures Defect(f, g, F, G) == Zero(|f|)
  {
    hide Cong, Defect;
    DefectBound(f, g, F, G, logn);
    var d := Defect(f, g, F, G);
    forall i | 0 <= i < |f|
      ensures d[i] == 0
    {
      assert Cong(d[i], 0, p);
      CongUnique(d[i], 0, p);
    }
  }

  lemma DefectZero(f: seq<int>, g: seq<int>, F: seq<int>, G: seq<int>)
    requires |f| == |g| == |F| == |G| > 0
    ensures Defect(f, g, F, G) == Zero(|f|) <==> NtruEquation(f, g, F, G)
  {
    hide NegaMul, Const;
    var e, c, d := PSub(NegaMul(f, G), NegaMul(g, F)), Const(Q, |f|), Defect(f, g, F, G);
    assert forall i :: 0 <= i < |f| ==> d[i] == e[i] - c[i];
    if d == Zero(|f|) {
      assert forall i :: 0 <= i < |f| ==> e[i] == c[i] by {
        assert forall i :: 0 <= i < |f| ==> d[i] == 0;
      }
    }
  }

  lemma Pow2Mono(l: nat, m: nat)
    requires l <= m
    ensures Pow2(l) <= Pow2(m)
    ensures m == 10 ==> Pow2(m) == 1024
  {
    Pow2Add(l, m - l);
    MulMono(1, Pow2(m - l), Pow2(l));
    assert Pow2(10) == 1024;
  }

  /** The slot-wise comparison decides the equation over the integers. */
  lemma CheckDecides(f: seq<int>, g: seq<int>, F: seq<int>, G: seq<int>, logn: nat,
                     gm: seq<u32>, igm: seq<u32>, p: u32, p0i: u32)
    requires Field(p, p0i) && logn <= 10 && p > 0 && |f| == |g| == |F| == |G| == Pow2(logn)
    requires Within(f, 128) && Within(g, 128) && Within(F, 128) && Within(G, 128)
    requires RootTree(gm, Pow2(logn), p, p0i) && Inverses(gm, igm, Pow2(logn), p, p0i)
    ensures (forall j :: 0 <= j < Pow2(logn) ==> SlotTest(f, g, F, G, logn, gm, j, p, p0i))
       <==> NtruEquation(f, g, F, G)
  {
    hide Cong, Point, RootTree, Inverses, SlotTest, NegInverse, Eval, Pow2, Within, Defect, NtruEquation, Zero;
    var d := Defect(f, g, F, G);
    forall j | 0 <= j < Pow2(logn)
      ensures SlotTest(f, g, F, G, logn, gm, j, p, p0i) <==> Cong(Eval(d, Point(gm, logn, j, p, p0i)), 0, p)
    {
      SlotMeaning(f, g, F, G, logn, gm, j, p, p0i);
    }
    DefectZero(f, g, F, G);
    if forall j :: 0 <= j < Pow2(logn) ==> SlotTest(f, g, F, G, logn, gm, j, p, p0i) {
      VanishesEverywhere(d, logn, gm, igm, p, p0i);
      LiftToIntegers(f, g, F, G, logn, p);
    }
    if NtruEquation(f, g, F, G) {
      CongRefl(0, p);
      forall j | 0 <= j < Pow2(logn)
        ensures Cong(Eval(d, Point(gm, logn, j, p, p0i)), 0, p)
      {
        EvalZero(|f|, Point(gm, logn, j, p, p0i));
      }
    }
  }

  /** Compares all slots against q in Montgomery form, stopping at the first mismatch. */
  method CompareSlots(ft: array<u32>, gt: array<u32>, Ft: array<u32>, Gt: array<u32>, n: nat, p: u32, p0i: u32)
    returns (ok: bool)
    requires ft.Length == gt.Length == Ft.Length == Gt.Length == n
    ensures ok <==> SlotsMatch(ft[..], gt[..], Ft[..], Gt[..], p, p0i)
  {
    hide SlotDiff, MontyMul;
    var r: u32 := MontyMul(Q, 1, p, p0i);
    for u := 0 to n
      invariant forall j :: 0 <= j < u ==> SlotDiff(ft[j], Gt[j], gt[j], Ft[j], p, p0i) == r
    {
      var z: u32 := SlotDiff(ft[u], Gt[u], gt[u], Ft[u], p, p0i);
      if z != r {
        assert SlotDiff(ft[..][u], Gt[..][u], gt[..][u], Ft[..][u], p, p0i) != r;
        return false;
      }
    }
    ok := true;
  }

  ghost predicate SlotsMatch(ft: seq<u32>, gt: seq<u32>, Ft: seq<u32>, Gt: seq<u32>, p: u32, p0i: u32)
    requires |ft| == |gt| == |Ft| == |Gt|
  {
    forall j :: 0 <= j < |ft| ==> SlotDiff(ft[j], Gt[j], gt[j], Ft[j], p, p0i) == MontyMul(Q, 1, p, p0i)
  }

  lemma SlotTests(f: seq<int>, g: seq<int>, F: seq<int>, G: seq<int>, logn: nat, gm: seq<u32>,
                  ft: seq<u32>, gt: seq<u32>, Ft: seq<u32>, Gt: seq<u32>, p: u32, p0i: u32)
    requires p > 0 && |f| == |g| == |F| == |G| == Pow2(logn)
    requires ft == NTT(Residues(f, p), logn, gm, p, p0i) && gt == NTT(Residues(g, p), logn, gm, p, p0i)
    requires Ft == NTT(Residues(F, p), logn, gm, p, p0i) && Gt == NTT(Residues(G, p), logn, gm, p, p0i)
    ensures (forall j :: 0 <= j < Pow2(logn) ==> SlotTest(f, g, F, G, logn, gm, j, p, p0i))
       <==> SlotsMatch(ft, gt, Ft, Gt, p, p0i)
  {
    hide NTT, Residues, SlotDiff, MontyMul, Pow2;
    forall j | 0 <= j < Pow2(logn)
      ensures SlotTest(f, g, F, G, logn, gm, j, p, p0i)
         <==> SlotDiff(ft[j], Gt[j], gt[j], Ft[j], p, p0i) == MontyMul(Q, 1, p, p0i)
    {
    }
    if forall j :: 0 <= j < Pow2(logn) ==> SlotTest(f, g, F, G, logn, gm, j, p, p0i) {
      forall j | 0 <= j < |ft|
        ensures SlotDiff(ft[j], Gt[j], gt[j], Ft[j], p, p0i) == MontyMul(Q, 1, p, p0i)
      {
        assert SlotTest(f, g, F, G, logn, gm, j, p, p0i);
      }
    }
  }

  /** The tables for PRIMES[0]. */
  method FirstTables(logn: nat) returns (gm: array<u32>, igm: array<u32>, p: u32, p0i: u32)
    requires logn <= 10
    ensures fresh(gm) && fresh(igm) && p == P0 && Field(p, p0i) && gm.Length == igm.Length == Pow2(logn)
    ensures RootTree(gm[..], Pow2(logn), p, p0i) && Inverses(gm[..], igm[..], Pow2(logn), p, p0i)
  {
    hide Pow2, RootTree, Inverses, NegInverse, NInv31, Cong, Pow;
    p := P0;
    FirstPrime();
    NInv31Spec(p);
    p0i := NInv31(p);
    gm, igm := new u32[Pow2(logn)], new u32[Pow2(logn)];
    MkGm2(gm, igm, logn, G0, p, p0i);
  }

  /**
   * The end of solve_NTRU: `words` holds the candidate F, then G, one signed word per coefficient.
   * Success means exactly that both are within the limit and solve the NTRU equation.
   */
  method FinishSolve(logn: nat, F: array<i8>, G: array<i8>, f: array<i8>, g: array<i8>, lim: nat, words: array<u32>)
    returns (ok: bool)
    requires logn <= 10 && lim <= 127 && F != G && F != f && F != g && G != f && G != g
    requires F.Length == G.Length == f.Length == g.Length == Pow2(logn) && words.Length >= 2 * Pow2(logn)
    requires Digits(words[..2 * Pow2(logn)])
    modifies F, G
    ensures var n := Pow2(logn); var F0 := SignedWords(words[..n]); var G0 := SignedWords(words[n..2 * n]);
      ok <==> Within(F0, lim) && Within(G0, lim) && NtruEquation(f[..], g[..], F0, G0)
    ensures ok ==> NtruEquation(f[..], g[..], F[..], G[..]) && Within(F[..], lim) && Within(G[..], lim)
  {
    hide Pow2, NTT, Residues, SlotsMatch, SignedWords, SVal, Val, Digits, RootTree, Inverses, NegInverse, Cong, NtruEquation, SlotTest;
    var n := Pow2(logn);
    assert words[0..0 + n] == words[..n] && words[n..n + n] == words[n..2 * n];
    assert words[..2 * n][..n] == words[..n] && words[..2 * n][n..] == words[n..2 * n];
    HalvesDigits(words[..2 * n], n);
    ok := BigToSmall(F, words, 0, lim, logn);
    if !ok {
      return;
    }
    ok := BigToSmall(G, words, n, lim, logn);
    if !ok {
      return;
    }
    var gm, igm, p, p0i := FirstTables(logn);
    var Gt := SmallNtt(G, gm, logn, p, p0i);
    var ft := SmallNtt(f, gm, logn, p, p0i);
    var gt := SmallNtt(g, gm, logn, p, p0i);
    var Ft := SmallNtt(F, gm, logn, p, p0i);
    ok := CompareSlots(ft, gt, Ft, Gt, n, p, p0i);
    SlotTests(f[..], g[..], F[..], G[..], logn, gm[..], ft[..], gt[..], Ft[..], Gt[..], p, p0i);
    CheckDecides(f[..], g[..], F[..], G[..], logn, gm[..], igm[..], p, p0i);
  }

  lemma HalvesDigits(s: seq<u32>, n: nat)
    requires Digits(s) && n <= |s|
    ensures Digits(s[..n]) && Digits(s[n..])
  {
  }
}
