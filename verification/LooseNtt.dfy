/**
 * The transform on words that are not reduced: which small integers modp_set may hand to it, and
 * what a column of poly_sub_scaled_ntt holds for the others.
 */
module LooseNtt {
  import opened Words
  import opened Congruence
  import opened Modp
  import opened ModpPowers
  import opened Twiddle
  import opened Ntt
  import opened Poly

  // ---------------------------------------------------------------------
  // Words below 2^31 that need not be below p
  // ---------------------------------------------------------------------

  /** a holds words below 2^31 with the residues b. */
  ghost predicate Loose(a: seq<u32>, b: seq<u32>, p: int) {
    |a| == |b| && forall i :: 0 <= i < |a| ==> a[i] < B31 && b[i] < p && Cong(a[i], b[i], p)
  }

  lemma AddLoose(x: u32, z: u32, p: u32)
    requires Modulus(p) && x < B31 && z < p
    ensures Add(x, z, p) < B31 && Cong(Add(x, z, p), x + z, p)
  {
    hide Cong;
    AddLooseValue(x, z, p);
    ByQuotient(Add(x, z, p), x + z, p, if x + z >= p then -1 else 0);
  }

  lemma AddLooseValue(x: u32, z: u32, p: u32)
    requires Modulus(p) && x < B31 && z < p
    ensures Add(x, z, p) == if x + z >= p then x + z - p else x + z
  {
  }

  lemma SubLoose(x: u32, z: u32, p: u32)
    requires Modulus(p) && x < B31 && z < p
    ensures Sub(x, z, p) < B31 && Cong(Sub(x, z, p), x - z, p)
  {
    hide Cong;
    SubLooseValue(x, z, p);
    ByQuotient(Sub(x, z, p), x - z, p, if x < z then 1 else 0);
  }

  lemma SubLooseValue(x: u32, z: u32, p: u32)
    requires Modulus(p) && x < B31 && z < p
    ensures Sub(x, z, p) == if x < z then x - z + p else x - z
  {
  }

  /** A Montgomery product with a reduced factor depends only on the residue of the other one. */
  lemma MontyLoose(x: u32, y: u32, s: u32, p: u32, p0i: u32)
    requires Field(p, p0i) && x < B31 && y < p && s < p && Cong(x, y, p)
    ensures MontyMul(x, s, p, p0i) == MontyMul(y, s, p, p0i) < p
  {
    hide Cong, MontyMul, RInv, NegInverse;
    ProductFits(s, x, p);
    assert x * s == s * x;
    ProductFits(y, s, p);
    MontyMulSpec(x, s, p, p0i);
    MontyMulSpec(y, s, p, p0i);
    CongScale(x, y, s, p);
    CongScale(x * s, y * s, RInv(p, p0i), p);
    CongModEq(x * s * RInv(p, p0i), y * s * RInv(p, p0i), p);
  }

  lemma SlotsLoose(x: u32, x': u32, y: u32, y': u32, s: u32, p: u32, p0i: u32)
    requires Field(p, p0i) && x < B31 && y < B31 && x' < p && y' < p && s < p && Cong(x, x', p) && Cong(y, y', p)
    ensures var z, z' := MontyMul(y, s, p, p0i), MontyMul(y', s, p, p0i);
      Add(x, z, p) < B31 && Add(x', z', p) < p && Cong(Add(x, z, p), Add(x', z', p), p) &&
      Sub(x, z, p) < B31 && Sub(x', z', p) < p && Cong(Sub(x, z, p), Sub(x', z', p), p)
  {
    hide Cong, MontyMul, Add, Sub, NegInverse;
    MontyLoose(y, y', s, p, p0i);
    var z: u32 := MontyMul(y, s, p, p0i);
    AddLoose(x, z, p);
    AddSpec(x', z, p);
    SubLoose(x, z, p);
    SubSpec(x', z, p);
    CongRefl(z, p);
    CongAdd(x, x', z, z, p);
    CongSub(x, x', z, z, p);
    CongSym(Add(x', z, p), x' + z, p);
    CongSym(Sub(x', z, p), x' - z, p);
    CongTrans(Add(x, z, p), x + z, x' + z, p);
    CongTrans(Add(x, z, p), x' + z, Add(x', z, p), p);
    CongTrans(Sub(x, z, p), x - z, x' - z, p);
    CongTrans(Sub(x, z, p), x' - z, Sub(x', z, p), p);
  }

  lemma ButterflyLoose(a: seq<u32>, b: seq<u32>, s: u32, h: nat, p: u32, p0i: u32)
    requires Field(p, p0i) && Loose(a, b, p) && |a| == 2 * h && s < p
    ensures var c, d := FwdButterfly(a, s, p, p0i), FwdButterfly(b, s, p, p0i);
      Loose(c[..h], d[..h], p) && Loose(c[h..], d[h..], p)
  {
    hide Cong, MontyMul, Add, Sub, Field;
    var c, d := FwdButterfly(a, s, p, p0i), FwdButterfly(b, s, p, p0i);
    var lc, ld, hc, hd := c[..h], d[..h], c[h..], d[h..];
    forall i | 0 <= i < h
      ensures lc[i] < B31 && ld[i] < p && Cong(lc[i], ld[i], p)
    {
      SlotsLoose(a[i], b[i], a[i + h], b[i + h], s, p, p0i);
    }
    forall i | 0 <= i < h
      ensures hc[i] < B31 && hd[i] < p && Cong(hc[i], hd[i], p)
    {
      assert hc[i] == c[i + h] && hd[i] == d[i + h];
      SlotsLoose(a[i], b[i], a[i + h], b[i + h], s, p, p0i);
    }
  }

  lemma LooseJoin(a: seq<u32>, b: seq<u32>, c: seq<u32>, d: seq<u32>, p: int)
    requires Loose(a, b, p) && Loose(c, d, p)
    ensures Loose(a + c, b + d, p)
  {
    hide Cong;
  }

  /** The transform of words below 2^31 has the residues of the transform of their residues. */
  lemma {:induction false} FwdLoose(a: seq<u32>, b: seq<u32>, l: nat, k: nat, gm: seq<u32>, n: nat, p: u32, p0i: u32)
    requires Field(p, p0i) && RootTree(gm, n, p, p0i) && InTree(l, k, n) && |a| == Pow2(l) && Loose(a, b, p)
    ensures Loose(Fwd(a, l, k, gm, p, p0i), Fwd(b, l, k, gm, p, p0i), p)
    decreases l
  {
    hide FwdButterfly, Field, InTree, RootTree, Pow2, Loose, At, Fwd;
    LooseLength(a, b, p);
    if l == 0 {
      LeafBase(a, k, gm, gm, p, p0i);
      LeafBase(b, k, gm, gm, p, p0i);
    } else {
      Pow2Half(l);
      ChildrenInTree(l, k, n);
      NodeReduced(gm, n, k, p, p0i);
      var h := Pow2(l - 1);
      ButterflyLoose(a, b, At(gm, k), h, p, p0i);
      var c, d := FwdButterfly(a, At(gm, k), p, p0i), FwdButterfly(b, At(gm, k), p, p0i);
      FwdLoose(c[..h], d[..h], l - 1, 2 * k, gm, n, p, p0i);
      FwdLoose(c[h..], d[h..], l - 1, 2 * k + 1, gm, n, p, p0i);
      LooseJoin(Fwd(c[..h], l - 1, 2 * k, gm, p, p0i), Fwd(d[..h], l - 1, 2 * k, gm, p, p0i),
                Fwd(c[h..], l - 1, 2 * k + 1, gm, p, p0i), Fwd(d[h..], l - 1, 2 * k + 1, gm, p, p0i), p);
      FwdSplit(a, l, k, gm, p, p0i);
      FwdSplit(b, l, k, gm, p, p0i);
    }
  }

  lemma LooseLength(a: seq<u32>, b: seq<u32>, p: int)
    requires Loose(a, b, p)
    ensures |a| == |b|
  {
  }

  // ---------------------------------------------------------------------
  // A column of the product
  // ---------------------------------------------------------------------

  /** modp_set on every coefficient. */
  function SetWords(k: seq<int>, p: u32): (r: seq<u32>)
    ensures |r| == |k|
  {
    seq(|k|, i requires 0 <= i < |k| => Set(k[i], p))
  }

  /** The words of a column of the product, with the given tables. */
  ghost function ColumnFrom(k: seq<int>, f: seq<int>, logn: nat, gm: seq<u32>, igm: seq<u32>, p: u32, p0i: u32): (r: seq<u32>)
    requires p > 0 && logn <= 10 && |k| == |f|
    ensures |r| == |k|
  {
    INTT(Pointwise(NTT(SetWords(k, p), logn, gm, p, p0i), NTT(Residues(f, p), logn, gm, p, p0i), p, p0i), logn, igm, p, p0i)
  }

  /** Every coefficient is at least low, and is an int32_t. */
  ghost predicate AtLeast(k: seq<int>, low: int) {
    forall v :: 0 <= v < |k| ==> low <= k[v] < B31
  }

  lemma SetLoose(x: int, p: u32)
    requires Modulus(p) && 0 - p <= x < B31
    ensures Set(x, p) < B31 && Cong(Set(x, p), Residue(x, p), p)
  {
    hide Cong;
    SetLooseValue(x, p);
    ByQuotient(Set(x, p), x, p, if x < 0 then 1 else 0);
    CongMod(x, p);
    CongTrans(Set(x, p), x, Residue(x, p), p);
  }

  lemma SetLooseValue(x: int, p: u32)
    requires Modulus(p) && 0 - p <= x < B31
    ensures Set(x, p) == if x < 0 then x + p else x
  {
  }

  lemma SetWordsLoose(k: seq<int>, p: u32)
    requires Modulus(p) && AtLeast(k, 0 - p)
    ensures Loose(SetWords(k, p), Residues(k, p), p)
  {
    hide Set, Cong;
    forall i | 0 <= i < |k|
      ensures Set(k[i], p) < B31 && Cong(Set(k[i], p), Residue(k[i], p), p)
    {
      SetLoose(k[i], p);
    }
  }

  lemma PointwiseLoose(a: seq<u32>, b: seq<u32>, c: seq<u32>, p: u32, p0i: u32)
    requires Field(p, p0i) && Loose(a, b, p) && |c| == |a| && AllBelow(c, p)
    ensures |a| == |b| && Pointwise(a, c, p, p0i) == Pointwise(b, c, p, p0i)
  {
    hide Cong, MontyMul, Field, R2;
    forall i | 0 <= i < |a|
      ensures SlotMul(a[i], c[i], p, p0i) == SlotMul(b[i], c[i], p, p0i)
    {
      MontyLoose(a[i], b[i], c[i], p, p0i);
    }
  }

  lemma ResiduesBelow(f: seq<int>, p: u32)
    requires p > 0
    ensures AllBelow(Residues(f, p), p)
  {
  }

  lemma RightFrom(k: seq<int>, f: seq<int>, logn: nat, gm: seq<u32>, igm: seq<u32>, p: u32, p0i: u32)
    requires Field(p, p0i) && logn <= 10 && p > 0 && |k| == |f| == Pow2(logn) && AtLeast(k, 0 - p)
    requires RootTree(gm, Pow2(logn), p, p0i) && Inverses(gm, igm, Pow2(logn), p, p0i)
    ensures ColumnFrom(k, f, logn, gm, igm, p, p0i) == Residues(NegaMul(k, f), p)
  {
    hide NTT, INTT, RootTree, Inverses, Residues, NegaMul, NegInverse, Pow2, Loose, Pointwise, SetWords, AtLeast, AllBelow;
    SetWordsLoose(k, p);
    ResiduesBelow(f, p);
    NTTLoose(SetWords(k, p), Residues(k, p), logn, gm, p, p0i);
    NTTBelow(Residues(f, p), logn, gm, p, p0i);
    PointwiseLoose(NTT(SetWords(k, p), logn, gm, p, p0i), NTT(Residues(k, p), logn, gm, p, p0i),
                   NTT(Residues(f, p), logn, gm, p, p0i), p, p0i);
    ProductThroughNTT(k, f, logn, gm, igm, p, p0i);
  }

  lemma NTTLoose(a: seq<u32>, b: seq<u32>, logn: nat, gm: seq<u32>, p: u32, p0i: u32)
    requires Field(p, p0i) && RootTree(gm, Pow2(logn), p, p0i) && |a| == Pow2(logn) && Loose(a, b, p)
    ensures Loose(NTT(a, logn, gm, p, p0i), NTT(b, logn, gm, p, p0i), p)
  {
    hide Fwd, Loose;
    RootInTree(logn);
    FwdLoose(a, b, logn, 1, gm, Pow2(logn), p, p0i);
  }

  // ---------------------------------------------------------------------
  // Below -p, modp_set leaves a word that stands for a negative number
  // ---------------------------------------------------------------------

  /** The constant polynomial c, in words. */
  function Spike(c: u32, n: nat): (r: seq<u32>)
    ensures |r| == n
  {
    seq(n, i => if i == 0 then c else 0)
  }

  /** w = 2^32 - d passes for -d in the additions of the transform; y is the reduced form of -d. */
  ghost predicate Wraps(w: int, y: int, p: int) {
    2 * p - B31 <= y < p && w == y + B32 - p
  }

  lemma WrapSlots(w: u32, y: u32, p: u32)
    requires Modulus(p) && Wraps(w, y, p)
    ensures Add(w, 0, p) == w && Sub(w, 0, p) == y && y < p
  {
  }

  lemma PlainSlots(y: u32, p: u32)
    requires Modulus(p) && y < p
    ensures Add(y, 0, p) == y && Sub(y, 0, p) == y
  {
  }

  lemma ZeroProduct(s: u32, p: u32, p0i: u32)
    requires Field(p, p0i) && s < p
    ensures MontyMul(0, s, p, p0i) == 0
  {
    hide MontyMul, RInv, Cong, NegInverse;
    assert 0 * s == 0;
    ZeroFrom(0, s, p, p0i);
  }

  lemma ZeroFrom(a: u32, s: u32, p: u32, p0i: u32)
    requires Field(p, p0i) && a * s == 0
    ensures MontyMul(a, s, p, p0i) == 0
  {
    hide MontyMul, RInv, Cong, NegInverse;
    MontyMulSpec(a, s, p, p0i);
    CancelR(MontyMul(a, s, p, p0i), 0, p, p0i);
    CongUnique(MontyMul(a, s, p, p0i), 0, p);
  }

  lemma FieldModulus(p: int, p0i: int)
    requires Field(p, p0i)
    ensures Modulus(p)
  {
  }

  /** Both halves of the butterfly of a constant are constants. */
  lemma ButterflySpike(c: u32, s: u32, h: nat, p: u32, p0i: u32)
    requires Field(p, p0i) && s < p && h > 0
    ensures var r := FwdButterfly(Spike(c, 2 * h), s, p, p0i);
      r[..h] == Spike(Add(c, 0, p), h) && r[h..] == Spike(Sub(c, 0, p), h)
  {
    hide MontyMul, Add, Sub, NegInverse;
    ZeroProduct(s, p, p0i);
    PlainSlots(0, p);
  }

  /** Slot 0 of the transform of a constant, and its other slots when the constant wraps. */
  lemma {:induction false} FwdSpike(w: u32, y: u32, l: nat, k: nat, gm: seq<u32>, n: nat, p: u32, p0i: u32)
    requires Field(p, p0i) && RootTree(gm, n, p, p0i) && InTree(l, k, n) && y < p && (w == y || Wraps(w, y, p))
    ensures var r := Fwd(Spike(y, Pow2(l)), l, k, gm, p, p0i);
      r[0] == y && Fwd(Spike(w, Pow2(l)), l, k, gm, p, p0i) == r[0 := w]
    decreases l
  {
    hide FwdButterfly, Add, Sub, Field, InTree, RootTree, Pow2, At, Spike, Wraps;
    if l == 0 {
      SpikeOne(w);
      SpikeOne(y);
    } else {
      Pow2Half(l);
      ChildrenInTree(l, k, n);
      NodeReduced(gm, n, k, p, p0i);
      var h := Pow2(l - 1);
      ButterflySpike(y, At(gm, k), h, p, p0i);
      ButterflySpike(w, At(gm, k), h, p, p0i);
      FieldModulus(p, p0i);
      PlainSlots(y, p);
      if w != y {
        WrapSlots(w, y, p);
      }
      FwdSpike(w, y, l - 1, 2 * k, gm, n, p, p0i);
    }
  }

  lemma SpikeOne(c: u32)
    ensures Pow2(0) == 1 && Spike(c, Pow2(0)) == [c]
  {
  }

  lemma {:induction false} InvBelow(a: seq<u32>, l: nat, k: nat, gm: seq<u32>, igm: seq<u32>, n: nat, p: u32, p0i: u32)
    requires Field(p, p0i) && Inverses(gm, igm, n, p, p0i) && InTree(l, k, n) && |a| == Pow2(l) && AllBelow(a, p)
    ensures AllBelow(Inv(a, l, k, igm, p, p0i), p)
    decreases l
  {
    hide InvButterfly, Field, InTree, Inverses, Pow2, At, Inv, AllBelow;
    if l == 0 {
      InvNothing(a, k, igm, p, p0i);
    } else {
      Pow2Half(l);
      ChildrenInTree(l, k, n);
      InverseReduced(gm, igm, n, k, p, p0i);
      var h := Pow2(l - 1);
      HalvesBelow(a, h, p);
      InvBelow(a[..h], l - 1, 2 * k, gm, igm, n, p, p0i);
      InvBelow(a[h..], l - 1, 2 * k + 1, gm, igm, n, p, p0i);
      JoinBelow(Inv(a[..h], l - 1, 2 * k, igm, p, p0i), Inv(a[h..], l - 1, 2 * k + 1, igm, p, p0i), p);
      InvButterflyBelow(Inv(a[..h], l - 1, 2 * k, igm, p, p0i) + Inv(a[h..], l - 1, 2 * k + 1, igm, p, p0i), At(igm, k), p, p0i);
      assert a == a[..h] + a[h..];
      InvJoin(a[..h], a[h..], l, k, igm, p, p0i);
    }
  }

  lemma JoinBelow(a: seq<u32>, b: seq<u32>, p: int)
    requires AllBelow(a, p) && AllBelow(b, p)
    ensures AllBelow(a + b, p)
  {
  }

  /** Coefficient 0 of the inverse transform moves by as much as slot 0. */
  lemma {:induction false} InvMoves(a: seq<u32>, v: u32, l: nat, k: nat, gm: seq<u32>, igm: seq<u32>, n: nat, p: u32, p0i: u32)
    requires Field(p, p0i) && Inverses(gm, igm, n, p, p0i) && InTree(l, k, n) && |a| == Pow2(l) && AllBelow(a, p) && v < p
    ensures Moved(Inv(a, l, k, igm, p, p0i)[0], Inv(a[0 := v], l, k, igm, p, p0i)[0], v - a[0], p)
    decreases l
  {
    hide Moved, Field, InTree, Inverses, Pow2, At, AllBelow, InvButterfly, Inv;
    if l == 0 {
      InvNothing(a, k, igm, p, p0i);
      InvNothing(a[0 := v], k, igm, p, p0i);
      BelowAt(a, 0, p);
      MovedLeaf(a[0], v, p);
    } else {
      Pow2Half(l);
      ChildrenInTree(l, k, n);
      var h := Pow2(l - 1);
      HalvesBelow(a, h, p);
      InvMoves(a[..h], v, l - 1, 2 * k, gm, igm, n, p, p0i);
      InvBelow(a[h..], l - 1, 2 * k + 1, gm, igm, n, p, p0i);
      FieldModulus(p, p0i);
      InvMovesUp(a, v, l, k, igm, h, p, p0i);
    }
  }

  /** Both words are reduced, and y is x + e modulo p. */
  ghost predicate Moved(x: u32, y: u32, e: int, p: int) {
    x < p && y < p && Cong(y - x, e, p)
  }

  lemma MovedLeaf(x: u32, v: u32, p: int)
    requires x < p && v < p
    ensures Moved(x, v, v - x, p)
  {
    CongRefl(v - x, p);
  }

  lemma InvMovesUp(a: seq<u32>, v: u32, l: nat, k: nat, igm: seq<u32>, h: nat, p: u32, p0i: u32)
    requires Modulus(p) && l > 0 && h > 0 && |a| == 2 * h
    requires Moved(Inv(a[..h], l - 1, 2 * k, igm, p, p0i)[0], Inv(a[..h][0 := v], l - 1, 2 * k, igm, p, p0i)[0], v - a[..h][0], p)
    requires AllBelow(Inv(a[h..], l - 1, 2 * k + 1, igm, p, p0i), p)
    ensures Moved(Inv(a, l, k, igm, p, p0i)[0], Inv(a[0 := v], l, k, igm, p, p0i)[0], v - a[0], p)
  {
    hide Cong, Add, AllBelow, InvButterfly, Inv, Modulus;
    var b := a[0 := v];
    assert b[..h] == a[..h][0 := v] && b[h..] == a[h..];
    InvFront(a, l, k, igm, h, p, p0i);
    InvFront(b, l, k, igm, h, p, p0i);
    var t := Inv(a[h..], l - 1, 2 * k + 1, igm, p, p0i);
    BelowAt(t, 0, p);
    SumMoves(Inv(a[..h], l - 1, 2 * k, igm, p, p0i)[0], Inv(b[..h], l - 1, 2 * k, igm, p, p0i)[0], t[0], v - a[0], p);
  }

  lemma InvFront(a: seq<u32>, l: nat, k: nat, igm: seq<u32>, h: nat, p: u32, p0i: u32)
    requires l > 0 && h > 0 && |a| == 2 * h
    ensures Inv(a, l, k, igm, p, p0i)[0]
         == Add(Inv(a[..h], l - 1, 2 * k, igm, p, p0i)[0], Inv(a[h..], l - 1, 2 * k + 1, igm, p, p0i)[0], p)
  {
    hide Add, MontyMul, Sub, Inv;
    assert a == a[..h] + a[h..];
    InvJoin(a[..h], a[h..], l, k, igm, p, p0i);
  }

  lemma BelowUpdate(a: seq<u32>, v: u32, p: int)
    requires |a| > 0 && AllBelow(a, p) && v < p
    ensures AllBelow(a[0 := v], p)
  {
  }

  lemma BelowAt(a: seq<u32>, i: nat, p: int)
    requires i < |a| && AllBelow(a, p)
    ensures a[i] < p
  {
  }

  lemma SumMoves(x: u32, x': u32, y: u32, e: int, p: u32)
    requires Modulus(p) && x < p && x' < p && y < p && Cong(x' - x, e, p)
    ensures Add(x, y, p) < p && Add(x', y, p) < p && Cong(Add(x', y, p) - Add(x, y, p), e, p)
  {
    hide Cong, Add;
    AddSpec(x, y, p);
    AddSpec(x', y, p);
    CongSub(Add(x', y, p), x' + y, Add(x, y, p), x + y, p);
    CongTrans(Add(x', y, p) - Add(x, y, p), x' - x, e, p);
  }

  /** The final division by n is injective on reduced words. */
  lemma UnscaleInjective(x: u32, y: u32, l: nat, p: u32, p0i: u32)
    requires Field(p, p0i) && 1 <= l <= 10 && x < p && y < p
    requires MontyMul(x, Pow2(31 - l) % B32, p, p0i) == MontyMul(y, Pow2(31 - l) % B32, p, p0i)
    ensures Cong(x - y, 0, p)
  {
    hide Cong, MontyMul, NegInverse, Pow2;
    var q := Pow2(31 - l);
    ScaleFactor(l);
    assert q % B32 == q;
    ProductFits(x, q, p);
    ProductFits(y, q, p);
    MontyMulSpec(x, q, p, p0i);
    MontyMulSpec(y, q, p, p0i);
    var r := B31 * MontyMul(x, q, p, p0i);
    CongSym(r, x * q, p);
    CongTrans(x * q, r, y * q, p);
    CongScale(x * q, y * q, Pow2(l), p);
    ScaledBack(Pow2(l), x, q);
    ScaledBack(Pow2(l), y, q);
    assert Pow2(l) * (x * q) == (Pow2(l) * x) * q && Pow2(l) * (y * q) == (Pow2(l) * y) * q by {
      MulAssoc(Pow2(l), x, q);
      MulAssoc(Pow2(l), y, q);
    }
    CancelR(x, y, p, p0i);
    CongRefl(y, p);
    CongSub(x, y, y, y, p);
  }

  /** Two reduced vectors that differ in slot 0 have different inverse transforms. */
  lemma InverseDiffers(a: seq<u32>, v: u32, logn: nat, gm: seq<u32>, igm: seq<u32>, p: u32, p0i: u32)
    requires Field(p, p0i) && logn <= 10 && Inverses(gm, igm, Pow2(logn), p, p0i) && |a| == Pow2(logn) && AllBelow(a, p) && v < p
    requires INTT(a, logn, igm, p, p0i) == INTT(a[0 := v], logn, igm, p, p0i)
    ensures Cong(v - a[0], 0, p)
  {
    hide Cong, MontyMul, Inv, Inverses, NegInverse, AllBelow;
    RootInTree(logn);
    InvMoves(a, v, logn, 1, gm, igm, Pow2(logn), p, p0i);
    var r, s := Inv(a, logn, 1, igm, p, p0i), Inv(a[0 := v], logn, 1, igm, p, p0i);
    if logn == 0 {
      InvLeaf(a, igm, p, p0i);
      InvLeaf(a[0 := v], igm, p, p0i);
      CongRefl(0, p);
    } else {
      assert MontyMul(r[0], Pow2(31 - logn) % B32, p, p0i) == INTT(a, logn, igm, p, p0i)[0];
      assert MontyMul(s[0], Pow2(31 - logn) % B32, p, p0i) == INTT(a[0 := v], logn, igm, p, p0i)[0];
      UnscaleInjective(s[0], r[0], logn, p, p0i);
      var r0: int, s0: int := r[0], s[0];
      var e: int := s0 - r0;
      CongSym(e, v - a[0], p);
      CongTrans(v - a[0], e, 0, p);
    }
  }

  lemma InvNothing(a: seq<u32>, k: nat, igm: seq<u32>, p: u32, p0i: u32)
    ensures Pow2(0) == 1 && Inv(a, 0, k, igm, p, p0i) == a
  {
  }

  lemma InvLeaf(a: seq<u32>, igm: seq<u32>, p: u32, p0i: u32)
    ensures INTT(a, 0, igm, p, p0i) == a
  {
  }

  /** The slot product with 1 reduces any word. */
  lemma SlotOne(w: u32, p: u32, p0i: u32)
    requires Field(p, p0i)
    ensures SlotMul(w, 1, p, p0i) < p && Cong(SlotMul(w, 1, p, p0i), w, p)
  {
    hide Cong, MontyMul, R2, NegInverse;
    MontyMulSpec(w, 1, p, p0i);
    var m: u32 := MontyMul(w, 1, p, p0i);
    R2Spec(p, p0i);
    RepMulMixed(m, R2(p, p0i), B31, p, p0i);
    CongTrans(SlotMul(w, 1, p, p0i), m * B31, w, p);
  }

  /** 2^32 is not a multiple of p. */
  lemma WrapVisible(w: u32, y: u32, v: u32, z: u32, p: u32, p0i: u32)
    requires Field(p, p0i) && Wraps(w, y, p) && Cong(v, w, p) && Cong(z, y, p)
    ensures !Cong(v - z, 0, p)
  {
    hide Cong, NegInverse;
    if Cong(v - z, 0, p) {
      CongSub(v, w, z, y, p);
      CongSym(v - z, w - y, p);
      CongTrans(w - y, v - z, 0, p);
      ByQuotient(B31 * 2, w - y, p, 1);
      CongTrans(B31 * 2, w - y, B31 * 0, p);
      CancelR(2, 0, p, p0i);
      CongUnique(2, 0, p);
    }
  }

  lemma ConstantWords(x: int, n: nat, p: u32)
    requires Modulus(p) && n > 0 && 0 - B31 <= x < 0 - p
    ensures SetWords(Const(x, n), p) == Spike(Set(x, p), n) && Residues(Const(x, n), p) == Spike(Residue(x, p), n)
    ensures Residues(Const(1, n), p) == Spike(1, n)
    ensures Wraps(Set(x, p), Residue(x, p), p)
  {
    hide Set, Residue;
    SmallWords(p);
    SetWrapped(x, p);
    ResidueWrapped(x, p);
  }

  lemma SmallWords(p: u32)
    requires Modulus(p)
    ensures Set(0, p) == 0 && Residue(0, p) == 0 && Residue(1, p) == 1
  {
    SmallMod(0, p);
    SmallMod(1, p);
  }

  lemma SetWrapped(x: int, p: u32)
    requires Modulus(p) && 0 - B31 <= x < 0 - p
    ensures Set(x, p) == B32 + x + p
  {
  }

  lemma ResidueWrapped(x: int, p: u32)
    requires Modulus(p) && 0 - B31 <= x < 0 - p
    ensures Residue(x, p) == x + 2 * p
  {
    hide Cong;
    ByQuotient(x, x + 2 * p, p, -2);
    CongModEq(x, x + 2 * p, p);
    SmallMod(x + 2 * p, p);
  }

  lemma WrongFrom(x: int, logn: nat, gm: seq<u32>, igm: seq<u32>, p: u32, p0i: u32)
    requires Field(p, p0i) && logn <= 10 && p > 0 && 0 - B31 <= x < 0 - p
    requires RootTree(gm, Pow2(logn), p, p0i) && Inverses(gm, igm, Pow2(logn), p, p0i)
    ensures var n := Pow2(logn);
      ColumnFrom(Const(x, n), Const(1, n), logn, gm, igm, p, p0i) != Residues(NegaMul(Const(x, n), Const(1, n)), p)
  {
    hide NTT, INTT, RootTree, Inverses, Residues, NegaMul, NegInverse, Pow2, SetWords, AllBelow, SlotMul, Wraps, Set, Residue, Const, Cong, Pointwise;
    var n := Pow2(logn);
    var k, f := Const(x, n), Const(1, n);
    var t, e, w := ConstantSlots(x, logn, gm, p, p0i);
    var v: u32 := SlotMul(w, 1, p, p0i);
    ProductThroughNTT(k, f, logn, gm, igm, p, p0i);
    if ColumnFrom(k, f, logn, gm, igm, p, p0i) == Residues(NegaMul(k, f), p) {
      InverseDiffers(Pointwise(t, e, p, p0i), v, logn, gm, igm, p, p0i);
    }
  }

  /** The slots of a constant below -p, and of 1: one differs, and that visibly. */
  lemma ConstantSlots(x: int, logn: nat, gm: seq<u32>, p: u32, p0i: u32) returns (t: seq<u32>, e: seq<u32>, w: u32)
    requires Field(p, p0i) && logn <= 10 && p > 0 && 0 - B31 <= x < 0 - p && RootTree(gm, Pow2(logn), p, p0i)
    ensures var n := Pow2(logn); var k, f := Const(x, n), Const(1, n);
      |t| == |e| == n && t == NTT(Residues(k, p), logn, gm, p, p0i) && e == NTT(Residues(f, p), logn, gm, p, p0i) &&
      Pointwise(NTT(SetWords(k, p), logn, gm, p, p0i), e, p, p0i) == Pointwise(t, e, p, p0i)[0 := SlotMul(w, 1, p, p0i)]
    ensures AllBelow(Pointwise(t, e, p, p0i), p) && SlotMul(w, 1, p, p0i) < p
    ensures !Cong(SlotMul(w, 1, p, p0i) - Pointwise(t, e, p, p0i)[0], 0, p)
  {
    hide RootTree, Residues, NegInverse, Pow2, SetWords, AllBelow, Fwd, SlotMul, Wraps, Set, Residue, Spike, Const, Cong;
    var n := Pow2(logn);
    ConstantWords(x, n, p);
    w := Set(x, p);
    var y: u32 := Residue(x, p);
    RootInTree(logn);
    FwdSpike(w, y, logn, 1, gm, n, p, p0i);
    FwdSpike(1, 1, logn, 1, gm, n, p, p0i);
    t, e := NTT(Spike(y, n), logn, gm, p, p0i), NTT(Spike(1, n), logn, gm, p, p0i);
    ResiduesBelow(Const(x, n), p);
    ResiduesBelow(Const(1, n), p);
    NTTBelow(Spike(y, n), logn, gm, p, p0i);
    NTTBelow(Spike(1, n), logn, gm, p, p0i);
    PointwiseBelow(t, e, p, p0i);
    SlotOne(w, p, p0i);
    SlotOne(y, p, p0i);
    UpdateSlot(t, w, e, p, p0i);
    WrapVisible(w, y, SlotMul(w, 1, p, p0i), SlotMul(y, 1, p, p0i), p, p0i);
  }

  lemma UpdateSlot(t: seq<u32>, w: u32, e: seq<u32>, p: u32, p0i: u32)
    requires |t| == |e| > 0
    ensures Pointwise(t[0 := w], e, p, p0i) == Pointwise(t, e, p, p0i)[0 := SlotMul(w, e[0], p, p0i)]
  {
    hide SlotMul;
  }

  lemma PointwiseBelow(a: seq<u32>, b: seq<u32>, p: u32, p0i: u32)
    requires Field(p, p0i) && |a| == |b| && AllBelow(a, p) && AllBelow(b, p)
    ensures AllBelow(Pointwise(a, b, p, p0i), p)
  {
    hide Cong, SlotMul, NegInverse;
    forall i | 0 <= i < |a|
      ensures SlotMul(a[i], b[i], p, p0i) < p
    {
      SlotMulSpec(a[i], b[i], p, p0i);
    }
  }

  // ---------------------------------------------------------------------
  // With the tables of modp_mkgm2
  // ---------------------------------------------------------------------

  /** Column of k*f for the prime p, as poly_sub_scaled_ntt computes it, for any k. */
  ghost function Column(k: seq<int>, f: seq<int>, logn: nat, p: u32, g: u32): (r: seq<u32>)
    requires p > 0 && logn <= 10 && |k| == |f|
    ensures |r| == |k|
  {
    ColumnFrom(k, f, logn, Table(p, g, logn), InverseTable(p, g, logn), p, NInv31(p))
  }

  lemma PrimeField(p: u32, g: u32, logn: nat)
    requires NttPrime(p, g) && logn <= 10
    ensures p > 0 && Field(p, NInv31(p)) && RootTree(Table(p, g, logn), Pow2(logn), p, NInv31(p))
    ensures Inverses(Table(p, g, logn), InverseTable(p, g, logn), Pow2(logn), p, NInv31(p))
  {
    hide RootTree, Inverses, Table, InverseTable, NInv31, NegInverse;
    NInv31Spec(p);
    TablesWork(p, g, logn, NInv31(p));
  }

  /** For coefficients from -p up to 2^31-1 the column holds the product. */
  lemma ColumnRight(k: seq<int>, f: seq<int>, logn: nat, p: u32, g: u32)
    requires NttPrime(p, g) && logn <= 10 && |k| == |f| == Pow2(logn) && AtLeast(k, 0 - p)
    ensures p > 0 && Column(k, f, logn, p, g) == Residues(NegaMul(k, f), p)
  {
    hide ColumnFrom, RootTree, Inverses, Residues, NegaMul, Field, Pow2, Table, InverseTable, AtLeast, NInv31;
    PrimeField(p, g, logn);
    RightFrom(k, f, logn, Table(p, g, logn), InverseTable(p, g, logn), p, NInv31(p));
  }

  /** For a constant below -p and f = 1 it does not, although all its words are reduced. */
  lemma ColumnWrong(x: int, logn: nat, p: u32, g: u32)
    requires NttPrime(p, g) && logn <= 10 && 0 - B31 <= x < 0 - p
    ensures p > 0
    ensures var n := Pow2(logn);
      Column(Const(x, n), Const(1, n), logn, p, g) != Residues(NegaMul(Const(x, n), Const(1, n)), p)
  {
    hide ColumnFrom, RootTree, Inverses, Residues, NegaMul, Field, Pow2, Table, InverseTable, NInv31, Const;
    PrimeField(p, g, logn);
    WrongFrom(x, logn, Table(p, g, logn), InverseTable(p, g, logn), p, NInv31(p));
  }

  /**
   * For which k a column is right: if x bounds the coefficients of k from below, the column holds
   * the product for every such k and every f exactly when x is at least -p.
   */
  lemma ColumnIff(x: int, logn: nat, p: u32, g: u32)
    requires NttPrime(p, g) && logn <= 10 && 0 - B31 <= x <= 0
    ensures p > 0
    ensures (forall k, f :: |k| == |f| == Pow2(logn) && AtLeast(k, x) ==>
               Column(k, f, logn, p, g) == Residues(NegaMul(k, f), p)) <==> x >= 0 - p
  {
    hide Column, Residues, NegaMul, Pow2, Const, NttPrime;
    assert p > 0 by { PrimeField(p, g, logn); }
    if x >= 0 - p {
      forall k, f | |k| == |f| == Pow2(logn) && AtLeast(k, x)
        ensures Column(k, f, logn, p, g) == Residues(NegaMul(k, f), p)
      {
        ColumnRight(k, f, logn, p, g);
      }
    } else {
      var n := Pow2(logn);
      ColumnWrong(x, logn, p, g);
      ConstAtLeast(x, n);
      assert |Const(x, n)| == |Const(1, n)| == n && AtLeast(Const(x, n), x);
    }
  }

  lemma ConstAtLeast(x: int, n: nat)
    requires n > 0 && x <= 0
    ensures AtLeast(Const(x, n), x)
  {
  }

  /** The words of both columns are reduced: when k is at least -p, and for f = 1 and any constant k. */
  lemma ColumnReduced(k: seq<int>, f: seq<int>, logn: nat, p: u32, g: u32)
    requires NttPrime(p, g) && logn <= 10 && |k| == |f| == Pow2(logn)
    requires AtLeast(k, 0 - p) || (exists x :: 0 - B31 <= x < 0 - p && k == Const(x, Pow2(logn)) && f == Const(1, Pow2(logn)))
    ensures p > 0 && AllBelow(Column(k, f, logn, p, g), p)
  {
    hide ColumnFrom, RootTree, Inverses, Residues, NegaMul, Field, Pow2, Table, InverseTable, NInv31, Const, AllBelow;
    PrimeField(p, g, logn);
    if AtLeast(k, 0 - p) {
      RightFrom(k, f, logn, Table(p, g, logn), InverseTable(p, g, logn), p, NInv31(p));
      ResiduesBelow(NegaMul(k, f), p);
    } else {
      var x :| 0 - B31 <= x < 0 - p && k == Const(x, Pow2(logn)) && f == Const(1, Pow2(logn));
      ConstantReduced(x, logn, Table(p, g, logn), InverseTable(p, g, logn), p, NInv31(p));
    }
  }

  lemma ConstantReduced(x: int, logn: nat, gm: seq<u32>, igm: seq<u32>, p: u32, p0i: u32)
    requires Field(p, p0i) && logn <= 10 && p > 0 && 0 - B31 <= x < 0 - p
    requires RootTree(gm, Pow2(logn), p, p0i) && Inverses(gm, igm, Pow2(logn), p, p0i)
    ensures AllBelow(ColumnFrom(Const(x, Pow2(logn)), Const(1, Pow2(logn)), logn, gm, igm, p, p0i), p)
  {
    hide INTT, RootTree, Inverses, Pow2, AllBelow, Pointwise, NTT;
    var t, e, w := ConstantSlots(x, logn, gm, p, p0i);
    BelowUpdate(Pointwise(t, e, p, p0i), SlotMul(w, 1, p, p0i), p);
    INTTBelow(Pointwise(t, e, p, p0i)[0 := SlotMul(w, 1, p, p0i)], logn, gm, igm, p, p0i);
  }

  lemma INTTBelow(a: seq<u32>, logn: nat, gm: seq<u32>, igm: seq<u32>, p: u32, p0i: u32)
    requires Field(p, p0i) && logn <= 10 && Inverses(gm, igm, Pow2(logn), p, p0i) && |a| == Pow2(logn) && AllBelow(a, p)
    ensures AllBelow(INTT(a, logn, igm, p, p0i), p)
  {
    hide Cong, MontyMul, Inv, Inverses, NegInverse, RInv;
    RootInTree(logn);
    InvBelow(a, logn, 1, gm, igm, Pow2(logn), p, p0i);
    if logn > 0 {
      var b := Inv(a, logn, 1, igm, p, p0i);
      ScaleFactor(logn);
      var q: u32 := Pow2(31 - logn) % B32;
      hide Pow2;
      forall i | 0 <= i < |b|
        ensures MontyMul(b[i], q, p, p0i) < p
      {
        ProductFits(b[i], q, p);
        MontyMulSpec(b[i], q, p, p0i);
      }
    }
  }
}
