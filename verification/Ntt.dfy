/** The number-theoretic transform as a recursive function, and what it means. */
module Ntt {
  import opened Words
  import opened Congruence
  import opened Modp
  import opened ModpPowers
  import opened Twiddle

  // ---------------------------------------------------------------------
  // One butterfly over a block, and the depth-first transforms
  // ---------------------------------------------------------------------

  function FwdSlot(b: seq<u32>, i: nat, s: u32, p: u32, p0i: u32): u32
    requires i < |b|
  {
    var h := |b| / 2;
    if i < h then Add(b[i], MontyMul(b[i + h], s, p, p0i), p)
    else Sub(b[i - h], MontyMul(b[i], s, p, p0i), p)
  }

  function FwdButterfly(b: seq<u32>, s: u32, p: u32, p0i: u32): (r: seq<u32>)
    ensures |r| == |b|
  {
    seq(|b|, i requires 0 <= i < |b| => FwdSlot(b, i, s, p, p0i))
  }

  function InvSlot(b: seq<u32>, i: nat, s: u32, p: u32, p0i: u32): u32
    requires i < |b|
  {
    var h := |b| / 2;
    if i < h then Add(b[i], b[i + h], p)
    else MontyMul(Sub(b[i - h], b[i], p), s, p, p0i)
  }

  function InvButterfly(b: seq<u32>, s: u32, p: u32, p0i: u32): (r: seq<u32>)
    ensures |r| == |b|
  {
    seq(|b|, i requires 0 <= i < |b| => InvSlot(b, i, s, p, p0i))
  }

  /** The transform of a block of 2^l coefficients at node k of the root tree. */
  function Fwd(f: seq<u32>, l: nat, k: nat, gm: seq<u32>, p: u32, p0i: u32): (r: seq<u32>)
    ensures |r| == |f|
    decreases l
  {
    if l == 0 then f
    else
      var b := FwdButterfly(f, At(gm, k), p, p0i);
      var h := |f| / 2;
      Fwd(b[..h], l - 1, 2 * k, gm, p, p0i) + Fwd(b[h..], l - 1, 2 * k + 1, gm, p, p0i)
  }

  /** The inverse transform of such a block, up to a factor 2^l. */
  function Inv(a: seq<u32>, l: nat, k: nat, igm: seq<u32>, p: u32, p0i: u32): (r: seq<u32>)
    ensures |r| == |a|
    decreases l
  {
    if l == 0 then a
    else
      var h := |a| / 2;
      InvButterfly(Inv(a[..h], l - 1, 2 * k, igm, p, p0i) + Inv(a[h..], l - 1, 2 * k + 1, igm, p, p0i),
                   At(igm, k), p, p0i)
  }

  /** The final division by 2^l. */
  function Unscale(a: seq<u32>, l: nat, p: u32, p0i: u32): (r: seq<u32>)
    requires 1 <= l <= 10
    ensures |r| == |a|
  {
    seq(|a|, i requires 0 <= i < |a| => MontyMul(a[i], Pow2(31 - l) % B32, p, p0i))
  }

  ghost predicate AllBelow(a: seq<u32>, p: int) {
    forall i :: 0 <= i < |a| ==> a[i] < p
  }

  lemma HalvesBelow(b: seq<u32>, h: nat, p: int)
    requires AllBelow(b, p) && h <= |b|
    ensures AllBelow(b[..h], p) && AllBelow(b[h..], p)
  {
  }

  lemma FwdButterflyBelow(b: seq<u32>, s: u32, p: u32, p0i: u32)
    requires Field(p, p0i) && AllBelow(b, p) && |b| % 2 == 0 && s < p
    ensures AllBelow(FwdButterfly(b, s, p, p0i), p)
  {
    hide Cong, MontyMul, Add, Sub, NegInverse;
    var h := |b| / 2;
    var r := FwdButterfly(b, s, p, p0i);
    forall i {:trigger r[i]} | 0 <= i < h
      ensures r[i] < p && r[i + h] < p
    {
      ProductFits(b[i + h], s, p);
      MontyMulSpec(b[i + h], s, p, p0i);
      AddSpec(b[i], MontyMul(b[i + h], s, p, p0i), p);
      SubSpec(b[i], MontyMul(b[i + h], s, p, p0i), p);
    }
    forall i | 0 <= i < |r|
      ensures r[i] < p
    {
      if i >= h { assert r[i - h] < p; assert r[(i - h) + h] < p; }
    }
  }

  lemma InvButterflyBelow(b: seq<u32>, s: u32, p: u32, p0i: u32)
    requires Field(p, p0i) && AllBelow(b, p) && |b| % 2 == 0 && s < p
    ensures AllBelow(InvButterfly(b, s, p, p0i), p)
  {
    hide Cong, MontyMul, Add, Sub, NegInverse;
    var h := |b| / 2;
    var r := InvButterfly(b, s, p, p0i);
    forall i {:trigger r[i]} | 0 <= i < h
      ensures r[i] < p && r[i + h] < p
    {
      AddSpec(b[i], b[i + h], p);
      SubSpec(b[i], b[i + h], p);
      ProductFits(Sub(b[i], b[i + h], p), s, p);
      MontyMulSpec(Sub(b[i], b[i + h], p), s, p, p0i);
    }
    forall i | 0 <= i < |r|
      ensures r[i] < p
    {
      if i >= h { assert r[i - h] < p; assert r[(i - h) + h] < p; }
    }
  }

  /** Node k, at the top of a subtree of depth l, lies inside a table for degree n. */
  ghost predicate InTree(l: nat, k: nat, n: nat) {
    1 <= k && (k + 1) * Pow2(l) <= 2 * n
  }

  lemma ChildrenInTree(l: nat, k: nat, n: nat)
    requires l > 0 && InTree(l, k, n)
    ensures k < n && InTree(l - 1, 2 * k, n) && InTree(l - 1, 2 * k + 1, n)
  {
    var m := Pow2(l - 1);
    assert Pow2(l) == 2 * m;
    assert (k + 1) * (2 * m) == (2 * k + 2) * m by { MulAssoc(k + 1, 2, m); }
    MulMono(2 * k + 1, 2 * k + 2, m);
    MulMono(1, m, 2 * k + 2);
  }

  lemma NodeReduced(gm: seq<u32>, n: nat, k: nat, p: u32, p0i: u32)
    requires RootTree(gm, n, p, p0i) && 1 <= k < n
    ensures At(gm, k) < p
  {
    hide Cong, Root, NodeVal;
  }

  lemma Pow2Half(l: nat)
    requires l > 0
    ensures Pow2(l) == 2 * Pow2(l - 1)
  {
  }

  lemma {:induction false} FwdBelow(f: seq<u32>, l: nat, k: nat, gm: seq<u32>, n: nat, p: u32, p0i: u32)
    requires Field(p, p0i) && RootTree(gm, n, p, p0i) && InTree(l, k, n)
    requires |f| == Pow2(l) && AllBelow(f, p)
    ensures AllBelow(Fwd(f, l, k, gm, p, p0i), p)
    decreases l
  {
    hide FwdButterfly, Field, InTree, RootTree, Pow2;
    if l > 0 {
      Pow2Half(l);
      ChildrenInTree(l, k, n);
      NodeReduced(gm, n, k, p, p0i);
      FwdButterflyBelow(f, At(gm, k), p, p0i);
      var b := FwdButterfly(f, At(gm, k), p, p0i);
      var h := Pow2(l - 1);
      FwdBelow(b[..h], l - 1, 2 * k, gm, n, p, p0i);
      FwdBelow(b[h..], l - 1, 2 * k + 1, gm, n, p, p0i);
    }
  }

  // ---------------------------------------------------------------------
  // Evaluation
  // ---------------------------------------------------------------------

  ghost function Eval(f: seq<int>, x: int): int {
    if |f| == 0 then 0 else f[0] + x * Eval(f[1..], x)
  }

  lemma {:induction false} EvalAppend(f: seq<int>, g: seq<int>, x: int)
    ensures Eval(f + g, x) == Eval(f, x) + Pow(x, |f|) * Eval(g, x)
  {
    if |f| == 0 {
      assert f + g == g;
    } else {
      assert (f + g)[1..] == f[1..] + g;
      EvalAppend(f[1..], g, x);
      var a, b, c := Eval(f[1..], x), Pow(x, |f| - 1), Eval(g, x);
      assert x * (a + b * c) == x * a + (x * b) * c by { MulAssoc(x, b, c); }
    }
  }

  lemma CombineAlgebra(a: int, b: int, c: int, l: int, h: int, s: int, x: int)
    ensures l + h * s + x * (b + s * c) == l + x * b + s * (h + x * c)
  {
    assert x * (b + s * c) == x * b + x * (s * c);
    assert x * (s * c) == s * (x * c) by { MulAssoc(x, s, c); MulAssoc(s, x, c); }
    assert s * (h + x * c) == s * h + s * (x * c);
  }

  /** Coefficient-wise congruence to lo + s*hi carries over to values. */
  lemma {:induction false} EvalCombine(r: seq<int>, lo: seq<int>, hi: seq<int>, s: int, x: int, p: int)
    requires p > 0 && |r| == |lo| == |hi|
    requires forall i :: 0 <= i < |r| ==> Cong(r[i], lo[i] + hi[i] * s, p)
    ensures Cong(Eval(r, x), Eval(lo, x) + s * Eval(hi, x), p)
  {
    hide Cong;
    if |r| == 0 {
      assert s * 0 == 0;
      CongRefl(0, p);
    } else {
      EvalCombine(r[1..], lo[1..], hi[1..], s, x, p);
      var a, b, c := Eval(r[1..], x), Eval(lo[1..], x), Eval(hi[1..], x);
      assert Cong(r[0], lo[0] + hi[0] * s, p);
      CombineStep(a, b, c, r[0], lo[0], hi[0], s, x, p);
    }
  }

  lemma CombineStep(a: int, b: int, c: int, r0: int, l0: int, h0: int, s: int, x: int, p: int)
    requires Cong(r0, l0 + h0 * s, p) && Cong(a, b + s * c, p)
    ensures Cong(r0 + x * a, l0 + x * b + s * (h0 + x * c), p)
  {
    hide Cong;
    CongScale(a, b + s * c, x, p);
    CongAdd(r0, l0 + h0 * s, x * a, x * (b + s * c), p);
    CombineAlgebra(a, b, c, l0, h0, s, x);
  }

  lemma ButterflySlot(x: u32, y: u32, s: u32, w: int, m: int, p: u32, p0i: u32)
    requires Field(p, p0i) && x < p && y < p && s < p && w == Plain(s, p, p0i) && m == y * w
    ensures Cong(Add(x, MontyMul(y, s, p, p0i), p), x + m, p)
    ensures Cong(Sub(x, MontyMul(y, s, p, p0i), p), x - m, p)
  {
    hide Cong, MontyMul, Add, Sub, Plain, Rep, NegInverse;
    PlainSpec(s, p, p0i);
    var z: u32 := MontyMul(y, s, p, p0i);
    RepMulMixed(y, s, w, p, p0i);
    AddSpec(x, z, p);
    SubSpec(x, z, p);
    CongRefl(x, p);
    CongAdd(x, x, z, m, p);
    CongSub(x, x, z, m, p);
    CongTrans(Add(x, z, p), x + z, x + m, p);
    CongTrans(Sub(x, z, p), x - z, x - m, p);
  }

  /** A butterfly at s reduces f modulo X^h - s on the left and X^h + s on the right. */
  lemma ButterflyCong(f: seq<u32>, s: u32, h: nat, p: u32, p0i: u32)
    requires Field(p, p0i) && AllBelow(f, p) && |f| == 2 * h && s < p
    ensures var r := FwdButterfly(f, s, p, p0i); var w := Plain(s, p, p0i);
      (forall i :: 0 <= i < h ==> Cong(r[..h][i], f[..h][i] + f[h..][i] * w, p)) &&
      (forall i :: 0 <= i < h ==> Cong(r[h..][i], f[..h][i] + f[h..][i] * (0 - w), p))
  {
    var r := FwdButterfly(f, s, p, p0i);
    var w: int := Plain(s, p, p0i);
    hide Cong, MontyMul, Add, Sub, Plain, Field;
    forall i | 0 <= i < h
      ensures Cong(r[..h][i], f[..h][i] + f[h..][i] * w, p)
    {
      var m := f[i + h] * w;
      assert f[h..][i] * w == m;
      ButterflySlot(f[i], f[i + h], s, w, m, p, p0i);
      assert r[i] == Add(f[i], MontyMul(f[i + h], s, p, p0i), p);
    }
    forall i | 0 <= i < h
      ensures Cong(r[h..][i], f[..h][i] + f[h..][i] * (0 - w), p)
    {
      var m := f[i + h] * w;
      assert f[h..][i] * (0 - w) == 0 - m;
      ButterflySlot(f[i], f[i + h], s, w, m, p, p0i);
      assert r[i + h] == Sub(f[i], MontyMul(f[i + h], s, p, p0i), p);
    }
  }

  ghost function Leaf(gm: seq<u32>, l: nat, k: nat, j: nat, p: u32, p0i: u32): int {
    NodeVal(gm, k * Pow2(l) + j, p, p0i)
  }

  lemma LeafChild(gm: seq<u32>, l: nat, k: nat, j: nat, p: u32, p0i: u32)
    requires l > 0
    ensures j < Pow2(l - 1) ==> Leaf(gm, l, k, j, p, p0i) == Leaf(gm, l - 1, 2 * k, j, p, p0i)
    ensures j >= Pow2(l - 1) ==> Leaf(gm, l, k, j, p, p0i) == Leaf(gm, l - 1, 2 * k + 1, j - Pow2(l - 1), p, p0i)
  {
    var m := Pow2(l - 1);
    assert k * Pow2(l) == (2 * k) * m by { MulAssoc(k, 2, m); }
    assert (2 * k + 1) * m == (2 * k) * m + m;
  }

  /** The value that leaf j takes, at half the block size, under the child it lies below. */
  ghost function Branch(gm: seq<u32>, l: nat, k: nat, j: nat, p: u32, p0i: u32): int
    requires l > 0
  {
    if j < Pow2(l - 1) then Root(gm, k, p, p0i) else -Root(gm, k, p, p0i)
  }

  lemma {:induction false} LeafBranch(gm: seq<u32>, n: nat, l: nat, k: nat, j: nat, p: u32, p0i: u32)
    requires l > 0 && Field(p, p0i) && RootTree(gm, n, p, p0i) && InTree(l, k, n) && j < Pow2(l)
    ensures Cong(Pow(Leaf(gm, l, k, j, p, p0i), Pow2(l - 1)), Branch(gm, l, k, j, p, p0i), p)
    decreases l, 0
  {
    hide Cong, Pow, Root, RootTree, InTree, Leaf, Field;
    ChildrenInTree(l, k, n);
    LeafChild(gm, l, k, j, p, p0i);
    var m := Pow2(l - 1);
    if j < m {
      LeafPower(gm, n, l - 1, 2 * k, j, p, p0i);
    } else {
      LeafPower(gm, n, l - 1, 2 * k + 1, j - m, p, p0i);
    }
    assert NodeVal(gm, 2 * k, p, p0i) == Root(gm, k, p, p0i);
    assert NodeVal(gm, 2 * k + 1, p, p0i) == -Root(gm, k, p, p0i);
  }

  lemma LeafPowerBase(gm: seq<u32>, k: nat, j: nat, p: u32, p0i: u32)
    requires Field(p, p0i) && j < Pow2(0)
    ensures Cong(Pow(Leaf(gm, 0, k, j, p, p0i), Pow2(0)), NodeVal(gm, k, p, p0i), p)
  {
    var x := Leaf(gm, 0, k, j, p, p0i);
    assert k * Pow2(0) + j == k;
    assert Pow(x, 1) == x * Pow(x, 0) == x;
    CongRefl(x, p);
  }

  lemma NodeSquare(gm: seq<u32>, n: nat, k: nat, v: int, p: u32, p0i: u32)
    requires RootTree(gm, n, p, p0i) && 1 <= k < n
    requires v == Root(gm, k, p, p0i) || v == 0 - Root(gm, k, p, p0i)
    ensures Cong(v * v, NodeVal(gm, k, p, p0i), p)
  {
    hide Cong, NodeVal, Root;
    assert v * v == Root(gm, k, p, p0i) * Root(gm, k, p, p0i);
  }

  /** A leaf below node k, raised to the size of the block, is the value of the node. */
  lemma {:induction false} LeafPower(gm: seq<u32>, n: nat, l: nat, k: nat, j: nat, p: u32, p0i: u32)
    requires Field(p, p0i) && RootTree(gm, n, p, p0i) && InTree(l, k, n) && j < Pow2(l)
    ensures Cong(Pow(Leaf(gm, l, k, j, p, p0i), Pow2(l)), NodeVal(gm, k, p, p0i), p)
    decreases l, 1
  {
    var x := Leaf(gm, l, k, j, p, p0i);
    if l == 0 {
      LeafPowerBase(gm, k, j, p, p0i);
    } else {
      var v := Branch(gm, l, k, j, p, p0i);
      assert v == Root(gm, k, p, p0i) || v == 0 - Root(gm, k, p, p0i);
      hide Cong, Pow, Pow2, NodeVal, Root, RootTree, InTree, Leaf, Field, Branch;
      ChildrenInTree(l, k, n);
      NodeSquare(gm, n, k, v, p, p0i);
      LeafBranch(gm, n, l, k, j, p, p0i);
      Pow2Half(l);
      var m := Pow2(l - 1);
      PowAdd(x, m, m);
      CongMul(Pow(x, m), v, Pow(x, m), v, p);
      CongTrans(Pow(x, Pow2(l)), v * v, NodeVal(gm, k, p, p0i), p);
    }
  }

  /** One step of the argument below: the block value at a leaf of the chosen half. */
  lemma EvalHalf(f: seq<u32>, r: seq<u32>, h: nat, w: int, x: int, p: u32)
    requires p > 0 && |f| == 2 * h && |r| == h
    requires forall i :: 0 <= i < h ==> Cong(r[i], f[..h][i] + f[h..][i] * w, p)
    requires Cong(Pow(x, h), w, p)
    ensures Cong(Eval(r, x), Eval(f, x), p)
  {
    hide Cong, Eval, Pow;
    EvalCombine(r, f[..h], f[h..], w, x, p);
    EvalAppend(f[..h], f[h..], x);
    assert f == f[..h] + f[h..];
    var a, b := Eval(f[..h], x), Eval(f[h..], x);
    CongScale(Pow(x, h), w, b, p);
    CongRefl(a, p);
    CongAdd(a, a, Pow(x, h) * b, w * b, p);
    CongSym(Eval(f, x), a + w * b, p);
    CongTrans(Eval(r, x), a + w * b, Eval(f, x), p);
  }

  lemma EvalConstant(c: int, x: int, p: int)
    requires p > 0
    ensures Cong(c, Eval([c], x), p)
  {
    assert Eval([c], x) == c + x * Eval([], x);
    CongRefl(c, p);
  }

  lemma RootIsPlain(gm: seq<u32>, k: nat, p: u32, p0i: u32)
    ensures Root(gm, k, p, p0i) == Plain(At(gm, k), p, p0i)
  {
  }

  lemma LeafBase(f: seq<u32>, k: nat, gm: seq<u32>, igm: seq<u32>, p: u32, p0i: u32)
    requires |f| == Pow2(0) && Field(p, p0i)
    ensures p > 0 && Pow2(0) == 1 && f == [f[0]]
    ensures Fwd(f, 0, k, gm, p, p0i) == f && Inv(f, 0, k, igm, p, p0i) == f
  {
  }

  lemma FwdSplit(f: seq<u32>, l: nat, k: nat, gm: seq<u32>, p: u32, p0i: u32)
    requires l > 0
    ensures var b := FwdButterfly(f, At(gm, k), p, p0i); var h := |f| / 2;
      Fwd(f, l, k, gm, p, p0i) == Fwd(b[..h], l - 1, 2 * k, gm, p, p0i) + Fwd(b[h..], l - 1, 2 * k + 1, gm, p, p0i)
  {
  }

  /** The half of a butterfly that slot j of the transform goes through. */
  ghost function Half(b: seq<u32>, h: nat, j: nat): seq<u32>
    requires h <= |b|
  {
    if j < h then b[..h] else b[h..]
  }

  /** Going down to a child keeps the value at every leaf below it. */
  lemma DescendEval(f: seq<u32>, l: nat, k: nat, gm: seq<u32>, n: nat, j: nat, p: u32, p0i: u32)
    requires l > 0 && Field(p, p0i) && RootTree(gm, n, p, p0i) && InTree(l, k, n)
    requires |f| == Pow2(l) && AllBelow(f, p) && j < Pow2(l)
    ensures var b := FwdButterfly(f, At(gm, k), p, p0i); var h := Pow2(l - 1);
      |f| == 2 * h && AllBelow(b[..h], p) && AllBelow(b[h..], p) &&
      Cong(Eval(Half(b, h, j), Leaf(gm, l, k, j, p, p0i)), Eval(f, Leaf(gm, l, k, j, p, p0i)), p)
  {
    hide Cong, FwdButterfly, Field, InTree, Plain, Leaf, Eval, Pow, RootTree, Pow2, NodeVal, AllBelow, At, Root;
    var x, h := Leaf(gm, l, k, j, p, p0i), Pow2(l - 1);
    Pow2Half(l);
    ChildrenInTree(l, k, n);
    NodeReduced(gm, n, k, p, p0i);
    LeafBranch(gm, n, l, k, j, p, p0i);
    var b := FwdButterfly(f, At(gm, k), p, p0i);
    FwdButterflyBelow(f, At(gm, k), p, p0i);
    HalvesBelow(b, h, p);
    RootIsPlain(gm, k, p, p0i);
    EvalBranch(f, At(gm, k), h, x, Branch(gm, l, k, j, p, p0i), p, p0i);
  }

  /** Slot j of the transform is the value of the polynomial at leaf j of the tree. */
  lemma {:induction false} FwdEvaluates(f: seq<u32>, l: nat, k: nat, gm: seq<u32>, n: nat, j: nat, p: u32, p0i: u32)
    requires Field(p, p0i) && RootTree(gm, n, p, p0i) && InTree(l, k, n)
    requires |f| == Pow2(l) && AllBelow(f, p) && j < Pow2(l)
    ensures Cong(Fwd(f, l, k, gm, p, p0i)[j], Eval(f, Leaf(gm, l, k, j, p, p0i)), p)
    decreases l
  {
    var x := Leaf(gm, l, k, j, p, p0i);
    hide Cong, FwdButterfly, Field, InTree, Leaf, Eval, RootTree, Pow2, Fwd, AllBelow, At;
    if l == 0 {
      LeafBase(f, k, gm, gm, p, p0i);
      EvalConstant(f[0], x, p);
    } else {
      var b := FwdButterfly(f, At(gm, k), p, p0i);
      var h := Pow2(l - 1);
      DescendEval(f, l, k, gm, n, j, p, p0i);
      ChildrenInTree(l, k, n);
      LeafChild(gm, l, k, j, p, p0i);
      FwdSplit(f, l, k, gm, p, p0i);
      if j < h {
        FwdEvaluates(b[..h], l - 1, 2 * k, gm, n, j, p, p0i);
        CongTrans(Fwd(b[..h], l - 1, 2 * k, gm, p, p0i)[j], Eval(b[..h], x), Eval(f, x), p);
      } else {
        FwdEvaluates(b[h..], l - 1, 2 * k + 1, gm, n, j - h, p, p0i);
        CongTrans(Fwd(b[h..], l - 1, 2 * k + 1, gm, p, p0i)[j - h], Eval(b[h..], x), Eval(f, x), p);
      }
    }
  }

  lemma EvalBranch(f: seq<u32>, s: u32, h: nat, x: int, v: int, p: u32, p0i: u32)
    requires Field(p, p0i) && AllBelow(f, p) && |f| == 2 * h && s < p && Cong(Pow(x, h), v, p)
    ensures v == Plain(s, p, p0i) ==> Cong(Eval(FwdButterfly(f, s, p, p0i)[..h], x), Eval(f, x), p)
    ensures v == 0 - Plain(s, p, p0i) ==> Cong(Eval(FwdButterfly(f, s, p, p0i)[h..], x), Eval(f, x), p)
  {
    hide Cong, FwdButterfly, NegInverse, Plain, Eval, Pow;
    ButterflyCong(f, s, h, p, p0i);
    var b := FwdButterfly(f, s, p, p0i);
    if v == Plain(s, p, p0i) {
      EvalHalf(f, b[..h], h, v, x, p);
    }
    if v == 0 - Plain(s, p, p0i) {
      EvalHalf(f, b[h..], h, v, x, p);
    }
  }

  // ---------------------------------------------------------------------
  // The inverse transform undoes the transform
  // ---------------------------------------------------------------------

  /** a is c times f, coefficient by coefficient. */
  ghost predicate Multiple(a: seq<u32>, c: int, f: seq<u32>, p: int)
  {
    |a| == |f| && forall i :: 0 <= i < |a| ==> a[i] < p && Cong(a[i], c * f[i], p)
  }

  /** The two inputs of an inverse butterfly, in terms of the two original coefficients. */
  lemma UndoInputs(x: u32, y: u32, c: int, f0: u32, f1: u32, x1: int, y1: int, w: int, p: u32)
    requires Cong(x, c * x1, p) && Cong(y, c * y1, p)
    requires Cong(x1, f0 + f1 * w, p) && Cong(y1, f0 + f1 * (0 - w), p)
    ensures Cong(x + y, (2 * c) * f0, p) && Cong(x - y, ((2 * c) * f1) * w, p)
  {
    UndoAlgebra(c, f0, f1, w);
    hide Cong;
    var u, v := f0 + f1 * w, f0 + f1 * (0 - w);
    CongScale(x1, u, c, p);
    CongScale(y1, v, c, p);
    CongTrans(x, c * x1, c * u, p);
    CongTrans(y, c * y1, c * v, p);
    CongAdd(x, c * u, y, c * v, p);
    CongSub(x, c * u, y, c * v, p);
  }

  lemma UndoProduct(d: int, e: int, w: int, v: int, r: int, p: u32)
    requires Cong(d, e * w, p) && Cong(w * v, 1, p) && Cong(r, d * v, p)
    ensures Cong(r, e, p)
  {
    hide Cong;
    CongScale(d, e * w, v, p);
    MulAssoc(e, w, v);
    CongScale(w * v, 1, e, p);
    CongTrans(d * v, e * (w * v), e, p);
    CongTrans(r, d * v, e, p);
  }

  lemma UndoSlots(x: u32, y: u32, c: int, f0: u32, f1: u32, x1: int, y1: int, w: int, s: u32, p: u32, p0i: u32)
    requires Field(p, p0i) && x < p && y < p && s < p
    requires Cong(x, c * x1, p) && Cong(y, c * y1, p)
    requires Cong(x1, f0 + f1 * w, p) && Cong(y1, f0 + f1 * (0 - w), p)
    requires Cong(w * Plain(s, p, p0i), 1, p)
    ensures Add(x, y, p) < p && Cong(Add(x, y, p), (2 * c) * f0, p)
    ensures MontyMul(Sub(x, y, p), s, p, p0i) < p
    ensures Cong(MontyMul(Sub(x, y, p), s, p, p0i), (2 * c) * f1, p)
  {
    hide Cong, MontyMul, Add, Sub, Plain, Rep, NegInverse;
    UndoInputs(x, y, c, f0, f1, x1, y1, w, p);
    var e0, e1 := (2 * c) * f0, (2 * c) * f1;
    AddSpec(x, y, p);
    SubSpec(x, y, p);
    var d: u32 := Sub(x, y, p);
    CongTrans(Add(x, y, p), x + y, e0, p);
    CongTrans(d, x - y, e1 * w, p);
    PlainSpec(s, p, p0i);
    RepMulMixed(d, s, Plain(s, p, p0i), p, p0i);
    UndoProduct(d, e1, w, Plain(s, p, p0i), MontyMul(d, s, p, p0i), p);
  }

  lemma UndoAlgebra(c: int, f0: int, f1: int, w: int)
    ensures c * (f0 + f1 * w) + c * (f0 + f1 * (0 - w)) == (2 * c) * f0
    ensures c * (f0 + f1 * w) - c * (f0 + f1 * (0 - w)) == ((2 * c) * f1) * w
  {
    var m := f1 * w;
    assert f1 * (0 - w) == -m;
    assert c * (f0 + m) == c * f0 + c * m;
    assert c * (f0 - m) == c * f0 - c * m;
    assert ((2 * c) * f1) * w == (2 * c) * m by { MulAssoc(2 * c, f1, w); }
  }

  lemma UndoButterfly(a: seq<u32>, c: int, f: seq<u32>, s: u32, si: u32, h: nat, p: u32, p0i: u32)
    requires Field(p, p0i) && |f| == 2 * h && AllBelow(f, p) && s < p && si < p
    requires Multiple(a, c, FwdButterfly(f, s, p, p0i), p)
    requires Cong(Plain(s, p, p0i) * Plain(si, p, p0i), 1, p)
    ensures Multiple(InvButterfly(a, si, p, p0i), 2 * c, f, p)
  {
    var b := FwdButterfly(f, s, p, p0i);
    var r := InvButterfly(a, si, p, p0i);
    hide Cong, FwdButterfly, MontyMul, Add, Sub, Plain, NegInverse;
    ButterflyCong(f, s, h, p, p0i);
    forall i {:trigger r[i]} | 0 <= i < h
      ensures r[i] < p && Cong(r[i], (2 * c) * f[i], p) && r[i + h] < p && Cong(r[i + h], (2 * c) * f[i + h], p)
    {
      assert b[..h][i] == b[i] && b[h..][i] == b[i + h] && f[..h][i] == f[i] && f[h..][i] == f[i + h];
      UndoSlots(a[i], a[i + h], c, f[i], f[i + h], b[i], b[i + h], Plain(s, p, p0i), si, p, p0i);
    }
    forall i | 0 <= i < |r|
      ensures r[i] < p && Cong(r[i], (2 * c) * f[i], p)
    {
      if i >= h { assert r[i - h] < p; assert r[(i - h) + h] < p; }
    }
  }

  lemma InverseReduced(gm: seq<u32>, igm: seq<u32>, n: nat, k: nat, p: u32, p0i: u32)
    requires Inverses(gm, igm, n, p, p0i) && 1 <= k < n
    ensures At(igm, k) < p && Cong(Plain(At(gm, k), p, p0i) * Plain(At(igm, k), p, p0i), 1, p)
  {
    hide Cong, Plain;
    assert Cong(Root(gm, k, p, p0i) * Root(igm, k, p, p0i), 1, p);
  }

  lemma InvJoin(t0: seq<u32>, t1: seq<u32>, l: nat, k: nat, igm: seq<u32>, p: u32, p0i: u32)
    requires l > 0 && |t0| == |t1|
    ensures Inv(t0 + t1, l, k, igm, p, p0i)
         == InvButterfly(Inv(t0, l - 1, 2 * k, igm, p, p0i) + Inv(t1, l - 1, 2 * k + 1, igm, p, p0i), At(igm, k), p, p0i)
  {
    hide InvButterfly;
    assert (t0 + t1)[..|t0|] == t0 && (t0 + t1)[|t0|..] == t1;
  }

  lemma MultipleOne(f: seq<u32>, p: int)
    requires p > 0 && AllBelow(f, p)
    ensures Multiple(f, 1, f, p)
  {
    forall i | 0 <= i < |f|
      ensures Cong(f[i], 1 * f[i], p)
    {
      CongRefl(f[i], p);
    }
  }

  /** Going back up from the two children. */
  lemma InvFwdStep(f: seq<u32>, t0: seq<u32>, t1: seq<u32>, l: nat, k: nat, gm: seq<u32>, igm: seq<u32>, n: nat, p: u32, p0i: u32)
    requires l > 0 && Field(p, p0i) && RootTree(gm, n, p, p0i) && Inverses(gm, igm, n, p, p0i) && InTree(l, k, n)
    requires |f| == Pow2(l) && AllBelow(f, p) && |t0| == |t1| == Pow2(l - 1)
    requires var b := FwdButterfly(f, At(gm, k), p, p0i); var h := Pow2(l - 1);
      |b| == 2 * h &&
      Multiple(Inv(t0, l - 1, 2 * k, igm, p, p0i), h, b[..h], p) &&
      Multiple(Inv(t1, l - 1, 2 * k + 1, igm, p, p0i), h, b[h..], p)
    ensures Multiple(Inv(t0 + t1, l, k, igm, p, p0i), Pow2(l), f, p)
  {
    InvJoin(t0, t1, l, k, igm, p, p0i);
    hide Cong, FwdButterfly, InvButterfly, Field, InTree, Plain, RootTree, Inverses, Pow2, Multiple, Inv, AllBelow, At;
    Pow2Half(l);
    ChildrenInTree(l, k, n);
    NodeReduced(gm, n, k, p, p0i);
    InverseReduced(gm, igm, n, k, p, p0i);
    var h := Pow2(l - 1);
    var a0, a1 := Inv(t0, l - 1, 2 * k, igm, p, p0i), Inv(t1, l - 1, 2 * k + 1, igm, p, p0i);
    JoinMultiples(a0, a1, h, FwdButterfly(f, At(gm, k), p, p0i), p);
    UndoButterfly(a0 + a1, h, f, At(gm, k), At(igm, k), h, p, p0i);
  }

  lemma {:induction false} InvFwd(f: seq<u32>, l: nat, k: nat, gm: seq<u32>, igm: seq<u32>, n: nat, p: u32, p0i: u32)
    requires Field(p, p0i) && RootTree(gm, n, p, p0i) && Inverses(gm, igm, n, p, p0i) && InTree(l, k, n)
    requires |f| == Pow2(l) && AllBelow(f, p)
    ensures Multiple(Inv(Fwd(f, l, k, gm, p, p0i), l, k, igm, p, p0i), Pow2(l), f, p)
    decreases l
  {
    hide FwdButterfly, Field, InTree, RootTree, Inverses, Pow2, Multiple, Fwd, Inv, AllBelow, At;
    if l == 0 {
      LeafBase(f, k, gm, igm, p, p0i);
      MultipleOne(f, p);
    } else {
      FwdSplit(f, l, k, gm, p, p0i);
      Pow2Half(l);
      ChildrenInTree(l, k, n);
      NodeReduced(gm, n, k, p, p0i);
      FwdButterflyBelow(f, At(gm, k), p, p0i);
      var b := FwdButterfly(f, At(gm, k), p, p0i);
      var h := Pow2(l - 1);
      HalvesBelow(b, h, p);
      InvFwd(b[..h], l - 1, 2 * k, gm, igm, n, p, p0i);
      InvFwd(b[h..], l - 1, 2 * k + 1, gm, igm, n, p, p0i);
      InvFwdStep(f, Fwd(b[..h], l - 1, 2 * k, gm, p, p0i), Fwd(b[h..], l - 1, 2 * k + 1, gm, p, p0i),
                 l, k, gm, igm, n, p, p0i);
    }
  }

  lemma JoinMultiples(a0: seq<u32>, a1: seq<u32>, c: int, b: seq<u32>, p: int)
    requires |a0| <= |b| && Multiple(a0, c, b[..|a0|], p) && Multiple(a1, c, b[|a0|..], p)
    ensures Multiple(a0 + a1, c, b, p)
  {
    hide Cong;
    forall i | 0 <= i < |b|
      ensures (a0 + a1)[i] < p && Cong((a0 + a1)[i], c * b[i], p)
    {
      if i < |a0| {
        assert b[..|a0|][i] == b[i] && Cong(a0[i], c * b[..|a0|][i], p);
      } else {
        assert b[|a0|..][i - |a0|] == b[i] && Cong(a1[i - |a0|], c * b[|a0|..][i - |a0|], p);
      }
    }
  }

  /** Multiplying by 2^(31-l) in Montgomery style divides by 2^l. */
  lemma UnscaleSlot(x: u32, y: u32, l: nat, p: u32, p0i: u32)
    requires Field(p, p0i) && 1 <= l <= 10 && x < p && y < p && Cong(x, Pow2(l) * y, p)
    ensures Pow2(31 - l) < B32 && MontyMul(x, Pow2(31 - l) % B32, p, p0i) == y
  {
    hide Cong, MontyMul, NegInverse, Pow2;
    var q := Pow2(31 - l);
    ScaleFactor(l);
    assert q % B32 == q;
    ProductFits(x, q, p);
    MontyMulSpec(x, q, p, p0i);
    var r := MontyMul(x, q, p, p0i);
    CongScale(x, Pow2(l) * y, q, p);
    ScaledBack(Pow2(l), y, q);
    CongTrans(B31 * r, x * q, B31 * y, p);
    CancelR(r, y, p, p0i);
    CongUnique(r, y, p);
  }

  lemma ScaleFactor(l: nat)
    requires 1 <= l <= 10
    ensures Pow2(l) * Pow2(31 - l) == B31 && 0 < Pow2(31 - l) < B31
  {
    hide Pow2;
    Pow2Add(l, 31 - l);
    Pow2IsPow(31);
    Pow2Values();
    Pow2Half(l);
    MulMono(2, Pow2(l), Pow2(31 - l));
  }

  lemma ScaledBack(a: int, y: int, q: int)
    requires a * q == B31
    ensures (a * y) * q == B31 * y
  {
    MulAssoc(q, a, y);
    assert q * (a * y) == (a * y) * q && q * a == a * q;
  }

  // ---------------------------------------------------------------------
  // The whole transforms, as the C functions compute them
  // ---------------------------------------------------------------------

  function NTT(f: seq<u32>, logn: nat, gm: seq<u32>, p: u32, p0i: u32): (r: seq<u32>)
    ensures |r| == |f|
  {
    Fwd(f, logn, 1, gm, p, p0i)
  }

  function INTT(a: seq<u32>, logn: nat, igm: seq<u32>, p: u32, p0i: u32): (r: seq<u32>)
    requires logn <= 10
    ensures |r| == |a|
  {
    if logn == 0 then a else Unscale(Inv(a, logn, 1, igm, p, p0i), logn, p, p0i)
  }

  lemma RootInTree(logn: nat)
    ensures InTree(logn, 1, Pow2(logn))
  {
  }

  lemma NTTBelow(f: seq<u32>, logn: nat, gm: seq<u32>, p: u32, p0i: u32)
    requires Field(p, p0i) && RootTree(gm, Pow2(logn), p, p0i) && |f| == Pow2(logn) && AllBelow(f, p)
    ensures AllBelow(NTT(f, logn, gm, p, p0i), p)
  {
    RootInTree(logn);
    FwdBelow(f, logn, 1, gm, Pow2(logn), p, p0i);
  }

  /** The transform depends only on the first 2^logn entries of its table. */
  lemma {:induction false} FwdPrefix(f: seq<u32>, l: nat, k: nat, gm: seq<u32>, hm: seq<u32>, n: nat, p: u32, p0i: u32)
    requires InTree(l, k, n) && forall j :: 0 <= j < n ==> At(gm, j) == At(hm, j)
    ensures Fwd(f, l, k, gm, p, p0i) == Fwd(f, l, k, hm, p, p0i)
    decreases l
  {
    hide FwdButterfly, At, InTree;
    if l > 0 {
      ChildrenInTree(l, k, n);
      assert 0 <= k by { NodePositive(l, k, n); }
      var b := FwdButterfly(f, At(gm, k), p, p0i);
      var h := |f| / 2;
      FwdPrefix(b[..h], l - 1, 2 * k, gm, hm, n, p, p0i);
      FwdPrefix(b[h..], l - 1, 2 * k + 1, gm, hm, n, p, p0i);
    }
  }

  lemma NodePositive(l: nat, k: nat, n: nat)
    requires InTree(l, k, n)
    ensures k >= 1
  {
  }

  lemma NTTPrefix(f: seq<u32>, logn: nat, gm: seq<u32>, hm: seq<u32>, p: u32, p0i: u32)
    requires |gm| >= Pow2(logn) && |hm| >= Pow2(logn) && gm[..Pow2(logn)] == hm[..Pow2(logn)]
    ensures NTT(f, logn, gm, p, p0i) == NTT(f, logn, hm, p, p0i)
  {
    hide Fwd, Pow2;
    RootInTree(logn);
    forall j | 0 <= j < Pow2(logn)
      ensures At(gm, j) == At(hm, j)
    {
      assert gm[j] == gm[..Pow2(logn)][j] == hm[..Pow2(logn)][j];
    }
    FwdPrefix(f, logn, 1, gm, hm, Pow2(logn), p, p0i);
  }

  /** The inverse transform undoes the transform, exactly. */
  lemma RoundTrip(f: seq<u32>, logn: nat, gm: seq<u32>, igm: seq<u32>, p: u32, p0i: u32)
    requires Field(p, p0i) && logn <= 10 && |f| == Pow2(logn) && AllBelow(f, p)
    requires RootTree(gm, Pow2(logn), p, p0i) && Inverses(gm, igm, Pow2(logn), p, p0i)
    ensures INTT(NTT(f, logn, gm, p, p0i), logn, igm, p, p0i) == f
  {
    if logn > 0 {
      RootInTree(logn);
      InvFwd(f, logn, 1, gm, igm, Pow2(logn), p, p0i);
      hide Cong, MontyMul, Fwd, Inv, NegInverse;
      var a := Inv(Fwd(f, logn, 1, gm, p, p0i), logn, 1, igm, p, p0i);
      forall i | 0 <= i < |f|
        ensures MontyMul(a[i], Pow2(31 - logn) % B32, p, p0i) == f[i]
      {
        UnscaleSlot(a[i], f[i], logn, p, p0i);
      }
    }
  }

  /** The point at which slot j of the transform evaluates its argument. */
  ghost function Point(gm: seq<u32>, logn: nat, j: nat, p: u32, p0i: u32): int {
    Leaf(gm, logn, 1, j, p, p0i)
  }

  /** Every evaluation point is a root of X^N + 1. */
  lemma PointIsRoot(gm: seq<u32>, logn: nat, j: nat, p: u32, p0i: u32)
    requires Field(p, p0i) && RootTree(gm, Pow2(logn), p, p0i) && j < Pow2(logn)
    ensures Cong(Pow(Point(gm, logn, j, p, p0i), Pow2(logn)), -1, p)
  {
    RootInTree(logn);
    LeafPower(gm, Pow2(logn), logn, 1, j, p, p0i);
  }

  lemma NTTEvaluates(f: seq<u32>, logn: nat, gm: seq<u32>, j: nat, p: u32, p0i: u32)
    requires Field(p, p0i) && RootTree(gm, Pow2(logn), p, p0i)
    requires |f| == Pow2(logn) && AllBelow(f, p) && j < Pow2(logn)
    ensures NTT(f, logn, gm, p, p0i)[j] < p
    ensures Cong(NTT(f, logn, gm, p, p0i)[j], Eval(f, Point(gm, logn, j, p, p0i)), p)
  {
    RootInTree(logn);
    NTTBelow(f, logn, gm, p, p0i);
    FwdEvaluates(f, logn, 1, gm, Pow2(logn), j, p, p0i);
  }
}
