/** The in-place loops modp_NTT2_ext and modp_iNTT2_ext, for any offset and stride. */
module NttLoops {
  import opened Words
  import opened Modp
  import opened ModpPowers
  import opened Twiddle
  import opened Ntt

  // ---------------------------------------------------------------------
  // Strided views of an array
  // ---------------------------------------------------------------------

  function Pos(off: nat, stride: nat, i: nat): nat {
    off + i * stride
  }

  ghost predicate Fits(len: nat, off: nat, stride: nat, n: nat) {
    stride >= 1 && forall i :: 0 <= i < n ==> Pos(off, stride, i) < len
  }

  /** The n elements a[off], a[off + stride], ... */
  ghost function View(a: seq<u32>, off: nat, stride: nat, n: nat): (r: seq<u32>)
    requires Fits(|a|, off, stride, n)
    ensures |r| == n
  {
    seq(n, i requires 0 <= i < n => a[Pos(off, stride, i)])
  }

  ghost predicate OnGrid(q: nat, off: nat, stride: nat, n: nat) {
    exists i :: 0 <= i < n && q == Pos(off, stride, i)
  }

  /** a and b agree everywhere outside the view. */
  ghost predicate SameElsewhere(a: seq<u32>, b: seq<u32>, off: nat, stride: nat, n: nat) {
    |a| == |b| && forall q :: 0 <= q < |a| && !OnGrid(q, off, stride, n) ==> a[q] == b[q]
  }

  lemma PosInjective(off: nat, stride: nat, i: nat, j: nat)
    requires stride >= 1 && Pos(off, stride, i) == Pos(off, stride, j)
    ensures i == j
  {
    if i < j {
      MulPos(j - i, stride);
    } else if j < i {
      MulPos(i - j, stride);
    }
  }

  method Store(a: array<u32>, off: nat, stride: nat, n: nat, i: nat, x: u32)
    requires Fits(a.Length, off, stride, n) && i < n
    modifies a
    ensures View(a[..], off, stride, n) == old(View(a[..], off, stride, n))[i := x]
    ensures SameElsewhere(a[..], old(a[..]), off, stride, n)
  {
    ghost var was := a[..];
    a[Pos(off, stride, i)] := x;
    forall j | 0 <= j < n && j != i
      ensures a[Pos(off, stride, j)] == was[Pos(off, stride, j)]
    {
      if Pos(off, stride, i) == Pos(off, stride, j) {
        PosInjective(off, stride, i, j);
      }
    }
    assert View(a[..], off, stride, n) == View(was, off, stride, n)[i := x];
  }

  lemma SameTrans(a: seq<u32>, b: seq<u32>, c: seq<u32>, off: nat, stride: nat, n: nat)
    requires SameElsewhere(a, b, off, stride, n) && SameElsewhere(b, c, off, stride, n)
    ensures SameElsewhere(a, c, off, stride, n)
  {
    hide OnGrid;
  }

  // ---------------------------------------------------------------------
  // The transforms level by level
  // ---------------------------------------------------------------------

  /** One pass of the outer loop: m blocks of size t, starting at table index k. */
  ghost function FwdLevel(a: seq<u32>, t: nat, m: nat, k: nat, gm: seq<u32>, p: u32, p0i: u32): (r: seq<u32>)
    ensures |r| == |a|
    decreases m
  {
    if m == 0 || |a| < t then a
    else FwdButterfly(a[..t], At(gm, k), p, p0i) + FwdLevel(a[t..], t, m - 1, k + 1, gm, p, p0i)
  }

  ghost function FwdLevels(a: seq<u32>, l: nat, m: nat, k: nat, gm: seq<u32>, p: u32, p0i: u32): (r: seq<u32>)
    ensures |r| == |a|
    decreases l
  {
    if l == 0 then a
    else FwdLevels(FwdLevel(a, Pow2(l), m, k, gm, p, p0i), l - 1, 2 * m, 2 * k, gm, p, p0i)
  }

  ghost function InvLevel(a: seq<u32>, t: nat, m: nat, k: nat, igm: seq<u32>, p: u32, p0i: u32): (r: seq<u32>)
    ensures |r| == |a|
    decreases m
  {
    if m == 0 || |a| < t then a
    else InvButterfly(a[..t], At(igm, k), p, p0i) + InvLevel(a[t..], t, m - 1, k + 1, igm, p, p0i)
  }

  ghost function InvLevels(a: seq<u32>, l: nat, m: nat, k: nat, igm: seq<u32>, p: u32, p0i: u32): (r: seq<u32>)
    ensures |r| == |a|
    decreases l
  {
    if l == 0 then a
    else InvLevel(InvLevels(a, l - 1, 2 * m, 2 * k, igm, p, p0i), Pow2(l), m, k, igm, p, p0i)
  }

  lemma FwdLevelNone(a: seq<u32>, t: nat, k: nat, gm: seq<u32>, p: u32, p0i: u32)
    ensures FwdLevel(a, t, 0, k, gm, p, p0i) == a
  {
  }

  lemma FwdLevelStep(a: seq<u32>, t: nat, m: nat, k: nat, gm: seq<u32>, p: u32, p0i: u32)
    requires m > 0 && |a| >= t
    ensures FwdLevel(a, t, m, k, gm, p, p0i)
         == FwdButterfly(a[..t], At(gm, k), p, p0i) + FwdLevel(a[t..], t, m - 1, k + 1, gm, p, p0i)
  {
  }

  lemma {:induction false} FwdLevelSplit(a: seq<u32>, b: seq<u32>, t: nat, m1: nat, m2: nat, k: nat, gm: seq<u32>, p: u32, p0i: u32)
    requires |a| == m1 * t && |b| == m2 * t
    ensures FwdLevel(a + b, t, m1 + m2, k, gm, p, p0i)
         == FwdLevel(a, t, m1, k, gm, p, p0i) + FwdLevel(b, t, m2, k + m1, gm, p, p0i)
    decreases m1
  {
    hide FwdButterfly, FwdLevel;
    if m1 == 0 {
      FwdLevelNone(a, t, k, gm, p, p0i);
      assert a + b == b;
    } else {
      BlockCount(m1, t);
      FwdLevelSplit(a[t..], b, t, m1 - 1, m2, k + 1, gm, p, p0i);
      FwdLevelStep(a, t, m1, k, gm, p, p0i);
      FwdLevelStep(a + b, t, m1 + m2, k, gm, p, p0i);
      assert (a + b)[..t] == a[..t] && (a + b)[t..] == a[t..] + b;
      JoinAssoc(FwdButterfly(a[..t], At(gm, k), p, p0i), FwdLevel(a[t..], t, m1 - 1, k + 1, gm, p, p0i),
                FwdLevel(b, t, m2, k + m1, gm, p, p0i));
    }
  }

  lemma BlockCount(m: nat, t: nat)
    requires m > 0
    ensures m * t - t == (m - 1) * t >= 0
  {
    MulMono(0, m - 1, t);
  }

  lemma JoinAssoc(a: seq<u32>, b: seq<u32>, c: seq<u32>)
    ensures a + (b + c) == (a + b) + c
  {
  }

  lemma InvLevelNone(a: seq<u32>, t: nat, k: nat, igm: seq<u32>, p: u32, p0i: u32)
    ensures InvLevel(a, t, 0, k, igm, p, p0i) == a
  {
  }

  lemma InvLevelStep(a: seq<u32>, t: nat, m: nat, k: nat, igm: seq<u32>, p: u32, p0i: u32)
    requires m > 0 && |a| >= t
    ensures InvLevel(a, t, m, k, igm, p, p0i)
         == InvButterfly(a[..t], At(igm, k), p, p0i) + InvLevel(a[t..], t, m - 1, k + 1, igm, p, p0i)
  {
  }

  lemma {:induction false} InvLevelSplit(a: seq<u32>, b: seq<u32>, t: nat, m1: nat, m2: nat, k: nat, igm: seq<u32>, p: u32, p0i: u32)
    requires |a| == m1 * t && |b| == m2 * t
    ensures InvLevel(a + b, t, m1 + m2, k, igm, p, p0i)
         == InvLevel(a, t, m1, k, igm, p, p0i) + InvLevel(b, t, m2, k + m1, igm, p, p0i)
    decreases m1
  {
    hide InvButterfly, InvLevel;
    if m1 == 0 {
      InvLevelNone(a, t, k, igm, p, p0i);
      assert a + b == b;
    } else {
      BlockCount(m1, t);
      InvLevelSplit(a[t..], b, t, m1 - 1, m2, k + 1, igm, p, p0i);
      InvLevelStep(a, t, m1, k, igm, p, p0i);
      InvLevelStep(a + b, t, m1 + m2, k, igm, p, p0i);
      assert (a + b)[..t] == a[..t] && (a + b)[t..] == a[t..] + b;
      JoinAssoc(InvButterfly(a[..t], At(igm, k), p, p0i), InvLevel(a[t..], t, m1 - 1, k + 1, igm, p, p0i),
                InvLevel(b, t, m2, k + m1, igm, p, p0i));
    }
  }

  lemma HalfBlocks(m: nat, l: nat)
    requires l > 0
    ensures m * Pow2(l) == (2 * m) * Pow2(l - 1)
  {
    MulAssoc(m, 2, Pow2(l - 1));
  }

  lemma {:induction false} FwdLevelsSplit(a: seq<u32>, b: seq<u32>, l: nat, m1: nat, m2: nat, k: nat, gm: seq<u32>, p: u32, p0i: u32)
    requires |a| == m1 * Pow2(l) && |b| == m2 * Pow2(l)
    ensures FwdLevels(a + b, l, m1 + m2, k, gm, p, p0i)
         == FwdLevels(a, l, m1, k, gm, p, p0i) + FwdLevels(b, l, m2, k + m1, gm, p, p0i)
    decreases l
  {
    hide FwdLevel, Pow2;
    if l > 0 {
      FwdLevelSplit(a, b, Pow2(l), m1, m2, k, gm, p, p0i);
      HalfBlocks(m1, l);
      HalfBlocks(m2, l);
      FwdLevelsSplit(FwdLevel(a, Pow2(l), m1, k, gm, p, p0i), FwdLevel(b, Pow2(l), m2, k + m1, gm, p, p0i),
                     l - 1, 2 * m1, 2 * m2, 2 * k, gm, p, p0i);
    }
  }

  lemma {:induction false} InvLevelsSplit(a: seq<u32>, b: seq<u32>, l: nat, m1: nat, m2: nat, k: nat, igm: seq<u32>, p: u32, p0i: u32)
    requires |a| == m1 * Pow2(l) && |b| == m2 * Pow2(l)
    ensures InvLevels(a + b, l, m1 + m2, k, igm, p, p0i)
         == InvLevels(a, l, m1, k, igm, p, p0i) + InvLevels(b, l, m2, k + m1, igm, p, p0i)
    decreases l
  {
    hide InvLevel, Pow2;
    if l > 0 {
      HalfBlocks(m1, l);
      HalfBlocks(m2, l);
      InvLevelsSplit(a, b, l - 1, 2 * m1, 2 * m2, 2 * k, igm, p, p0i);
      InvLevelSplit(InvLevels(a, l - 1, 2 * m1, 2 * k, igm, p, p0i), InvLevels(b, l - 1, 2 * m2, 2 * (k + m1), igm, p, p0i),
                    Pow2(l), m1, m2, k, igm, p, p0i);
    }
  }

  lemma FwdLevelOne(f: seq<u32>, k: nat, gm: seq<u32>, p: u32, p0i: u32)
    ensures FwdLevel(f, |f|, 1, k, gm, p, p0i) == FwdButterfly(f, At(gm, k), p, p0i)
  {
    hide FwdButterfly;
    assert f[..|f|] == f && f[|f|..] == [];
    assert FwdLevel(f[|f|..], |f|, 0, k + 1, gm, p, p0i) == [];
  }

  lemma InvLevelOne(f: seq<u32>, k: nat, igm: seq<u32>, p: u32, p0i: u32)
    ensures InvLevel(f, |f|, 1, k, igm, p, p0i) == InvButterfly(f, At(igm, k), p, p0i)
  {
    hide InvButterfly;
    assert f[..|f|] == f && f[|f|..] == [];
    assert InvLevel(f[|f|..], |f|, 0, k + 1, igm, p, p0i) == [];
  }

  /** Breadth first equals depth first. */
  lemma {:induction false} LevelsAreFwd(f: seq<u32>, l: nat, k: nat, gm: seq<u32>, p: u32, p0i: u32)
    requires |f| == Pow2(l)
    ensures FwdLevels(f, l, 1, k, gm, p, p0i) == Fwd(f, l, k, gm, p, p0i)
    decreases l
  {
    hide FwdLevel, FwdButterfly, Pow2;
    if l > 0 {
      Pow2Half(l);
      FwdLevelOne(f, k, gm, p, p0i);
      var b := FwdButterfly(f, At(gm, k), p, p0i);
      var h := Pow2(l - 1);
      assert b == b[..h] + b[h..];
      FwdLevelsSplit(b[..h], b[h..], l - 1, 1, 1, 2 * k, gm, p, p0i);
      LevelsAreFwd(b[..h], l - 1, 2 * k, gm, p, p0i);
      LevelsAreFwd(b[h..], l - 1, 2 * k + 1, gm, p, p0i);
    }
  }

  lemma {:induction false} LevelsAreInv(a: seq<u32>, l: nat, k: nat, igm: seq<u32>, p: u32, p0i: u32)
    requires |a| == Pow2(l)
    ensures InvLevels(a, l, 1, k, igm, p, p0i) == Inv(a, l, k, igm, p, p0i)
    decreases l
  {
    hide InvLevel, InvButterfly, Pow2;
    if l > 0 {
      Pow2Half(l);
      var h := Pow2(l - 1);
      assert a == a[..h] + a[h..];
      InvLevelsSplit(a[..h], a[h..], l - 1, 1, 1, 2 * k, igm, p, p0i);
      LevelsAreInv(a[..h], l - 1, 2 * k, igm, p, p0i);
      LevelsAreInv(a[h..], l - 1, 2 * k + 1, igm, p, p0i);
      InvLevelOne(InvLevels(a, l - 1, 2, 2 * k, igm, p, p0i), k, igm, p, p0i);
    }
  }

  // ---------------------------------------------------------------------
  // The innermost loops: one butterfly
  // ---------------------------------------------------------------------

  /** The block b with the first v pairs of slots replaced by those of r. */
  ghost predicate Partial(w: seq<u32>, b: seq<u32>, r: seq<u32>, h: nat, v: nat) {
    |w| == |b| == |r| == 2 * h && v <= h &&
    forall i :: 0 <= i < 2 * h ==> w[i] == if i < v || h <= i < h + v then r[i] else b[i]
  }

  lemma PartialNext(w: seq<u32>, b: seq<u32>, r: seq<u32>, h: nat, v: nat)
    requires Partial(w, b, r, h, v) && v < h
    ensures w[v] == b[v] && w[v + h] == b[v + h]
    ensures Partial(w[v := r[v]][v + h := r[v + h]], b, r, h, v + 1)
  {
  }

  lemma SplicePair(c: seq<u32>, a: seq<u32>, m: seq<u32>, b: seq<u32>, k: nat, i: nat, j: nat, x: u32, y: u32)
    requires i < |m| && j < |m| && |a| == k && c == a + m + b
    ensures |c| == |a| + |m| + |b| && c[k + i] == m[i] && c[k + j] == m[j]
    ensures c[k + i := x][k + j := y] == a + m[i := x][j := y] + b
  {
  }

  lemma PrefixAt(r: seq<u32>, w: seq<u32>, k: nat)
    requires |r| == |w| && k < |r|
    ensures (r[..k] + w[k..])[k] == w[k]
    ensures (r[..k] + w[k..])[k := r[k]] == r[..k + 1] + w[k + 1..]
  {
  }

  method Load(a: array<u32>, off: nat, stride: nat, n: nat, i: nat) returns (x: u32)
    requires Fits(a.Length, off, stride, n) && i < n
    ensures x == View(a[..], off, stride, n)[i]
  {
    x := a[Pos(off, stride, i)];
  }

  method StorePair(a: array<u32>, off: nat, stride: nat, n: nat, i: nat, j: nat, x: u32, y: u32)
    requires Fits(a.Length, off, stride, n) && i < n && j < n
    modifies a
    ensures View(a[..], off, stride, n) == old(View(a[..], off, stride, n))[i := x][j := y]
    ensures SameElsewhere(a[..], old(a[..]), off, stride, n)
  {
    hide View, SameElsewhere;
    Store(a, off, stride, n, i, x);
    ghost var h1: seq<u32> := a[..];
    Store(a, off, stride, n, j, y);
    SameTrans(a[..], h1, old(a[..]), off, stride, n);
  }

  lemma FwdSlots(b: seq<u32>, s: u32, v: nat, h: nat, p: u32, p0i: u32)
    requires |b| == 2 * h && v < h
    ensures var r := FwdButterfly(b, s, p, p0i); var y := MontyMul(b[v + h], s, p, p0i);
      r[v] == Add(b[v], y, p) && r[v + h] == Sub(b[v], y, p)
  {
    hide Add, Sub, MontyMul;
  }

  lemma InvSlots(b: seq<u32>, s: u32, v: nat, h: nat, p: u32, p0i: u32)
    requires |b| == 2 * h && v < h
    ensures var r := InvButterfly(b, s, p, p0i);
      r[v] == Add(b[v], b[v + h], p) && r[v + h] == MontyMul(Sub(b[v], b[v + h], p), s, p, p0i)
  {
    hide Add, Sub, MontyMul;
  }

  lemma PartialEnds(b: seq<u32>, r: seq<u32>, h: nat, m: seq<u32>)
    requires |b| == |r| == 2 * h
    ensures Partial(b, b, r, h, 0)
    ensures Partial(m, b, r, h, h) ==> m == r
  {
  }

  lemma SpliceWhole(w: seq<u32>, i: nat, k: nat)
    requires i + k <= |w|
    ensures w == w[..i] + w[i..i + k] + w[i + k..]
  {
  }

  method FwdBlock(a: array<u32>, off: nat, stride: nat, n: nat, v1: nat, ht: nat, s: u32, p: u32, p0i: u32)
    requires Fits(a.Length, off, stride, n) && v1 + 2 * ht <= n
    modifies a
    ensures var w := old(View(a[..], off, stride, n));
      View(a[..], off, stride, n) == w[..v1] + FwdButterfly(w[v1..v1 + 2 * ht], s, p, p0i) + w[v1 + 2 * ht..]
    ensures SameElsewhere(a[..], old(a[..]), off, stride, n)
  {
    hide Fits, View, FwdButterfly, Add, Sub, MontyMul, SameElsewhere, Partial;
    ghost var w: seq<u32> := View(a[..], off, stride, n);
    ghost var b: seq<u32> := w[v1..v1 + 2 * ht];
    ghost var r: seq<u32> := FwdButterfly(b, s, p, p0i);
    ghost var m: seq<u32> := b;
    SameRefl(a[..], off, stride, n);
    PartialEnds(b, r, ht, b);
    SpliceWhole(w, v1, 2 * ht);
    for v := 0 to ht
      invariant |m| == |r| == 2 * ht && Partial(m, b, r, ht, v)
      invariant View(a[..], off, stride, n) == w[..v1] + m + w[v1 + 2 * ht..]
      invariant SameElsewhere(a[..], old(a[..]), off, stride, n)
    {
      ghost var x0: seq<u32>, x1: seq<u32> := w[..v1], w[v1 + 2 * ht..];
      PartialNext(m, b, r, ht, v);
      FwdSlots(b, s, v, ht, p, p0i);
      SplicePair(View(a[..], off, stride, n), x0, m, x1, v1, v, v + ht, r[v], r[v + ht]);
      var x := Load(a, off, stride, n, v1 + v);
      var y := Load(a, off, stride, n, v1 + v + ht);
      y := MontyMul(y, s, p, p0i);
      ghost var h0: seq<u32> := a[..];
      StorePair(a, off, stride, n, v1 + v, v1 + v + ht, Add(x, y, p), Sub(x, y, p));
      SameTrans(a[..], h0, old(a[..]), off, stride, n);
      m := m[v := r[v]][v + ht := r[v + ht]];
    }
    PartialEnds(b, r, ht, m);
  }

  method InvBlock(a: array<u32>, off: nat, stride: nat, n: nat, v1: nat, t: nat, s: u32, p: u32, p0i: u32)
    requires Fits(a.Length, off, stride, n) && v1 + 2 * t <= n
    modifies a
    ensures var w := old(View(a[..], off, stride, n));
      View(a[..], off, stride, n) == w[..v1] + InvButterfly(w[v1..v1 + 2 * t], s, p, p0i) + w[v1 + 2 * t..]
    ensures SameElsewhere(a[..], old(a[..]), off, stride, n)
  {
    hide Fits, View, InvButterfly, Add, Sub, MontyMul, SameElsewhere, Partial;
    ghost var w: seq<u32> := View(a[..], off, stride, n);
    ghost var b: seq<u32> := w[v1..v1 + 2 * t];
    ghost var r: seq<u32> := InvButterfly(b, s, p, p0i);
    ghost var m: seq<u32> := b;
    SameRefl(a[..], off, stride, n);
    PartialEnds(b, r, t, b);
    SpliceWhole(w, v1, 2 * t);
    for v := 0 to t
      invariant |m| == |r| == 2 * t && Partial(m, b, r, t, v)
      invariant View(a[..], off, stride, n) == w[..v1] + m + w[v1 + 2 * t..]
      invariant SameElsewhere(a[..], old(a[..]), off, stride, n)
    {
      ghost var x0: seq<u32>, x1: seq<u32> := w[..v1], w[v1 + 2 * t..];
      PartialNext(m, b, r, t, v);
      InvSlots(b, s, v, t, p, p0i);
      SplicePair(View(a[..], off, stride, n), x0, m, x1, v1, v, v + t, r[v], r[v + t]);
      var x := Load(a, off, stride, n, v1 + v);
      var y := Load(a, off, stride, n, v1 + v + t);
      ghost var h0: seq<u32> := a[..];
      StorePair(a, off, stride, n, v1 + v, v1 + v + t, Add(x, y, p), MontyMul(Sub(x, y, p), s, p, p0i));
      SameTrans(a[..], h0, old(a[..]), off, stride, n);
      m := m[v := r[v]][v + t := r[v + t]];
    }
    PartialEnds(b, r, t, m);
  }

  // ---------------------------------------------------------------------
  // One level, then the whole transform
  // ---------------------------------------------------------------------

  /** The state after u of the m blocks of a level. */
  ghost predicate FwdPart(v: seq<u32>, w: seq<u32>, t: nat, u: nat, k: nat, gm: seq<u32>, p: u32, p0i: u32) {
    u * t <= |w| && v == FwdLevel(w[..u * t], t, u, k, gm, p, p0i) + w[u * t..]
  }

  lemma FwdPartNext(v: seq<u32>, w: seq<u32>, t: nat, u: nat, k: nat, gm: seq<u32>, p: u32, p0i: u32)
    requires FwdPart(v, w, t, u, k, gm, p, p0i) && u * t + t <= |w|
    ensures |v| == |w|
    ensures FwdPart(v[..u * t] + FwdButterfly(v[u * t..u * t + t], At(gm, k + u), p, p0i) + v[u * t + t..],
                    w, t, u + 1, k, gm, p, p0i)
  {
    hide FwdButterfly, FwdLevel;
    var c := u * t;
    assert (u + 1) * t == c + t;
    var b := w[c..c + t];
    assert v[c..c + t] == b && v[c + t..] == w[c + t..];
    assert v[..c] == FwdLevel(w[..c], t, u, k, gm, p, p0i);
    FwdLevelSplit(w[..c], b, t, u, 1, k, gm, p, p0i);
    FwdLevelOne(b, k + u, gm, p, p0i);
    assert w[..c] + b == w[..c + t];
  }

  ghost predicate InvPart(v: seq<u32>, w: seq<u32>, t: nat, u: nat, k: nat, igm: seq<u32>, p: u32, p0i: u32) {
    u * t <= |w| && v == InvLevel(w[..u * t], t, u, k, igm, p, p0i) + w[u * t..]
  }

  lemma InvPartNext(v: seq<u32>, w: seq<u32>, t: nat, u: nat, k: nat, igm: seq<u32>, p: u32, p0i: u32)
    requires InvPart(v, w, t, u, k, igm, p, p0i) && u * t + t <= |w|
    ensures |v| == |w|
    ensures InvPart(v[..u * t] + InvButterfly(v[u * t..u * t + t], At(igm, k + u), p, p0i) + v[u * t + t..],
                    w, t, u + 1, k, igm, p, p0i)
  {
    hide InvButterfly, InvLevel;
    var c := u * t;
    assert (u + 1) * t == c + t;
    var b := w[c..c + t];
    assert v[c..c + t] == b && v[c + t..] == w[c + t..];
    assert v[..c] == InvLevel(w[..c], t, u, k, igm, p, p0i);
    InvLevelSplit(w[..c], b, t, u, 1, k, igm, p, p0i);
    InvLevelOne(b, k + u, igm, p, p0i);
    assert w[..c] + b == w[..c + t];
  }

  lemma PartEnds(v: seq<u32>, w: seq<u32>, t: nat, m: nat, k: nat, gm: seq<u32>, p: u32, p0i: u32)
    requires |w| == m * t
    ensures FwdPart(w, w, t, 0, k, gm, p, p0i) && InvPart(w, w, t, 0, k, gm, p, p0i)
    ensures FwdPart(v, w, t, m, k, gm, p, p0i) ==> v == FwdLevel(w, t, m, k, gm, p, p0i)
    ensures InvPart(v, w, t, m, k, gm, p, p0i) ==> v == InvLevel(w, t, m, k, gm, p, p0i)
  {
    assert 0 * t == 0;
    assert w[..0] == [] && w[0..] == w;
    assert w[..m * t] == w && w[m * t..] == [];
  }

  lemma BlockInside(u: nat, m: nat, t: nat)
    requires u < m
    ensures u * t + t <= m * t
  {
    MulMono(u + 1, m, t);
  }

  method FwdOneLevel(a: array<u32>, off: nat, stride: nat, n: nat, gm: array<u32>, m: nat, ht: nat, p: u32, p0i: u32)
    requires a != gm && Fits(a.Length, off, stride, n) && n == m * (2 * ht) && 2 * m <= gm.Length
    modifies a
    ensures View(a[..], off, stride, n) == FwdLevel(old(View(a[..], off, stride, n)), 2 * ht, m, m, gm[..], p, p0i)
    ensures SameElsewhere(a[..], old(a[..]), off, stride, n)
  {
    hide Fits, SameElsewhere, View, FwdButterfly, FwdPart, FwdLevel;
    ghost var w: seq<u32> := View(a[..], off, stride, n);
    ghost var g: seq<u32> := gm[..];
    var t := 2 * ht;
    var u: nat, v1: nat := 0, 0;
    PartEnds(w, w, t, m, m, g, p, p0i);
    SameRefl(a[..], off, stride, n);
    while u < m
      invariant u <= m && v1 == u * t && gm[..] == g
      invariant FwdPart(View(a[..], off, stride, n), w, t, u, m, g, p, p0i)
      invariant SameElsewhere(a[..], old(a[..]), off, stride, n)
    {
      BlockInside(u, m, t);
      var s := gm[m + u];
      assert s == At(g, m + u);
      FwdPartNext(View(a[..], off, stride, n), w, t, u, m, g, p, p0i);
      ghost var before: seq<u32> := a[..];
      FwdBlock(a, off, stride, n, v1, ht, s, p, p0i);
      SameTrans(a[..], before, old(a[..]), off, stride, n);
      u := u + 1;
      v1 := v1 + t;
    }
    PartEnds(View(a[..], off, stride, n), w, t, m, m, g, p, p0i);
  }

  method InvOneLevel(a: array<u32>, off: nat, stride: nat, n: nat, igm: array<u32>, hm: nat, t: nat, p: u32, p0i: u32)
    requires a != igm && Fits(a.Length, off, stride, n) && n == hm * (2 * t) && 2 * hm <= igm.Length
    modifies a
    ensures View(a[..], off, stride, n) == InvLevel(old(View(a[..], off, stride, n)), 2 * t, hm, hm, igm[..], p, p0i)
    ensures SameElsewhere(a[..], old(a[..]), off, stride, n)
  {
    hide Fits, SameElsewhere, View, InvButterfly, InvPart, InvLevel;
    ghost var w: seq<u32> := View(a[..], off, stride, n);
    ghost var g: seq<u32> := igm[..];
    var dt := 2 * t;
    var u: nat, v1: nat := 0, 0;
    PartEnds(w, w, dt, hm, hm, g, p, p0i);
    SameRefl(a[..], off, stride, n);
    while u < hm
      invariant u <= hm && v1 == u * dt && igm[..] == g
      invariant InvPart(View(a[..], off, stride, n), w, dt, u, hm, g, p, p0i)
      invariant SameElsewhere(a[..], old(a[..]), off, stride, n)
    {
      BlockInside(u, hm, dt);
      var s := igm[hm + u];
      assert s == At(g, hm + u);
      InvPartNext(View(a[..], off, stride, n), w, dt, u, hm, g, p, p0i);
      ghost var before: seq<u32> := a[..];
      InvBlock(a, off, stride, n, v1, t, s, p, p0i);
      SameTrans(a[..], before, old(a[..]), off, stride, n);
      u := u + 1;
      v1 := v1 + dt;
    }
    PartEnds(View(a[..], off, stride, n), w, dt, hm, hm, g, p, p0i);
  }

  lemma SameRefl(a: seq<u32>, off: nat, stride: nat, n: nat)
    ensures SameElsewhere(a, a, off, stride, n)
  {
  }

  lemma Pow2Size(l: nat)
    ensures if l == 0 then Pow2(l) == 1 else Pow2(l) >= 2
  {
  }

  /** modp_NTT2_ext. */
  method NTT2Ext(a: array<u32>, off: nat, stride: nat, gm: array<u32>, logn: nat, p: u32, p0i: u32)
    requires a != gm && Fits(a.Length, off, stride, Pow2(logn)) && Pow2(logn) <= gm.Length
    modifies a
    ensures View(a[..], off, stride, Pow2(logn)) == NTT(old(View(a[..], off, stride, Pow2(logn))), logn, gm[..], p, p0i)
    ensures SameElsewhere(a[..], old(a[..]), off, stride, Pow2(logn))
  {
    hide Fits, SameElsewhere, View, FwdLevel, Fwd, Pow2;
    var n := Pow2(logn);
    ghost var w: seq<u32> := View(a[..], off, stride, n);
    LevelsAreFwd(w, logn, 1, gm[..], p, p0i);
    SameRefl(a[..], off, stride, n);
    if logn == 0 {
      return;
    }
    var t: nat, m: nat := n, 1;
    ghost var l: nat := logn;
    SmallestPower();
    while m < n
      invariant l <= logn && t == Pow2(l) && m == Pow2(logn - l) && gm[..] == old(gm[..])
      invariant FwdLevels(View(a[..], off, stride, n), l, m, m, gm[..], p, p0i) == NTT(w, logn, gm[..], p, p0i)
      invariant SameElsewhere(a[..], old(a[..]), off, stride, n)
      decreases n - m
    {
      var ht := t / 2;
      NextLevel(logn, l, m, t, ht);
      ghost var before: seq<u32> := a[..];
      FwdOneLevel(a, off, stride, n, gm, m, ht, p, p0i);
      SameTrans(a[..], before, old(a[..]), off, stride, n);
      t := ht;
      m := 2 * m;
      l := l - 1;
    }
    LastLevel(logn, l, m);
  }

  /** The sizes at the next level down. */
  lemma NextLevel(logn: nat, l: nat, m: nat, t: nat, ht: nat)
    requires l <= logn && m == Pow2(logn - l) < Pow2(logn) && t == Pow2(l) && ht == t / 2
    ensures l > 0 && t == 2 * ht && Pow2(logn) == m * (2 * ht) && 2 * m <= Pow2(logn)
    ensures ht == Pow2(l - 1) && 2 * m == Pow2(logn - (l - 1))
  {
    hide Pow2;
    Pow2Size(l);
    SmallestPower();
    Pow2Add(logn - l, l);
    Pow2Double(l);
    Pow2Double(logn - (l - 1));
    SplitSizes(m, ht);
  }

  lemma Pow2Double(l: int)
    requires l > 0
    ensures Pow2(l) == 2 * Pow2(l - 1)
  {
  }

  lemma SplitSizes(m: nat, ht: nat)
    requires ht > 0
    ensures m * (2 * ht) == (2 * m) * ht && 2 * m <= (2 * m) * ht
  {
    MulAssoc(m, 2, ht);
    MulMono(1, ht, 2 * m);
  }

  lemma LastLevel(logn: nat, l: nat, m: nat)
    requires l <= logn && m == Pow2(logn - l) >= Pow2(logn)
    ensures l == 0
  {
    hide Pow2;
    Pow2Size(l);
    Pow2Add(logn - l, l);
    if l > 0 {
      MulMono(2, Pow2(l), m);
      assert false;
    }
  }

  lemma UnscaleAt(w: seq<u32>, logn: nat, k: nat, p: u32, p0i: u32)
    requires 1 <= logn <= 10 && k < |w|
    ensures Unscale(w, logn, p, p0i)[k] == MontyMul(w[k], Pow2(31 - logn) % B32, p, p0i)
  {
    hide MontyMul, Pow2;
  }

  /** The loop that divides every coefficient by n. */
  method UnscaleLoop(a: array<u32>, off: nat, stride: nat, logn: nat, p: u32, p0i: u32)
    requires 1 <= logn <= 10 && Fits(a.Length, off, stride, Pow2(logn))
    modifies a
    ensures View(a[..], off, stride, Pow2(logn)) == Unscale(old(View(a[..], off, stride, Pow2(logn))), logn, p, p0i)
    ensures SameElsewhere(a[..], old(a[..]), off, stride, Pow2(logn))
  {
    hide Fits, View, MontyMul, SameElsewhere, Pow2, Unscale;
    var n := Pow2(logn);
    ghost var w: seq<u32> := View(a[..], off, stride, n);
    ghost var r: seq<u32> := Unscale(w, logn, p, p0i);
    var ni: u32 := Pow2(31 - logn) % B32;
    assert r[..0] + w[0..] == w;
    SameRefl(a[..], off, stride, n);
    for k := 0 to n
      invariant View(a[..], off, stride, n) == r[..k] + w[k..]
      invariant SameElsewhere(a[..], old(a[..]), off, stride, n)
    {
      PrefixAt(r, w, k);
      ghost var h0: seq<u32> := a[..];
      var x := Load(a, off, stride, n, k);
      UnscaleAt(w, logn, k, p, p0i);
      Store(a, off, stride, n, k, MontyMul(x, ni, p, p0i));
      SameTrans(a[..], h0, old(a[..]), off, stride, n);
    }
    assert r[..n] + w[n..] == r;
  }

  /** modp_iNTT2_ext. */
  method INTT2Ext(a: array<u32>, off: nat, stride: nat, igm: array<u32>, logn: nat, p: u32, p0i: u32)
    requires a != igm && logn <= 10 && Fits(a.Length, off, stride, Pow2(logn)) && Pow2(logn) <= igm.Length
    modifies a
    ensures View(a[..], off, stride, Pow2(logn)) == INTT(old(View(a[..], off, stride, Pow2(logn))), logn, igm[..], p, p0i)
    ensures SameElsewhere(a[..], old(a[..]), off, stride, Pow2(logn))
  {
    hide Fits, SameElsewhere, View, InvLevel, Inv, Unscale, Pow2;
    var n := Pow2(logn);
    ghost var w: seq<u32> := View(a[..], off, stride, n);
    LevelsAreInv(w, logn, 1, igm[..], p, p0i);
    SameRefl(a[..], off, stride, n);
    if logn == 0 {
      return;
    }
    var t: nat, m: nat := 1, n;
    ghost var l: nat := 0;
    SmallestPower();
    while m > 1
      invariant l <= logn && t == Pow2(l) && m == Pow2(logn - l) && igm[..] == old(igm[..])
      invariant View(a[..], off, stride, n) == InvLevels(w, l, m, m, igm[..], p, p0i)
      invariant SameElsewhere(a[..], old(a[..]), off, stride, n)
      decreases m
    {
      var hm := m / 2;
      HalveLevel(logn, l, m, t, hm);
      ghost var before: seq<u32> := a[..];
      InvOneLevel(a, off, stride, n, igm, hm, t, p, p0i);
      SameTrans(a[..], before, old(a[..]), off, stride, n);
      t := 2 * t;
      m := hm;
      l := l + 1;
    }
    Pow2Size(logn - l);
    ghost var before: seq<u32> := a[..];
    UnscaleLoop(a, off, stride, logn, p, p0i);
    SameTrans(a[..], before, old(a[..]), off, stride, n);
  }

  lemma SmallestPower()
    ensures Pow2(0) == 1
  {
  }

  /** The sizes at the next level up. */
  lemma HalveLevel(logn: nat, l: nat, m: nat, t: nat, hm: nat)
    requires l <= logn && m == Pow2(logn - l) > 1 && t == Pow2(l) && hm == m / 2
    ensures l < logn && m == 2 * hm && 2 * hm <= Pow2(logn) && Pow2(logn) == hm * (2 * t)
    ensures 2 * t == Pow2(l + 1) && hm == Pow2(logn - (l + 1))
  {
    hide Pow2;
    SmallestPower();
    Pow2Double(logn - l);
    Pow2Double(l + 1);
    Pow2Add(logn - l, l);
    MulAssoc(hm, 2, t);
    assert hm * 2 == 2 * hm;
    MulMono(1, t, m);
  }
}
