/** The roots of unity used by the NTT: modp_mkgm2 of keygen.c. */
module Twiddle {
  import opened Words
  import opened Congruence
  import opened Modp
  import opened ModpPowers

  // ---------------------------------------------------------------------
  // Bit reversal
  // ---------------------------------------------------------------------

  /** The l-bit reversal of v; the REV10 table holds Rev(10, v) at index v. */
  function Rev(l: nat, v: nat): nat {
    if l == 0 then 0 else (v % 2) * Pow2(l - 1) + Rev(l - 1, v / 2)
  }

  lemma {:induction false} RevBound(l: nat, v: nat)
    ensures Rev(l, v) < Pow2(l)
  {
    hide Pow2;
    if l > 0 {
      RevBound(l - 1, v / 2);
      var q := Pow2(l - 1);
      assert Rev(l, v) == (v % 2) * q + Rev(l - 1, v / 2);
      BitTimes(v % 2, q);
      DoublePow(l);
    } else {
      DoublePow(0);
    }
  }

  lemma BitTimes(b: nat, q: nat)
    requires b < 2
    ensures b * q <= q
  {
  }

  lemma DoublePow(l: nat)
    ensures l > 0 ==> Pow2(l) == 2 * Pow2(l - 1)
    ensures Pow2(0) == 1
  {
  }

  /** The top bit of the argument becomes the bottom bit of the result. */
  lemma {:induction false} RevTop(l: nat, b: nat, w: nat)
    requires l > 0 && b < 2 && w < Pow2(l - 1)
    ensures Rev(l, b * Pow2(l - 1) + w) == 2 * Rev(l - 1, w) + b
  {
    hide Pow2;
    var v := b * Pow2(l - 1) + w;
    DoublePow(l - 1);
    assert Rev(l, v) == (v % 2) * Pow2(l - 1) + Rev(l - 1, v / 2);
    if l == 1 {
      assert v == b && Rev(0, v / 2) == 0 && Rev(0, w) == 0;
    } else {
      var h := Pow2(l - 2);
      TopHalf(b, h, w);
      RevTop(l - 1, b, w / 2);
      assert Rev(l - 1, w) == (w % 2) * h + Rev(l - 2, w / 2);
      TwiceBit(w % 2, h);
    }
  }

  lemma TopHalf(b: nat, h: nat, w: nat)
    requires w < 2 * h
    ensures b * (2 * h) == 2 * (b * h) && (b * (2 * h) + w) % 2 == w % 2 && (b * (2 * h) + w) / 2 == b * h + w / 2 && w / 2 < h
  {
    MulAssoc(b, 2, h);
    MulAssoc(2, b, h);
  }

  lemma TwiceBit(b: int, h: int)
    ensures b * (2 * h) == 2 * (b * h)
  {
    MulAssoc(b, 2, h);
    MulAssoc(2, b, h);
  }

  lemma {:induction false} RevInvolution(l: nat, v: nat)
    requires v < Pow2(l)
    ensures Rev(l, Rev(l, v)) == v
  {
    if l > 0 {
      RevInvolution(l - 1, v / 2);
      RevBound(l - 1, v / 2);
      RevTop(l, v % 2, Rev(l - 1, v / 2));
    }
  }

  /** Shifting the index left drops to a shorter reversal: REV10[u << k]. */
  lemma {:induction false} RevShift(l: nat, k: nat, u: nat)
    ensures Rev(l + k, u * Pow2(k)) == Rev(l, u)
    decreases k
  {
    hide Pow2;
    DoublePow(k);
    if k == 0 {
      assert u * 1 == u;
    } else {
      var w := u * Pow2(k - 1);
      TwiceBit(u, Pow2(k - 1));
      RevShift(l, k - 1, u);
      RevOfEven(l + k, w);
    }
  }

  lemma RevOfEven(l: nat, w: nat)
    requires l > 0
    ensures Rev(l, 2 * w) == Rev(l - 1, w)
  {
    hide Pow2;
    assert (2 * w) % 2 == 0 && (2 * w) / 2 == w;
    assert 0 * Pow2(l - 1) == 0;
  }

  // ---------------------------------------------------------------------
  // The table, as a tree of square roots of -1
  // ---------------------------------------------------------------------

  /** Entry k of a table, zero when k is outside it. */
  function At(gm: seq<u32>, k: nat): u32 {
    if k < |gm| then gm[k] else 0
  }

  ghost function Root(gm: seq<u32>, k: nat, p: u32, p0i: u32): int {
    Plain(At(gm, k), p, p0i)
  }

  /**
   * Node k of the tree stands for the factor X^t - NodeVal(k) of X^N + 1: node 1 is the
   * whole, and the children of k take the two square roots of its value.
   */
  ghost function NodeVal(gm: seq<u32>, k: nat, p: u32, p0i: u32): int {
    if k < 2 then -1
    else if k % 2 == 0 then Root(gm, k / 2, p, p0i)
    else -Root(gm, k / 2, p, p0i)
  }

  /** Every entry is reduced, and its square is the value of its node. */
  ghost predicate RootTree(gm: seq<u32>, n: nat, p: u32, p0i: u32)
  {
    forall k :: 1 <= k < n ==>
      At(gm, k) < p && Cong(Root(gm, k, p, p0i) * Root(gm, k, p, p0i), NodeVal(gm, k, p, p0i), p)
  }

  /** The entries of igm are the inverses of those of gm. */
  ghost predicate Inverses(gm: seq<u32>, igm: seq<u32>, n: nat, p: u32, p0i: u32)
  {
    forall k :: 1 <= k < n ==>
      At(igm, k) < p && Cong(Root(gm, k, p, p0i) * Root(igm, k, p, p0i), 1, p)
  }

  /** gm[k] represents g^Rev(k). */
  ghost predicate Powers(gm: seq<u32>, l: nat, g: int, p: u32)
  {
    |gm| >= Pow2(l) &&
    forall k :: 0 <= k < Pow2(l) ==> gm[k] < p && Rep(gm[k], Pow(g, Rev(l, k)), p)
  }

  lemma RootPower(gm: seq<u32>, l: nat, g: int, k: nat, p: u32, p0i: u32)
    requires Field(p, p0i) && Powers(gm, l, g, p) && k < Pow2(l)
    ensures At(gm, k) < p && Cong(Root(gm, k, p, p0i), Pow(g, Rev(l, k)), p)
  {
    hide Rep, Plain, NegInverse, Rev, Pow, Cong;
    PlainSpec(gm[k], p, p0i);
    RepUnique(gm[k], Plain(gm[k], p, p0i), Pow(g, Rev(l, k)), p, p0i);
  }

  lemma RevChild(l: nat, j: nat, b: nat)
    requires l > 0 && b < 2 && 2 * j + b < Pow2(l)
    ensures j < Pow2(l - 1) && 2 * Rev(l, 2 * j + b) == b * Pow2(l) + Rev(l, j)
  {
    assert (2 * j + b) / 2 == j && (2 * j + b) % 2 == b;
    RevTop(l, 0, j);
    assert 0 * Pow2(l - 1) + j == j;
  }

  /** Powers of a 2N-th root of unity in bit-reversed order form a tree of square roots. */
  lemma PowersFormTree(gm: seq<u32>, l: nat, g: int, p: u32, p0i: u32)
    requires Field(p, p0i) && Powers(gm, l, g, p)
    requires Cong(Pow(g, Pow2(l)), -1, p)
    ensures RootTree(gm, Pow2(l), p, p0i)
  {
    forall k | 1 <= k < Pow2(l)
      ensures At(gm, k) < p && Cong(Root(gm, k, p, p0i) * Root(gm, k, p, p0i), NodeVal(gm, k, p, p0i), p)
    {
      RootPower(gm, l, g, k, p, p0i);
      SquareIsNode(gm, l, g, k, p, p0i);
    }
  }

  /** g^Rev(l, k), squared, in terms of the parent's exponent. */
  lemma SquareOfChild(l: nat, g: int, j: nat, b: nat)
    requires l > 0 && b < 2 && 2 * j + b < Pow2(l)
    ensures var e := Rev(l, 2 * j + b);
      Pow(g, e) * Pow(g, e) == (if b == 0 then 1 else Pow(g, Pow2(l))) * Pow(g, Rev(l, j))
  {
    assert Pow(g, 0) == 1;
    hide Rev, Pow, Pow2;
    RevChild(l, j, b);
    var e := Rev(l, 2 * j + b);
    PowAdd(g, e, e);
    if b == 1 {
      PowAdd(g, Pow2(l), Rev(l, j));
    }
  }

  lemma SquareCong(r: int, x: int, c: int, h: int, s: int, y: int, p: int)
    requires Cong(r, x, p) && Cong(h, c, p) && Cong(s, y, p) && x * x == h * y
    ensures Cong(r * r, c * s, p)
  {
    hide Cong;
    CongMul(r, x, r, x, p);
    CongSym(s, y, p);
    CongMul(h, c, y, s, p);
    CongTrans(r * r, h * y, c * s, p);
  }

  lemma SquareIsNode(gm: seq<u32>, l: nat, g: int, k: nat, p: u32, p0i: u32)
    requires Field(p, p0i) && Powers(gm, l, g, p) && 1 <= k < Pow2(l)
    requires Cong(Pow(g, Pow2(l)), -1, p)
    ensures Cong(Root(gm, k, p, p0i) * Root(gm, k, p, p0i), NodeVal(gm, k, p, p0i), p)
  {
    assert Pow2(0) == 1;
    assert Pow(g, 0) == 1;
    hide Rev, Powers, Pow, Pow2, Root, Cong, NegInverse;
    RootPower(gm, l, g, k, p, p0i);
    var j, b := k / 2, k % 2;
    SquareOfChild(l, g, j, b);
    var x, y := Pow(g, Rev(l, k)), Pow(g, Rev(l, j));
    CongRefl(1, p);
    if k == 1 {
      RevZero(l);
      SquareCong(Root(gm, k, p, p0i), x, -1, Pow(g, Pow2(l)), 1, y, p);
    } else {
      RootPower(gm, l, g, j, p, p0i);
      var s := Root(gm, j, p, p0i);
      if b == 0 {
        SquareCong(Root(gm, k, p, p0i), x, 1, 1, s, y, p);
      } else {
        SquareCong(Root(gm, k, p, p0i), x, -1, Pow(g, Pow2(l)), s, y, p);
      }
    }
  }

  lemma {:induction false} RevZero(l: nat)
    ensures Rev(l, 0) == 0
  {
    if l > 0 {
      RevZero(l - 1);
    }
  }

  lemma PowersInverse(gm: seq<u32>, igm: seq<u32>, l: nat, g: int, ig: int, p: u32, p0i: u32)
    requires Field(p, p0i) && Powers(gm, l, g, p) && Powers(igm, l, ig, p)
    requires Cong(g * ig, 1, p)
    ensures Inverses(gm, igm, Pow2(l), p, p0i)
  {
    forall k | 1 <= k < Pow2(l)
      ensures At(igm, k) < p && Cong(Root(gm, k, p, p0i) * Root(igm, k, p, p0i), 1, p)
    {
      RootPower(gm, l, g, k, p, p0i);
      RootPower(igm, l, ig, k, p, p0i);
      hide Cong, Root, Plain, Rev, Powers, Pow, Field, Pow2;
      var e := Rev(l, k);
      CongMul(Root(gm, k, p, p0i), Pow(g, e), Root(igm, k, p, p0i), Pow(ig, e), p);
      PowProduct(g, ig, e);
      CongPow(g * ig, 1, e, p);
      PowOne(e);
      CongTrans(Root(gm, k, p, p0i) * Root(igm, k, p, p0i), Pow(g * ig, e), 1, p);
    }
  }

  // ---------------------------------------------------------------------
  // modp_mkgm2
  // ---------------------------------------------------------------------

  /** An entry of the PRIMES table: p = 1 mod 2048 and g^1024 = -1. */
  ghost predicate NttPrime(p: u32, g: u32) {
    Modulus(p) && p % 2048 == 1 && g < p && Cong(Pow(g, 1024), -1, p)
  }

  /** The order of a 2N-th root divides p - 1, so Fermat's equation holds for it. */
  lemma RootFermat(g: int, l: nat, p: u32)
    requires Modulus(p) && p % 2048 == 1 && l <= 10
    requires Cong(Pow(g, Pow2(l)), -1, p)
    ensures Cong(Pow(g, p - 1), 1, p)
  {
    hide Cong, Pow, Pow2, Modulus;
    var n, c := Pow2(l), Pow2(10 - l);
    var d := (p - 1) / 2048;
    var m := c * d;
    Pow2Add(l, 10 - l);
    Pow2Ten();
    MulMono(0, c, d);
    OrderSplits(n, c, d);
    assert p - 1 == 2048 * d;
    PowMul(g, n, 2);
    PowTwo(Pow(g, n));
    PowMul(g, n * 2, m);
    CongMul(Pow(g, n), -1, Pow(g, n), -1, p);
    CongPow(Pow(g, n * 2), 1, m, p);
    PowOne(m);
  }

  lemma OrderSplits(n: int, c: int, d: int)
    requires n * c == 1024
    ensures (n * 2) * (c * d) == 2048 * d
  {
    MulAssoc(n * 2, c, d);
    assert (n * 2) * c == 2 * (n * c);
  }

  lemma Pow2Ten()
    ensures Pow2(10) == 1024
  {
  }

  lemma PowTwo(x: int)
    ensures Pow(x, 2) == x * x
  {
    assert Pow(x, 1) == x * Pow(x, 0);
  }

  /** gm[u] and igm[u] are already in place for the first `count` exponents. */
  ghost predicate Filled(gm: seq<u32>, l: nat, g: int, count: nat, p: u32)
  {
    |gm| >= Pow2(l) &&
    forall u :: 0 <= u < count ==>
      Rev(l, u) < |gm| && gm[Rev(l, u)] < p && Rep(gm[Rev(l, u)], Pow(g, u), p)
  }

  lemma FilledAll(gm: seq<u32>, l: nat, g: int, p: u32)
    requires Filled(gm, l, g, Pow2(l), p)
    ensures Powers(gm, l, g, p)
  {
    hide Rep, Pow;
    forall k | 0 <= k < Pow2(l)
      ensures gm[k] < p && Rep(gm[k], Pow(g, Rev(l, k)), p)
    {
      RevBound(l, k);
      RevInvolution(l, k);
      assert Rev(l, Rev(l, k)) == k;
    }
  }

  lemma FilledNext(gm: seq<u32>, l: nat, g: int, count: nat, x: u32, p: u32)
    requires count < Pow2(l) && Filled(gm, l, g, count, p)
    requires x < p && Rep(x, Pow(g, count), p)
    ensures Rev(l, count) < |gm| && Filled(gm[Rev(l, count) := x], l, g, count + 1, p)
  {
    hide Rep, Pow;
    RevBound(l, count);
    forall u | 0 <= u < count
      ensures Rev(l, u) != Rev(l, count)
    {
      RevInvolution(l, u);
      RevInvolution(l, count);
    }
  }

  /** The 2N-th root of unity for degree 2^l, from the table's 2048-th root g. */
  ghost function RootFor(g: int, l: nat): int
    requires l <= 10
  {
    Pow(g, Pow2(10 - l))
  }

  /** The inverse of that root: its order is 2^(l+1). */
  ghost function InverseRootFor(g: int, l: nat): int
    requires l <= 10
  {
    Pow(RootFor(g, l), 2 * Pow2(l) - 1)
  }

  /** Powers of r in bit-reversed order, in Montgomery representation. */
  ghost function PowerTable(p: u32, r: int, l: nat): (t: seq<u32>)
    requires p > 0
    ensures |t| == Pow2(l)
  {
    seq(Pow2(l), k requires 0 <= k < Pow2(l) => Entry(p, r, l, k))
  }

  ghost function Entry(p: u32, r: int, l: nat, k: nat): (x: u32)
    requires p > 0
    ensures x < p
  {
    ModRange(Pow(r, Rev(l, k)) * B31, p);
    (Pow(r, Rev(l, k)) * B31) % p
  }

  /** The tables for degree 2^l. */
  ghost function Table(p: u32, g: u32, l: nat): (r: seq<u32>)
    requires p > 0 && l <= 10
    ensures |r| == Pow2(l)
  {
    PowerTable(p, RootFor(g, l), l)
  }

  ghost function InverseTable(p: u32, g: u32, l: nat): (r: seq<u32>)
    requires p > 0 && l <= 10
    ensures |r| == Pow2(l)
  {
    PowerTable(p, InverseRootFor(g, l), l)
  }

  lemma ModRange(x: int, p: u32)
    requires p > 0
    ensures 0 <= x % p < p
  {
  }

  lemma PowersAreTable(gm: seq<u32>, l: nat, r: int, p: u32)
    requires Modulus(p) && Powers(gm, l, r, p)
    ensures gm[..Pow2(l)] == PowerTable(p, r, l)
  {
    hide Pow, Pow2, Rev, Rep;
    forall k | 0 <= k < Pow2(l)
      ensures gm[k] == Entry(p, r, l, k)
    {
      EntryIs(gm[k], Pow(r, Rev(l, k)), p);
    }
  }

  lemma EntryIs(a: u32, x: int, p: u32)
    requires Modulus(p) && a < p && Rep(a, x, p)
    ensures a == (x * B31) % p
  {
    hide Cong;
    CongModEq(a, x * B31, p);
    SmallMod(a, p);
  }

  /** Congruent roots have the same table. */
  lemma SameTable(p: u32, r: int, s: int, l: nat)
    requires p > 0 && Cong(r, s, p)
    ensures PowerTable(p, r, l) == PowerTable(p, s, l)
  {
    hide Cong, Pow, Pow2, Rev;
    forall k | 0 <= k < Pow2(l)
      ensures Entry(p, r, l, k) == Entry(p, s, l, k)
    {
      var e := Rev(l, k);
      CongPow(r, s, e, p);
      CongScale(Pow(r, e), Pow(s, e), B31, p);
      CongModEq(Pow(r, e) * B31, Pow(s, e) * B31, p);
    }
  }

  /** A root of order 2^(l+1) times its power 2^(l+1) - 1. */
  lemma InversePower(r: int, l: nat, p: int)
    requires Cong(Pow(r, Pow2(l)), -1, p)
    ensures Cong(r * Pow(r, 2 * Pow2(l) - 1), 1, p)
  {
    hide Cong, Pow2;
    var n := Pow2(l);
    assert r * Pow(r, 2 * n - 1) == Pow(r, n + n);
    hide Pow;
    PowAdd(r, n, n);
    CongMul(Pow(r, n), -1, Pow(r, n), -1, p);
  }

  /** The inverse root is determined modulo p. */
  lemma InverseIsPower(r: int, ir: int, l: nat, p: int)
    requires Cong(Pow(r, Pow2(l)), -1, p) && Cong(r * ir, 1, p)
    ensures Cong(ir, Pow(r, 2 * Pow2(l) - 1), p)
  {
    hide Cong, Pow, Pow2;
    var w := Pow(r, 2 * Pow2(l) - 1);
    InversePower(r, l, p);
    CongSym(r * w, 1, p);
    CongTrans(ir * r, 1, w * r, p);
    CongCancel(ir, w, r, ir, p);
  }

  lemma TablePowers(p: u32, r: int, l: nat)
    requires p > 0
    ensures Powers(PowerTable(p, r, l), l, r, p)
  {
    hide Cong, Pow, Pow2, Rev;
    var t := PowerTable(p, r, l);
    forall k | 0 <= k < Pow2(l)
      ensures t[k] < p && Rep(t[k], Pow(r, Rev(l, k)), p)
    {
      CongMod(Pow(r, Rev(l, k)) * B31, p);
    }
  }

  /** The root for degree 2^l has order 2^(l+1). */
  lemma RootOrder(g: u32, l: nat, p: u32)
    requires NttPrime(p, g) && l <= 10
    ensures Cong(Pow(RootFor(g, l), Pow2(l)), -1, p)
  {
    hide Cong, Pow, Pow2, Modulus;
    Pow2Add(10 - l, l);
    Pow2Ten();
    PowMul(g, Pow2(10 - l), Pow2(l));
  }

  /** The tables have the properties that the transforms need. */
  lemma TablesWork(p: u32, g: u32, l: nat, p0i: u32)
    requires Field(p, p0i) && NttPrime(p, g) && l <= 10
    ensures RootTree(Table(p, g, l), Pow2(l), p, p0i) && Inverses(Table(p, g, l), InverseTable(p, g, l), Pow2(l), p, p0i)
  {
    hide Cong, Pow, Pow2, Modulus, Rep, Rev, RootTree, Inverses, Powers, PowerTable, RootFor, NegInverse;
    var r := RootFor(g, l);
    RootOrder(g, l, p);
    InversePower(r, l, p);
    TablePowers(p, r, l);
    TablePowers(p, InverseRootFor(g, l), l);
    PowersFormTree(Table(p, g, l), l, r, p, p0i);
    PowersInverse(Table(p, g, l), InverseTable(p, g, l), l, r, InverseRootFor(g, l), p, p0i);
  }

  /** The table for half the degree is the first half of the table. */
  lemma TablePrefix(p: u32, g: u32, l: nat, k: nat)
    requires p > 0 && 1 <= l <= 10 && k < Pow2(l - 1)
    ensures k < Pow2(l) && Table(p, g, l)[k] == Table(p, g, l - 1)[k]
  {
    hide Pow, Pow2, Rev;
    DoublePow(l);
    RevTop(l, 0, k);
    assert 0 * Pow2(l - 1) + k == k;
    DoublePow(11 - l);
    PowMul(g, Pow2(10 - l), 2);
    PowTwo(RootFor(g, l));
    var e := Rev(l - 1, k);
    PowMul(RootFor(g, l), 2, e);
    assert Pow2(10 - l) * 2 == Pow2(11 - l);
  }

  /** Squares the root until its order is twice the degree. */
  method SquareDown(g: u32, l: nat, p: u32, p0i: u32) returns (h: u32, ghost r: int)
    requires Field(p, p0i) && NttPrime(p, g) && l <= 10
    ensures h < p && Rep(h, r, p) && Cong(Pow(r, Pow2(l)), -1, p) && r == RootFor(g, l)
  {
    r := g;
    assert Pow2(10) == 1024;
    RepMul0(g, p, p0i);
    h := MontyMul(g, R2(p, p0i), p, p0i);
    var k := l;
    ghost var done := 0;
    assert Pow(g, 1024) == Pow(r, Pow2(10));
    while k < 10
      invariant l <= k <= 10 && h < p && Rep(h, r, p)
      invariant Cong(Pow(r, Pow2(10 - (k - l))), -1, p) && r == Pow(g, Pow2(k - l))
    {
      hide Cong, MontyMul, Rep, NegInverse, Pow, Pow2;
      RepMul(h, h, r, r, p, p0i);
      SquareRoot(g, r, k - l, p);
      h := MontyMul(h, h, p, p0i);
      r := r * r;
      k := k + 1;
    }
  }

  /** One squaring halves the order. */
  lemma SquareRoot(g: int, r: int, j: nat, p: int)
    requires j < 10 && r == Pow(g, Pow2(j)) && Cong(Pow(r, Pow2(10 - j)), -1, p)
    ensures r * r == Pow(g, Pow2(j + 1)) && Cong(Pow(r * r, Pow2(10 - (j + 1))), -1, p)
  {
    hide Cong, Pow, Pow2;
    var e := Pow2(9 - j);
    DoublePow(10 - j);
    DoublePow(j + 1);
    PowProduct(r, r, e);
    PowAdd(r, e, e);
    PowTwo(r);
    PowMul(g, Pow2(j), 2);
  }

  lemma RepMul0(g: u32, p: u32, p0i: u32)
    requires Field(p, p0i) && g < p
    ensures R2(p, p0i) < p && MontyMul(g, R2(p, p0i), p, p0i) < p
    ensures Rep(MontyMul(g, R2(p, p0i), p, p0i), g, p)
  {
    hide Cong, MontyMul, R2, NegInverse;
    R2Spec(p, p0i);
    RepMulMixed(g, R2(p, p0i), B31, p, p0i);
  }

  method InverseRoot(g: u32, ghost r: int, l: nat, p: u32, p0i: u32) returns (ig: u32, ghost ir: int)
    requires Field(p, p0i) && g < p && Rep(g, r, p) && l <= 10 && p % 2048 == 1
    requires Cong(Pow(r, Pow2(l)), -1, p)
    ensures ig < p && Rep(ig, ir, p) && Cong(r * ir, 1, p)
  {
    hide Cong, MontyMul, Pow, Rep, Plain, RInv, NegInverse, R2, R;
    R2Spec(p, p0i);
    RepOne(p);
    ig := Div(R2(p, p0i), g, p, p0i, R(p));
    PlainSpec(g, p, p0i);
    RepUnique(g, Plain(g, p, p0i), r, p, p0i);
    RootFermat(r, l, p);
    CongPow(Plain(g, p, p0i), r, p - 1, p);
    CongTrans(Pow(Plain(g, p, p0i), p - 1), Pow(r, p - 1), 1, p);
    DivInverts(R2(p, p0i), g, ig, p, p0i);
    PlainSpec(ig, p, p0i);
    ir := Plain(ig, p, p0i);
    InverseFromDiv(R2(p, p0i), g, r, ig, ir, p, p0i);
  }

  /** From ig * g = 2^62 in representation follows r * ir = 1 for the values. */
  lemma InverseFromDiv(r2: int, g: int, r: int, ig: int, ir: int, p: u32, p0i: u32)
    requires Field(p, p0i) && Rep(r2, B31, p) && Rep(g, r, p) && Rep(ig, ir, p)
    requires Cong(ig * g, r2, p)
    ensures Cong(r * ir, 1, p)
  {
    hide Cong, NegInverse;
    CongMul(ig, ir * B31, g, r * B31, p);
    CongSym(ig * g, (ir * B31) * (r * B31), p);
    CongTrans((ir * B31) * (r * B31), ig * g, r2, p);
    CongTrans((ir * B31) * (r * B31), r2, B31 * B31, p);
    assert (ir * B31) * (r * B31) == B31 * (B31 * (r * ir)) by { MulSwap(ir, B31, r, B31); }
    CancelR(B31 * (r * ir), B31 * 1, p, p0i);
    CancelR(r * ir, 1, p, p0i);
  }

  method MkGm2(gm: array<u32>, igm: array<u32>, logn: nat, g: u32, p: u32, p0i: u32)
    requires Field(p, p0i) && NttPrime(p, g) && logn <= 10
    requires gm != igm && gm.Length >= Pow2(logn) && igm.Length >= Pow2(logn)
    modifies gm, igm
    ensures gm[..Pow2(logn)] == Table(p, g, logn) && igm[..Pow2(logn)] == InverseTable(p, g, logn)
    ensures RootTree(gm[..], Pow2(logn), p, p0i)
    ensures Inverses(gm[..], igm[..], Pow2(logn), p, p0i)
  {
    hide Cong, MontyMul, Rep, NegInverse, Pow, Pow2, Rev, R, Filled, RootTree, Inverses, Powers, Modulus, RootFor, PowerTable;
    var h, r := SquareDown(g, logn, p, p0i);
    var ih, ir := InverseRoot(h, r, logn, p, p0i);
    var k := 10 - logn;
    var n := Pow2(logn);
    var x1: u32 := R(p);
    var x2: u32 := R(p);
    StartPowers(r, ir, p);
    FilledNone(gm[..], logn, r, p);
    FilledNone(igm[..], logn, ir, p);
    var u := 0;
    while u < n
      invariant 0 <= u <= n && x1 < p && x2 < p
      invariant Rep(x1, Pow(r, u), p) && Rep(x2, Pow(ir, u), p)
      invariant Filled(gm[..], logn, r, u, p) && Filled(igm[..], logn, ir, u, p)
    {
      RevShift(logn, k, u);
      RevBound(logn, u);
      var v := Rev(10, u * Pow2(k));
      FilledNext(gm[..], logn, r, u, x1, p);
      FilledNext(igm[..], logn, ir, u, x2, p);
      ghost var s1: seq<u32>, s2: seq<u32> := gm[..], igm[..];
      gm[v] := x1;
      igm[v] := x2;
      assert gm[..] == s1[v := x1] && igm[..] == s2[v := x2];
      NextPower(x1, h, r, u, p, p0i);
      NextPower(x2, ih, ir, u, p, p0i);
      x1 := MontyMul(x1, h, p, p0i);
      x2 := MontyMul(x2, ih, p, p0i);
      u := u + 1;
    }
    FilledAll(gm[..], logn, r, p);
    FilledAll(igm[..], logn, ir, p);
    PowersAreTable(gm[..], logn, r, p);
    PowersAreTable(igm[..], logn, ir, p);
    assert gm[..][..n] == gm[..n] && igm[..][..n] == igm[..n];
    InverseIsPower(r, ir, logn, p);
    SameTable(p, ir, InverseRootFor(g, logn), logn);
    PowersFormTree(gm[..], logn, r, p, p0i);
    PowersInverse(gm[..], igm[..], logn, r, ir, p, p0i);
  }

  lemma StartPowers(r: int, ir: int, p: u32)
    requires Modulus(p)
    ensures R(p) < p && Rep(R(p), Pow(r, 0), p) && Rep(R(p), Pow(ir, 0), p)
  {
    hide Cong;
    RepOne(p);
  }

  lemma FilledNone(gm: seq<u32>, l: nat, g: int, p: u32)
    requires |gm| >= Pow2(l)
    ensures Filled(gm, l, g, 0, p)
  {
  }

  lemma NextPower(x: u32, h: u32, r: int, u: nat, p: u32, p0i: u32)
    requires Field(p, p0i) && x < p && h < p && Rep(x, Pow(r, u), p) && Rep(h, r, p)
    ensures MontyMul(x, h, p, p0i) < p && Rep(MontyMul(x, h, p, p0i), Pow(r, u + 1), p)
  {
    hide Cong, MontyMul, Rep, NegInverse, Pow;
    RepMul(x, h, Pow(r, u), r, p, p0i);
    PowSucc(r, u);
  }
}
