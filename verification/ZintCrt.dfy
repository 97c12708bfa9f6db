/** Rebuilding integers from their residues: zint_norm_zero and zint_rebuild_CRT of keygen.c. */
module ZintCrt {
  import opened Words
  import opened Congruence
  import opened Modp
  import opened ModpPowers
  import opened Zint

  // ---------------------------------------------------------------------
  // zint_norm_zero
  // ---------------------------------------------------------------------

  /** The comparison word of the C code: 1, 0 or -1 as an uint32_t. */
  function Compare(wp: u32, wx: u32): u32 {
    var cc := W32(wp - wx);
    if cc / B31 == 1 then W32(-1) else W32(0 - cc) / B31
  }

  /** r |= cc & ((r & 1) - 1): the first nonzero comparison is kept. */
  function Keep(r: u32, cc: u32): u32 {
    if r % 2 == 0 then cc else r
  }

  ghost function Sign(d: int): u32 {
    if d > 0 then 1 else if d == 0 then 0 else W32(-1)
  }

  lemma CompareSign(wp: u32, wx: u32)
    requires wp < B31 && wx < B31
    ensures Compare(wp, wx) == Sign(wp - wx)
  {
  }

  /** Most significant words decide first. */
  lemma CompareStep(h: int, x: int, hw: u32, xw: u32)
    requires hw < B31 && xw < B31
    ensures Keep(Sign(h - x), Sign(hw - xw)) == Sign((hw + B31 * h) - (xw + B31 * x))
  {
    if h > x {
      MulMono(1, h - x, B31);
    } else if h < x {
      MulMono(1, x - h, B31);
    }
  }

  /** Word u of floor(t/2), where b is the low bit of the word above. */
  lemma HalfStep(w: u32, v: int)
    requires w < B31 && v >= 0
    ensures w / 2 + (v % 2) * (B31 / 2) < B31
    ensures (w + B31 * v) / 2 == w / 2 + (v % 2) * (B31 / 2) + B31 * (v / 2)
    ensures (w + B31 * v) % 2 == w % 2
  {
  }

  lemma ValDrop(s: seq<u32>, u: nat)
    requires u < |s|
    ensures Val(s[u..]) == s[u] + B31 * Val(s[u + 1..])
  {
    assert s[u..][1..] == s[u + 1..];
  }

  ghost predicate NormState(s: seq<u32>, t: seq<u32>, u: nat, r: u32, bb: u32) {
    |s| == |t| && u <= |s| && Digits(s) && Digits(t) && Val(t[u..]) >= 0 &&
    bb == Val(t[u..]) % 2 && r == Sign(Val(t[u..]) / 2 - Val(s[u..]))
  }

  lemma NormStart(s: seq<u32>, t: seq<u32>)
    requires |s| == |t| && Digits(s) && Digits(t)
    ensures NormState(s, t, |s|, 0, 0)
  {
    assert s[|s|..] == [] && t[|s|..] == [];
  }

  lemma NormStep(s: seq<u32>, t: seq<u32>, u: nat, r: u32, bb: u32)
    requires u > 0 && NormState(s, t, u, r, bb)
    ensures s[u - 1] < B31 && t[u - 1] < B31 && bb <= 1 && t[u - 1] / 2 + bb * (B31 / 2) < B31
    ensures NormState(s, t, u - 1, Keep(r, Compare(t[u - 1] / 2 + bb * (B31 / 2), s[u - 1])), t[u - 1] % 2)
  {
    hide Val, Compare, Keep, Sign;
    ValDrop(s, u - 1);
    ValDrop(t, u - 1);
    HalfStep(t[u - 1], Val(t[u..]));
    var hw: u32 := t[u - 1] / 2 + bb * (B31 / 2);
    CompareSign(hw, s[u - 1]);
    CompareStep(Val(t[u..]) / 2, Val(s[u..]), hw, s[u - 1]);
  }

  lemma NormEnd(s: seq<u32>, t: seq<u32>, r: u32, bb: u32)
    requires NormState(s, t, 0, r, bb)
    ensures r / B31 <= 1 && (r / B31 == 1 <==> 2 * Val(s) > Val(t) && 2 * Val(s) > Val(t) - Val(t) % 2 + 1)
    ensures r / B31 == 1 <==> Val(s) > Val(t) / 2
  {
    assert s[0..] == s && t[0..] == t;
  }

  /** Two's complement on k words: the top bit says whether the value is in the upper half. */
  lemma TopBit(s: seq<u32>)
    requires Digits(s) && |s| > 0
    ensures s[|s| - 1] >= B31 / 2 <==> 2 * Val(s) >= Base(|s|)
  {
    hide Val, Base;
    var n := |s| - 1;
    ValPrefix(s, n);
    assert s[..n + 1] == s;
    ValBound(s[..n]);
    BaseNext(n);
    TopWord(Val(s), Val(s[..n]), Base(n), s[n]);
  }

  lemma BaseNext(n: nat)
    ensures Base(n + 1) == B31 * Base(n)
  {
  }

  lemma TopWord(v: int, r: int, m: int, w: int)
    requires v == r + m * w && 0 <= r < m
    ensures w >= B31 / 2 <==> 2 * v >= B31 * m
  {
    if w >= B31 / 2 {
      MulMono(B31 / 2, w, m);
    } else {
      MulMono(w, B31 / 2 - 1, m);
      assert (B31 / 2 - 1) * m == (B31 / 2) * m - m;
    }
  }

  /** A digit string for z modulo 2^(31k), with z in the signed range, has signed value z. */
  lemma SignedValue(s: seq<u32>, z: int)
    requires Digits(s) && |s| > 0
    requires Val(s) == (if z < 0 then z + Base(|s|) else z) && 0 - Base(|s|) <= 2 * z < Base(|s|)
    ensures SVal(s) == z
  {
    hide Val, Base, Digits;
    TopBit(s);
  }

  /** zint_norm_zero: x in [0, m) becomes its representative in (-m/2, m/2). */
  method NormZero(x: array<u32>, xo: nat, p: array<u32>, po: nat, len: nat)
    requires x != p && xo + len <= x.Length && po + len <= p.Length && len > 0
    requires Digits(Slice(x[..], xo, len)) && Digits(Slice(p[..], po, len))
    requires Val(Slice(x[..], xo, len)) < Val(Slice(p[..], po, len)) && Val(Slice(p[..], po, len)) % 2 == 1
    modifies x
    ensures Digits(Slice(x[..], xo, len))
    ensures var v := Val(old(Slice(x[..], xo, len))); var m := Val(Slice(p[..], po, len));
      SVal(Slice(x[..], xo, len)) == if 2 * v > m then v - m else v
    ensures OnlyChanged(x[..], old(x[..]), xo, xo + len)
  {
    hide Slice, Val, Base, Digits, OnlyChanged, NormState, SVal, Compare, Keep;
    ghost var s: seq<u32> := Slice(x[..], xo, len);
    ghost var t: seq<u32> := Slice(p[..], po, len);
    var r: u32, bb: u32 := 0, 0;
    NormStart(s, t);
    var u := len;
    while u > 0
      invariant 0 <= u <= len && NormState(s, t, u, r, bb) && x[..] == old(x[..]) && p[..] == old(p[..])
    {
      NormStep(s, t, u, r, bb);
      u := u - 1;
      var pw := GetWord(p, po, len, u);
      var xw := GetWord(x, xo, len, u);
      r := Keep(r, Compare(pw / 2 + bb * (B31 / 2), xw));
      bb := pw % 2;
    }
    NormEnd(s, t, r, bb);
    ValBound(s);
    ValBound(t);
    var cc := SubCond(x, xo, p, po, len, r / B31);
    SignedValue(Slice(x[..], xo, len), if 2 * Val(s) > Val(t) then Val(s) - Val(t) else Val(s));
  }

  // ---------------------------------------------------------------------
  // zint_rebuild_CRT
  // ---------------------------------------------------------------------

  /** An entry of the PRIMES table. */
  datatype SmallPrime = SmallPrime(p: u32, g: u32, s: u32)

  ghost function Prod(ps: seq<SmallPrime>, k: nat): int
    requires k <= |ps|
  {
    if k == 0 then 1 else Prod(ps, k - 1) * ps[k - 1].p
  }

  /** s is the Montgomery inverse of the product of the previous primes. */
  ghost predicate CrtPrime(ps: seq<SmallPrime>, k: nat)
    requires k < |ps|
  {
    Modulus(ps[k].p) && ps[k].s < ps[k].p && (k > 0 ==> Cong(ps[k].s * Prod(ps, k), B31, ps[k].p))
  }

  ghost predicate CrtPrimes(ps: seq<SmallPrime>, n: nat) {
    n <= |ps| && forall k :: 0 <= k < n ==> CrtPrime(ps, k)
  }

  /** v is the integer in [0, p0*...*p(k-1)) with the first k residues. */
  ghost predicate IsCrt(v: int, res: seq<u32>, ps: seq<SmallPrime>, k: nat)
    requires k <= |ps| && k <= |res|
  {
    0 <= v < Prod(ps, k) && forall i :: 0 <= i < k ==> Cong(v, res[i], ps[i].p)
  }

  lemma {:induction false} ProdPositive(ps: seq<SmallPrime>, k: nat)
    requires CrtPrimes(ps, k)
    ensures Prod(ps, k) > 0 && Prod(ps, k) % 2 == 1 && Prod(ps, k) <= Base(k)
  {
    if k > 0 {
      ProdPositive(ps, k - 1);
      assert CrtPrime(ps, k - 1);
      var a, p := Prod(ps, k - 1), ps[k - 1].p;
      MulPos(a, p);
      OddProduct(a, p);
      MulMono(a, Base(k - 1), p);
      MulMono(p, B31, Base(k - 1));
    }
  }

  lemma OddProduct(a: int, b: int)
    requires a % 2 == 1 && b % 2 == 1
    ensures (a * b) % 2 == 1
  {
    var x, y := a / 2, b / 2;
    assert a * b == 2 * (2 * (x * y) + x + y) + 1 by {
      assert (2 * x + 1) * (2 * y + 1) == 2 * (2 * (x * y) + x + y) + 1;
    }
  }

  /** A multiple of an earlier modulus does not disturb its residue. */
  lemma {:induction false} ProdMultiple(ps: seq<SmallPrime>, k: nat, i: nat, c: int)
    requires i < k <= |ps| && ps[i].p > 0
    ensures Cong(Prod(ps, k) * c, 0, ps[i].p)
    decreases k
  {
    hide Cong;
    var p, a := ps[k - 1].p, Prod(ps, k - 1);
    if i == k - 1 {
      assert a * p * c == p * (a * c) by { MulAssoc(p, a, c); }
      ByQuotient(Prod(ps, k) * c, 0, p, a * c);
    } else {
      assert a * p * c == a * (p * c) by { MulAssoc(a, p, c); }
      ProdMultiple(ps, k - 1, i, p * c);
    }
  }

  /** The new digit makes the value right modulo the new prime. */
  lemma CrtDigit(q: int, s: u32, xp: u32, xq: u32, v: int, p: u32, p0i: u32)
    requires Field(p, p0i) && s < p && xp < p && xq < p
    requires Cong(s * q, B31, p) && Cong(xq, v, p)
    ensures var r := MontyMul(s, Modp.Sub(xp, xq, p), p, p0i);
      Modp.Sub(xp, xq, p) < p && r < p && Cong(v + q * r, xp, p)
  {
    hide Cong, MontyMul, Modp.Sub, NegInverse;
    SubSpec(xp, xq, p);
    var d: u32 := Modp.Sub(xp, xq, p);
    ProductFits(s, d, p);
    MontyMulSpec(s, d, p, p0i);
    var r: u32 := MontyMul(s, d, p, p0i);
    CongScale(B31 * r, s * d, q, p);
    assert (B31 * r) * q == B31 * (q * r) by { MulAssoc(B31, r, q); }
    assert (s * d) * q == (s * q) * d by { MulAssoc(s, d, q); MulAssoc(s, q, d); }
    CongScale(s * q, B31, d, p);
    CongTrans(B31 * (q * r), (s * q) * d, B31 * d, p);
    CancelR(q * r, d, p, p0i);
    CongTrans(q * r, d, xp - xq, p);
    CongSym(xq, v, p);
    CongAdd(v, xq, q * r, xp - xq, p);
  }

  lemma DigitBound(v: int, q: int, r: int, p: int)
    requires 0 <= v < q && 0 <= r < p
    ensures 0 <= v + q * r < q * p
  {
    MulMono(r, p - 1, q);
    MulMono(0, r, q);
    assert r * q == q * r && (p - 1) * q == q * p - q;
  }

  lemma ProdStep(ps: seq<SmallPrime>, u: nat)
    requires u < |ps|
    ensures Prod(ps, u + 1) == Prod(ps, u) * ps[u].p
  {
  }

  /** One prime more: the incremental form of the Chinese remainder theorem. */
  lemma CrtExtend(v: int, res: seq<u32>, ps: seq<SmallPrime>, k: nat, r: u32)
    requires CrtPrimes(ps, k + 1) && k < |res| && IsCrt(v, res, ps, k) && r < ps[k].p
    requires Cong(v + Prod(ps, k) * r, res[k], ps[k].p)
    ensures IsCrt(v + Prod(ps, k) * r, res, ps, k + 1)
  {
    hide Cong, Modulus, Prod, CrtPrimes;
    GetModulus(ps, k, k + 1);
    var q, p := Prod(ps, k), ps[k].p;
    DigitBound(v, q, r, p);
    ProdStep(ps, k);
    forall i | 0 <= i < k
      ensures Cong(v + q * r, res[i], ps[i].p)
    {
      GetModulus(ps, i, k + 1);
      ModulusPositive(ps[i].p);
      ProdMultiple(ps, k, i, r);
      assert Cong(v, res[i], ps[i].p);
      CongAdd(v, res[i], q * r, 0, ps[i].p);
    }
  }

  lemma ModulusPositive(p: int)
    requires Modulus(p)
    ensures p > 0
  {
  }

  /** The residues determine the integer: the primes are pairwise coprime through s. */
  lemma {:induction false} CrtCong(v: int, w: int, ps: seq<SmallPrime>, k: nat)
    requires CrtPrimes(ps, k) && forall i :: 0 <= i < k ==> Cong(v, w, ps[i].p)
    ensures exists m: int :: v - w == Prod(ps, k) * m
  {
    hide Cong, Modulus;
    if k == 0 {
      assert v - w == Prod(ps, 0) * (v - w);
    } else {
      CrtCong(v, w, ps, k - 1);
      var q, p, s := Prod(ps, k - 1), ps[k - 1].p, ps[k - 1].s;
      assert CrtPrime(ps, k - 1);
      var m :| v - w == q * m;
      var m': int;
      if k == 1 {
        assert q == 1;
        m' := Quotient(v, w, p);
        assert v - w == Prod(ps, k) * m';
      } else {
        var p0i := InverseFor(p);
        m' := CancelProduct(q, m, s, v, w, p, p0i);
        assert q * (p * m') == (q * p) * m' by { MulAssoc(q, p, m'); }
        assert v - w == Prod(ps, k) * m';
      }
    }
  }

  lemma InverseFor(p: u32) returns (p0i: u32)
    requires Modulus(p)
    ensures Field(p, p0i)
  {
    NInv31Spec(p);
    p0i := NInv31(p);
  }

  lemma CancelProduct(q: int, m: int, s: u32, v: int, w: int, p: u32, p0i: u32) returns (m': int)
    requires Field(p, p0i) && Cong(s * q, B31, p) && Cong(v, w, p) && v - w == q * m
    ensures m == p * m'
  {
    hide Cong, NegInverse;
    CongRefl(w, p);
    CongSub(v, w, w, w, p);
    CongScale(q * m, 0, s, p);
    assert s * (q * m) == (s * q) * m by { MulAssoc(s, q, m); }
    CongScale(s * q, B31, m, p);
    CongSym((s * q) * m, B31 * m, p);
    CongTrans(B31 * m, (s * q) * m, 0, p);
    CancelR(m, 0, p, p0i);
    m' := Quotient(m, 0, p);
  }

  lemma CrtUnique(v: int, w: int, res: seq<u32>, ps: seq<SmallPrime>, k: nat)
    requires CrtPrimes(ps, k) && k <= |res| && IsCrt(v, res, ps, k) && IsCrt(w, res, ps, k)
    ensures v == w
  {
    hide Cong, Modulus;
    ProdPositive(ps, k);
    forall i | 0 <= i < k
      ensures Cong(v, w, ps[i].p)
    {
      assert Cong(v, res[i], ps[i].p) && Cong(w, res[i], ps[i].p);
      CongSym(w, res[i], ps[i].p);
      CongTrans(v, res[i], w, ps[i].p);
    }
    CrtCong(v, w, ps, k);
    var m :| v - w == Prod(ps, k) * m;
    ByQuotient(v, w, Prod(ps, k), m);
    CongUnique(v, w, Prod(ps, k));
  }

  // ---------------------------------------------------------------------
  // The loops
  // ---------------------------------------------------------------------

  /** A number whose first u words have been rebuilt; the others are still residues. */
  ghost predicate Rebuilt(cur: seq<u32>, res: seq<u32>, ps: seq<SmallPrime>, u: nat) {
    |cur| == |res| && u <= |cur| && u <= |ps| && Digits(cur[..u]) && IsCrt(Val(cur[..u]), res, ps, u) && cur[u..] == res[u..]
  }

  lemma RebuiltOne(res: seq<u32>, ps: seq<SmallPrime>)
    requires |res| >= 1 && CrtPrimes(ps, 1) && res[0] < ps[0].p
    ensures Rebuilt(res, res, ps, 1)
  {
    assert CrtPrime(ps, 0);
    ValAppend([], res[0]);
    assert res[..1] == [] + [res[0]];
    assert Base(0) == 1;
    assert Prod(ps, 1) == Prod(ps, 0) * ps[0].p == ps[0].p;
    CongRefl(res[0], ps[0].p);
  }

  /** Number v of the buffer. */
  ghost function Number(a: seq<u32>, xlen: nat, stride: nat, v: nat): (r: seq<u32>)
    requires v * stride + xlen <= |a|
    ensures |r| == xlen
  {
    Slice(a, v * stride, xlen)
  }

  ghost predicate Layout(len: nat, xlen: nat, stride: nat, num: nat) {
    stride >= xlen && forall v :: 0 <= v < num ==> v * stride + xlen <= len
  }

  lemma NumberInside(len: nat, xlen: nat, stride: nat, num: nat, v: nat)
    requires Layout(len, xlen, stride, num) && v < num
    ensures v * stride + xlen <= len && xlen <= stride
  {
  }

  lemma SameLength(a: seq<u32>, b: seq<u32>, lo: nat, hi: nat)
    requires OnlyChanged(a, b, lo, hi)
    ensures |a| == |b|
  {
  }

  /** Changing number v leaves the other numbers alone. */
  lemma OtherNumbers(a: seq<u32>, b: seq<u32>, xlen: nat, stride: nat, num: nat, v: nat, w: nat)
    requires Layout(|a|, xlen, stride, num) && v < num && w < num && v != w
    requires OnlyChanged(a, b, v * stride, v * stride + xlen)
    ensures Number(a, xlen, stride, w) == Number(b, xlen, stride, w)
  {
    hide OnlyChanged, Slice, Layout;
    NumberInside(|a|, xlen, stride, num, v);
    NumberInside(|a|, xlen, stride, num, w);
    SameLength(a, b, v * stride, v * stride + xlen);
    BlocksApart(v, w, stride, xlen);
    BlocksApart(w, v, stride, xlen);
    SliceKept(a, b, v * stride, v * stride + xlen, w * stride, xlen);
  }

  lemma BlocksApart(v: nat, w: nat, stride: nat, len: nat)
    ensures v < w && len <= stride ==> v * stride + len <= w * stride
  {
    if v < w {
      MulMono(v + 1, w, stride);
    }
  }

  lemma SliceKept(a: seq<u32>, b: seq<u32>, lo: nat, hi: nat, off: nat, len: nat)
    requires OnlyChanged(a, b, lo, hi) && off + len <= |a| && (off + len <= lo || hi <= off)
    ensures Slice(a, off, len) == Slice(b, off, len)
  {
    if off + len <= lo {
      assert a[..lo][off..off + len] == b[..lo][off..off + len];
    } else {
      assert a[hi..][off - hi..off - hi + len] == b[hi..][off - hi..off - hi + len];
    }
  }

  ghost predicate InNumbers(q: nat, xlen: nat, stride: nat, num: nat) {
    exists v :: 0 <= v < num && v * stride <= q < v * stride + xlen
  }

  /** The words between the numbers keep their contents. */
  ghost predicate GapsKept(a: seq<u32>, b: seq<u32>, xlen: nat, stride: nat, num: nat) {
    |a| == |b| && forall q :: 0 <= q < |a| && !InNumbers(q, xlen, stride, num) ==> a[q] == b[q]
  }

  lemma GapsStep(a: seq<u32>, b: seq<u32>, c: seq<u32>, xlen: nat, stride: nat, num: nat, v: nat)
    requires v < num && GapsKept(b, c, xlen, stride, num) && OnlyChanged(a, b, v * stride, v * stride + xlen)
    ensures GapsKept(a, c, xlen, stride, num)
  {
    var lo, hi := v * stride, v * stride + xlen;
    forall q | 0 <= q < |a| && !InNumbers(q, xlen, stride, num)
      ensures a[q] == b[q]
    {
      if q < lo {
        assert a[..lo][q] == b[..lo][q];
      } else if q >= hi {
        assert a[hi..][q - hi] == b[hi..][q - hi];
      }
    }
  }

  lemma Narrow(a: seq<u32>, b: seq<u32>, lo: nat, mid: nat, hi: nat)
    requires OnlyChanged(a, b, lo, mid) && mid <= hi <= |a|
    ensures OnlyChanged(a, b, lo, hi) && Slice(a, lo, hi - lo) == Slice(a, lo, mid - lo) + Slice(b, lo, hi - lo)[mid - lo..]
  {
    assert a[hi..] == a[mid..][hi - mid..] && b[hi..] == b[mid..][hi - mid..];
    assert a[lo..hi] == a[lo..mid] + a[mid..hi];
    assert a[mid..hi] == a[mid..][..hi - mid] == b[mid..][..hi - mid] == b[lo..hi][mid - lo..];
  }

  /** One number, one prime: the body of the inner loop. */
  method RebuildStep(xx: array<u32>, off: nat, xlen: nat, u: nat, tmp: array<u32>, ps: seq<SmallPrime>, p0i: u32, r2: u32, ghost res: seq<u32>)
    requires xx != tmp && off + xlen <= xx.Length && u < xlen <= |ps| && xlen <= tmp.Length
    requires CrtPrimes(ps, xlen) && Field(ps[u].p, p0i) && r2 == R2(ps[u].p, p0i) && u > 0
    requires Rebuilt(Slice(xx[..], off, xlen), res, ps, u) && res[u] < ps[u].p
    requires Digits(Slice(tmp[..], 0, u)) && Val(Slice(tmp[..], 0, u)) == Prod(ps, u)
    modifies xx
    ensures Rebuilt(Slice(xx[..], off, xlen), res, ps, u + 1)
    ensures OnlyChanged(xx[..], old(xx[..]), off, off + xlen)
  {
    hide Digits, Val, IsCrt, NegInverse, Cong, R2, MontyMul, Modp.Sub, OnlyChanged, Prod, CrtPrimes;
    ghost var cur: seq<u32> := Slice(xx[..], off, xlen);
    ghost var before: seq<u32> := xx[..];
    assert Slice(xx[..], off, u) == cur[..u];
    var p := ps[u].p;
    var xp: u32 := xx[off + u];
    assert xp == cur[u] == cur[u..][0] == res[u..][0];
    var xq := ModSmallUnsigned(xx, off, u, p, p0i, r2);
    GetCrtPrime(ps, u, xlen);
    CrtDigit(Prod(ps, u), ps[u].s, xp, xq, Val(cur[..u]), p, p0i);
    var xr: u32 := MontyMul(ps[u].s, Modp.Sub(xp, xq, p), p, p0i);
    CrtExtendPrefix(Val(cur[..u]), res, ps, u, xlen, xr);
    ModulusBelow(p);
    AddMulSmall(xx, off, tmp, 0, u, xr);
    Narrow(xx[..], before, off, off + u + 1, off + xlen);
    ghost var now: seq<u32> := Slice(xx[..], off, xlen);
    assert now[..u + 1] == Slice(xx[..], off, u + 1);
    assert now[u + 1..] == cur[u + 1..] == cur[u..][1..];
  }

  lemma ModulusBelow(p: int)
    requires Modulus(p)
    ensures 0 < p < B31
  {
  }

  lemma GetCrtPrime(ps: seq<SmallPrime>, u: nat, n: nat)
    requires CrtPrimes(ps, n) && 0 < u < n
    ensures u < |ps| && ps[u].s < ps[u].p && Cong(ps[u].s * Prod(ps, u), B31, ps[u].p)
  {
    hide Cong, Prod;
    assert CrtPrime(ps, u);
  }

  lemma CrtExtendPrefix(v: int, res: seq<u32>, ps: seq<SmallPrime>, k: nat, n: nat, r: u32)
    requires CrtPrimes(ps, n) && k < n && k < |res| && IsCrt(v, res, ps, k) && r < ps[k].p
    requires Cong(v + Prod(ps, k) * r, res[k], ps[k].p)
    ensures IsCrt(v + Prod(ps, k) * r, res, ps, k + 1)
  {
    hide IsCrt, Cong, Prod, CrtPrime;
    CrtExtend(v, res, ps, k, r);
  }

  ghost function Numbers(a: seq<u32>, xlen: nat, stride: nat, num: nat): (r: seq<seq<u32>>)
    requires Layout(|a|, xlen, stride, num)
    ensures |r| == num && forall v :: 0 <= v < num ==> r[v] == Number(a, xlen, stride, v)
  {
    seq(num, v requires 0 <= v < num => Number(a, xlen, stride, v))
  }

  /** Every number has its first u words rebuilt, and the first `done` numbers one more. */
  ghost predicate AllRebuilt(a: seq<u32>, res: seq<seq<u32>>, xlen: nat, stride: nat, num: nat, ps: seq<SmallPrime>, u: nat, done: nat) {
    Layout(|a|, xlen, stride, num) && |res| == num && u <= xlen <= |ps| &&
    (forall v :: 0 <= v < num ==> |res[v]| == xlen && InRange(res[v], ps)) &&
    forall v :: 0 <= v < num ==> Rebuilt(Number(a, xlen, stride, v), res[v], ps, if v < done then u + 1 else u)
  }

  ghost predicate InRange(r: seq<u32>, ps: seq<SmallPrime>) {
    |r| <= |ps| && forall i :: 0 <= i < |r| ==> r[i] < ps[i].p
  }

  lemma StartRebuilt(a: seq<u32>, xlen: nat, stride: nat, num: nat, ps: seq<SmallPrime>)
    requires Layout(|a|, xlen, stride, num) && 1 <= xlen <= |ps| && CrtPrimes(ps, xlen)
    requires forall v :: 0 <= v < num ==> InRange(Number(a, xlen, stride, v), ps)
    ensures AllRebuilt(a, Numbers(a, xlen, stride, num), xlen, stride, num, ps, 1, 0)
  {
    hide Rebuilt, Number;
    forall v | 0 <= v < num
      ensures Rebuilt(Number(a, xlen, stride, v), Number(a, xlen, stride, v), ps, 1)
    {
      FirstReduced(Number(a, xlen, stride, v), ps);
      RebuiltOne(Number(a, xlen, stride, v), ps);
    }
  }

  lemma FirstReduced(r: seq<u32>, ps: seq<SmallPrime>)
    requires |r| >= 1 && InRange(r, ps)
    ensures r[0] < ps[0].p
  {
  }

  lemma OneMore(a: seq<u32>, b: seq<u32>, res: seq<seq<u32>>, xlen: nat, stride: nat, num: nat, ps: seq<SmallPrime>, u: nat, v: nat)
    requires AllRebuilt(b, res, xlen, stride, num, ps, u, v) && v < num
    requires OnlyChanged(a, b, v * stride, v * stride + xlen)
    requires Rebuilt(Number(a, xlen, stride, v), res[v], ps, u + 1)
    ensures AllRebuilt(a, res, xlen, stride, num, ps, u, v + 1)
  {
    hide Rebuilt, Number, OnlyChanged;
    SameLength(a, b, v * stride, v * stride + xlen);
    forall w | 0 <= w < num
      ensures Rebuilt(Number(a, xlen, stride, w), res[w], ps, if w < v + 1 then u + 1 else u)
    {
      if w != v {
        OtherNumbers(a, b, xlen, stride, num, v, w);
      }
    }
  }

  /** The inner loop: all numbers, for one prime. */
  method RebuildPass(xx: array<u32>, xlen: nat, xstride: nat, num: nat, u: nat, tmp: array<u32>, ps: seq<SmallPrime>, p0i: u32, r2: u32,
                     ghost res: seq<seq<u32>>, ghost start: seq<u32>)
    requires xx != tmp && 0 < u < xlen <= |ps| && xlen <= tmp.Length && CrtPrimes(ps, xlen)
    requires Field(ps[u].p, p0i) && r2 == R2(ps[u].p, p0i)
    requires AllRebuilt(xx[..], res, xlen, xstride, num, ps, u, 0) && GapsKept(xx[..], start, xlen, xstride, num)
    requires Digits(Slice(tmp[..], 0, u)) && Val(Slice(tmp[..], 0, u)) == Prod(ps, u)
    modifies xx
    ensures AllRebuilt(xx[..], res, xlen, xstride, num, ps, u + 1, 0) && GapsKept(xx[..], start, xlen, xstride, num)
  {
    hide Digits, Val, Rebuilt, Field, R2, OnlyChanged, GapsKept, Prod, CrtPrimes, AllRebuilt;
    for v := 0 to num
      invariant AllRebuilt(xx[..], res, xlen, xstride, num, ps, u, v) && GapsKept(xx[..], start, xlen, xstride, num)
      invariant tmp[..] == old(tmp[..])
    {
      ghost var before: seq<u32> := xx[..];
      GetRebuilt(xx[..], res, xlen, xstride, num, ps, u, v);
      RebuildStep(xx, v * xstride, xlen, u, tmp, ps, p0i, r2, res[v]);
      OneMore(xx[..], before, res, xlen, xstride, num, ps, u, v);
      GapsStep(xx[..], before, start, xlen, xstride, num, v);
    }
    PassEnd(xx[..], res, xlen, xstride, num, ps, u);
  }

  lemma GetRebuilt(a: seq<u32>, res: seq<seq<u32>>, xlen: nat, stride: nat, num: nat, ps: seq<SmallPrime>, u: nat, v: nat)
    requires AllRebuilt(a, res, xlen, stride, num, ps, u, v) && v < num && u < xlen
    ensures v * stride + xlen <= |a| && |res| == num && |res[v]| == xlen && res[v][u] < ps[u].p
    ensures Rebuilt(Slice(a, v * stride, xlen), res[v], ps, u)
  {
    hide Rebuilt;
    NumberInside(|a|, xlen, stride, num, v);
  }

  lemma PassEnd(a: seq<u32>, res: seq<seq<u32>>, xlen: nat, stride: nat, num: nat, ps: seq<SmallPrime>, u: nat)
    requires AllRebuilt(a, res, xlen, stride, num, ps, u, num) && u < xlen
    ensures AllRebuilt(a, res, xlen, stride, num, ps, u + 1, 0)
  {
    hide Rebuilt;
  }

  lemma FirstProduct(tmp: seq<u32>, ps: seq<SmallPrime>, n: nat)
    requires 1 <= n <= |ps| && CrtPrimes(ps, n) && |tmp| >= 1 && tmp[0] == ps[0].p
    ensures Digits(Slice(tmp, 0, 1)) && Val(Slice(tmp, 0, 1)) == Prod(ps, 1)
  {
    assert CrtPrime(ps, 0);
    var s := Slice(tmp, 0, 1);
    assert s == [] + [tmp[0]];
    ValAppend([], tmp[0]);
    assert Base(0) == 1;
    assert Prod(ps, 1) == Prod(ps, 0) * ps[0].p == ps[0].p;
  }

  /** tmp[u] receives the carry of the product of the first u words by the next prime. */
  lemma NextProduct(t: seq<u32>, ps: seq<SmallPrime>, u: nat, c: u32)
    requires u < |t| && u < |ps| && Digits(t[..u]) && c < B31 && t[u] == c
    requires Val(t[..u]) + Base(u) * c == Prod(ps, u) * ps[u].p
    ensures Digits(Slice(t, 0, u + 1)) && Val(Slice(t, 0, u + 1)) == Prod(ps, u + 1)
  {
    hide Val, Base, Prod;
    assert Slice(t, 0, u + 1) == t[..u] + [c];
    ValAppend(t[..u], c);
    ProdStep(ps, u);
  }

  lemma GetModulus(ps: seq<SmallPrime>, u: nat, n: nat)
    requires CrtPrimes(ps, n) && u < n
    ensures u < |ps| && Modulus(ps[u].p)
  {
    assert CrtPrime(ps, u);
  }

  lemma GapsRefl(a: seq<u32>, xlen: nat, stride: nat, num: nat)
    ensures GapsKept(a, a, xlen, stride, num)
  {
  }

  /** A rebuilt number, before and after normalisation. */
  ghost predicate HasResidues(z: int, res: seq<u32>, ps: seq<SmallPrime>) {
    |res| <= |ps| && forall i :: 0 <= i < |res| ==> Cong(z, res[i], ps[i].p)
  }

  /** z is the representative of the residues in (-m/2, m/2), m the product of the primes. */
  ghost predicate Centered(z: int, res: seq<u32>, ps: seq<SmallPrime>) {
    HasResidues(z, res, ps) && 0 - Prod(ps, |res|) < 2 * z < Prod(ps, |res|)
  }

  lemma CenterCrt(v: int, res: seq<u32>, ps: seq<SmallPrime>)
    requires |res| <= |ps| && CrtPrimes(ps, |res|) && IsCrt(v, res, ps, |res|)
    ensures var m := Prod(ps, |res|); Centered(if 2 * v > m then v - m else v, res, ps)
  {
    hide Cong, Modulus;
    ProdPositive(ps, |res|);
    var m := Prod(ps, |res|);
    var z := if 2 * v > m then v - m else v;
    forall i | 0 <= i < |res|
      ensures Cong(z, res[i], ps[i].p)
    {
      assert CrtPrime(ps, i) && Cong(v, res[i], ps[i].p);
      ModulusPositive(ps[i].p);
      ProdMultiple(ps, |res|, i, 1);
      assert m * 1 == m;
      CongSub(v, res[i], m, 0, ps[i].p);
    }
  }

  lemma RebuiltFinal(cur: seq<u32>, res: seq<u32>, ps: seq<SmallPrime>)
    requires Rebuilt(cur, res, ps, |cur|)
    ensures |cur| == |res| <= |ps| && Digits(cur) && IsCrt(Val(cur), res, ps, |res|)
  {
    assert cur[..|cur|] == cur;
  }

  /** What the caller gets for number v. */
  ghost predicate Result(cur: seq<u32>, res: seq<u32>, ps: seq<SmallPrime>, normalize: bool) {
    |cur| == |res| <= |ps| && Digits(cur) &&
    if normalize then Centered(SVal(cur), res, ps) else IsCrt(Val(cur), res, ps, |res|)
  }

  /** The first `done` numbers are in final form, the others are not yet normalised. */
  ghost predicate AllResults(a: seq<u32>, res: seq<seq<u32>>, xlen: nat, stride: nat, num: nat, ps: seq<SmallPrime>, done: nat) {
    Layout(|a|, xlen, stride, num) && |res| == num &&
    (forall v :: 0 <= v < num ==> |res[v]| == xlen) &&
    forall v :: 0 <= v < num ==> Result(Number(a, xlen, stride, v), res[v], ps, v < done)
  }

  lemma StartResults(a: seq<u32>, res: seq<seq<u32>>, xlen: nat, stride: nat, num: nat, ps: seq<SmallPrime>)
    requires AllRebuilt(a, res, xlen, stride, num, ps, xlen, 0)
    ensures AllResults(a, res, xlen, stride, num, ps, 0)
  {
    hide Rebuilt, IsCrt, Val, Digits;
    forall v | 0 <= v < num
      ensures Result(Number(a, xlen, stride, v), res[v], ps, false)
    {
      RebuiltFinal(Number(a, xlen, stride, v), res[v], ps);
    }
  }

  lemma OneMoreResult(a: seq<u32>, b: seq<u32>, res: seq<seq<u32>>, xlen: nat, stride: nat, num: nat, ps: seq<SmallPrime>, v: nat)
    requires AllResults(b, res, xlen, stride, num, ps, v) && v < num
    requires OnlyChanged(a, b, v * stride, v * stride + xlen)
    requires Result(Number(a, xlen, stride, v), res[v], ps, true)
    ensures AllResults(a, res, xlen, stride, num, ps, v + 1)
  {
    hide Result, Number, OnlyChanged;
    SameLength(a, b, v * stride, v * stride + xlen);
    forall w | 0 <= w < num
      ensures Result(Number(a, xlen, stride, w), res[w], ps, w < v + 1)
    {
      if w != v {
        OtherNumbers(a, b, xlen, stride, num, v, w);
      }
    }
  }

  method NormalizeOne(xx: array<u32>, off: nat, xlen: nat, tmp: array<u32>, ghost ps: seq<SmallPrime>, ghost res: seq<u32>)
    requires xx != tmp && off + xlen <= xx.Length && 1 <= xlen <= tmp.Length
    requires Result(Slice(xx[..], off, xlen), res, ps, false) && CrtPrimes(ps, xlen)
    requires |res| == xlen <= |ps| && Digits(Slice(tmp[..], 0, xlen)) && Val(Slice(tmp[..], 0, xlen)) == Prod(ps, xlen)
    modifies xx
    ensures Result(Slice(xx[..], off, xlen), res, ps, true)
    ensures OnlyChanged(xx[..], old(xx[..]), off, off + xlen)
  {
    hide Digits, Val, SVal, Base, OnlyChanged, CrtPrimes, Centered, Prod;
    ProdPositive(ps, xlen);
    CenterCrt(Val(Slice(xx[..], off, xlen)), res, ps);
    NormZero(xx, off, tmp, 0, xlen);
  }

  method NormalizeAll(xx: array<u32>, xlen: nat, xstride: nat, num: nat, tmp: array<u32>,
                      ghost ps: seq<SmallPrime>, ghost res: seq<seq<u32>>, ghost start: seq<u32>)
    requires xx != tmp && 1 <= xlen <= |ps| && xlen <= tmp.Length && CrtPrimes(ps, xlen)
    requires AllResults(xx[..], res, xlen, xstride, num, ps, 0) && GapsKept(xx[..], start, xlen, xstride, num)
    requires Digits(Slice(tmp[..], 0, xlen)) && Val(Slice(tmp[..], 0, xlen)) == Prod(ps, xlen)
    modifies xx
    ensures AllResults(xx[..], res, xlen, xstride, num, ps, num) && GapsKept(xx[..], start, xlen, xstride, num)
  {
    hide Digits, Val, Result, OnlyChanged, GapsKept, Prod, CrtPrimes, AllResults;
    for v := 0 to num
      invariant AllResults(xx[..], res, xlen, xstride, num, ps, v) && GapsKept(xx[..], start, xlen, xstride, num)
      invariant tmp[..] == old(tmp[..])
    {
      ghost var before: seq<u32> := xx[..];
      GetResult(xx[..], res, xlen, xstride, num, ps, v);
      NormalizeOne(xx, v * xstride, xlen, tmp, ps, res[v]);
      OneMoreResult(xx[..], before, res, xlen, xstride, num, ps, v);
      GapsStep(xx[..], before, start, xlen, xstride, num, v);
    }
  }

  lemma GetResult(a: seq<u32>, res: seq<seq<u32>>, xlen: nat, stride: nat, num: nat, ps: seq<SmallPrime>, v: nat)
    requires AllResults(a, res, xlen, stride, num, ps, v) && v < num
    ensures v * stride + xlen <= |a| && |res| == num && |res[v]| == xlen
    ensures Result(Slice(a, v * stride, xlen), res[v], ps, false)
  {
    hide Result;
    NumberInside(|a|, xlen, stride, num, v);
  }

  /** zint_rebuild_CRT. */
  method RebuildCRT(xx: array<u32>, xlen: nat, xstride: nat, num: nat, ps: seq<SmallPrime>, normalize: bool, tmp: array<u32>)
    requires xx != tmp && 1 <= xlen <= |ps| && xlen <= tmp.Length && Layout(xx.Length, xlen, xstride, num)
    requires CrtPrimes(ps, xlen)
    requires forall v :: 0 <= v < num ==> InRange(Number(xx[..], xlen, xstride, v), ps)
    modifies xx, tmp
    ensures forall v :: 0 <= v < num ==>
      Result(Number(xx[..], xlen, xstride, v), Number(old(xx[..]), xlen, xstride, v), ps, normalize)
    ensures Digits(Slice(tmp[..], 0, xlen)) && Val(Slice(tmp[..], 0, xlen)) == Prod(ps, xlen)
    ensures GapsKept(xx[..], old(xx[..]), xlen, xstride, num)
  {
    hide Digits, Val, Result, NegInverse, NInv31, R2, OnlyChanged, GapsKept, Prod, CrtPrimes, Number, AllRebuilt, AllResults, InRange;
    ghost var start: seq<u32> := xx[..];
    ghost var res: seq<seq<u32>> := Numbers(xx[..], xlen, xstride, num);
    StartRebuilt(xx[..], xlen, xstride, num, ps);
    GapsRefl(xx[..], xlen, xstride, num);
    tmp[0] := ps[0].p;
    FirstProduct(tmp[..], ps, xlen);
    var u := 1;
    while u < xlen
      invariant 1 <= u <= xlen
      invariant AllRebuilt(xx[..], res, xlen, xstride, num, ps, u, 0) && GapsKept(xx[..], start, xlen, xstride, num)
      invariant Digits(Slice(tmp[..], 0, u)) && Val(Slice(tmp[..], 0, u)) == Prod(ps, u)
    {
      GetModulus(ps, u, xlen);
      var p := ps[u].p;
      NInv31Spec(p);
      var p0i: u32 := NInv31(p);
      RebuildPass(xx, xlen, xstride, num, u, tmp, ps, p0i, R2(p, p0i), res, start);
      var c := MulSmall(tmp, 0, u, p);
      tmp[u] := c;
      NextProduct(tmp[..], ps, u, c);
      u := u + 1;
    }
    StartResults(xx[..], res, xlen, xstride, num, ps);
    if normalize {
      NormalizeAll(xx, xlen, xstride, num, tmp, ps, res, start);
    }
    FinalResults(xx[..], start, xlen, xstride, num, ps, normalize);
  }

  lemma FinalResults(a: seq<u32>, start: seq<u32>, xlen: nat, stride: nat, num: nat, ps: seq<SmallPrime>, normalize: bool)
    requires Layout(|start|, xlen, stride, num) && |a| == |start|
    requires AllResults(a, Numbers(start, xlen, stride, num), xlen, stride, num, ps, if normalize then num else 0)
    ensures forall v :: 0 <= v < num ==> Result(Number(a, xlen, stride, v), Number(start, xlen, stride, v), ps, normalize)
  {
    hide Result, Number;
  }
}
