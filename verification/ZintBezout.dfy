/** The batched extended binary GCD: zint_bezout of keygen.c. */
module ZintBezout {
  import opened Words
  import opened Congruence
  import opened Modp
  import opened ModpPowers
  import opened Twiddle
  import opened Zint
  import opened ZintReduce
  import opened BinaryGcd

  // ---------------------------------------------------------------------
  // Top words
  // ---------------------------------------------------------------------

  /** The highest index in [1, n) where either number has a nonzero word, or 0. */
  ghost function TopIndex(s: seq<u32>, t: seq<u32>, n: nat): (j: nat)
    requires n <= |s| && n <= |t|
    ensures n > 0 ==> j < n
  {
    if n <= 1 then 0
    else if s[n - 1] != 0 || t[n - 1] != 0 then n - 1
    else TopIndex(s, t, n - 1)
  }

  /** The two words of s ending at index j, or the single word 0. */
  ghost function TopPair(s: seq<u32>, j: nat): int
    requires j < |s|
  {
    if j == 0 then s[0] else s[j] * B31 + s[j - 1]
  }

  /** The masked scan of zint_bezout; c0 and c1 are the masks, as booleans. */
  method TopWords(a: array<u32>, b: array<u32>) returns (aHi: u64, bHi: u64)
    requires a.Length == b.Length > 0
    ensures var j := TopIndex(a[..], b[..], a.Length); aHi == TopPair(a[..], j) && bHi == TopPair(b[..], j)
  {
    var c0, c1 := true, true;
    var a0: u32, a1: u32, b0: u32, b1: u32 := 0, 0, 0, 0;
    ghost var s: seq<u32>, t: seq<u32> := a[..], b[..];
    var j := a.Length;
    while j > 0
      invariant 0 <= j <= a.Length && (c0 ==> c1)
      invariant c0 ==> TopIndex(s, t, a.Length) == TopIndex(s, t, j) && (j < a.Length ==> a0 == s[j] && a1 == s[j] && b0 == t[j] && b1 == t[j])
      invariant !c0 && c1 ==> j < a.Length && TopIndex(s, t, a.Length) == j && a0 == a1 == s[j] && b0 == b1 == t[j]
      invariant !c1 ==> TopIndex(s, t, a.Length) > j
      invariant !c1 ==> a0 == s[TopIndex(s, t, a.Length)] && b0 == t[TopIndex(s, t, a.Length)]
      invariant !c1 ==> a1 == s[TopIndex(s, t, a.Length) - 1] && b1 == t[TopIndex(s, t, a.Length) - 1]
    {
      j := j - 1;
      var aw: u32, bw: u32 := a[j], b[j];
      if c0 { a0, b0 := aw, bw; }
      if c1 { a1, b1 := aw, bw; }
      c1 := c0;
      c0 := c0 && aw == 0 && bw == 0;
    }
    if c1 {
      a0, b0 := 0, 0;
    }
    aHi := a0 * B31 + a1;
    bHi := b0 * B31 + b1;
  }

  /** For numbers below 2^62 the two top words are the whole number. */
  const B62: nat := 0x4000_0000_0000_0000

  lemma {:induction false} TopLow(s: seq<u32>, t: seq<u32>, n: nat)
    requires n <= |s| && n <= |t| && forall i :: 2 <= i < n ==> s[i] == 0 && t[i] == 0
    ensures TopIndex(s, t, n) == if n > 1 && (s[1] != 0 || t[1] != 0) then 1 else 0
  {
    if n > 2 {
      TopLow(s, t, n - 1);
    }
  }

  lemma HighWordsZero(s: seq<u32>)
    requires |s| > 0 && Digits(s) && Val(s) < B62
    ensures forall i :: 2 <= i < |s| ==> s[i] == 0
    ensures Val(s) == s[0] + if |s| > 1 then B31 * s[1] else 0
  {
    if |s| > 1 {
      var t := s[1..][1..];
      assert Val(s) == s[0] + B31 * Val(s[1..]) && Val(s[1..]) == s[1] + B31 * Val(t);
      ValBound(t);
      assert Val(t) == 0;
      NothingLeft(t);
      forall i | 2 <= i < |s|
        ensures s[i] == 0
      {
        assert s[i] == t[i - 2];
      }
    } else {
      assert s[1..] == [];
    }
  }

  lemma TopExact(s: seq<u32>, t: seq<u32>)
    requires |s| == |t| > 0 && Digits(s) && Digits(t) && Val(s) < B62 && Val(t) < B62
    ensures TopPair(s, TopIndex(s, t, |s|)) == Val(s) && TopPair(t, TopIndex(s, t, |s|)) == Val(t)
  {
    hide Val;
    HighWordsZero(s);
    HighWordsZero(t);
    TopLow(s, t, |s|);
  }

  /** Bit 63 of rz ^ ((x ^ y) & (x ^ rz)), where rz = y - x on 64 bits. */
  function GreaterBit(x: u64, y: u64): int {
    var r := W64(y - x) / B63;
    (r + ((x / B63 + y / B63) % 2) * ((x / B63 + r) % 2)) % 2
  }

  /** It compares unsigned 64-bit numbers. */
  lemma GreaterBitSpec(x: u64, y: u64)
    ensures GreaterBit(x, y) == if x > y then 1 else 0
  {
    assert W64(y - x) == if x > y then y - x + B64 else y - x;
  }

  // ---------------------------------------------------------------------
  // The 31 inner steps
  // ---------------------------------------------------------------------

  /** The values that the inner loop updates. */
  datatype Inner = Inner(aLo: u32, bLo: u32, aHi: u64, bHi: u64, pa: int, pb: int, qa: int, qb: int)

  /** One iteration: subtract if both low bits are one, halve one side, double the other. */
  function InnerStep(st: Inner, i: nat): Inner {
    InnerCase(st, (st.aLo / Pow2(i)) % 2 == 1, (st.bLo / Pow2(i)) % 2 == 1, GreaterBit(st.aHi, st.bHi) == 1)
  }

  /** The same, from the bits oa and ob of a and b and the comparison rt of their top words. */
  function InnerCase(st: Inner, oa: bool, ob: bool, rt: bool): Inner {
    var cAB := oa && ob && rt;
    var cBA := oa && ob && !rt;
    var cA := cAB || !oa;
    var aLo := if cAB then W32(st.aLo - st.bLo) else st.aLo;
    var aHi := if cAB then W64(st.aHi - st.bHi) else st.aHi;
    var pa := if cAB then st.pa - st.qa else st.pa;
    var pb := if cAB then st.pb - st.qb else st.pb;
    var bLo := if cBA then W32(st.bLo - aLo) else st.bLo;
    var bHi := if cBA then W64(st.bHi - aHi) else st.bHi;
    var qa := if cBA then st.qa - pa else st.qa;
    var qb := if cBA then st.qb - pb else st.qb;
    if cA then Inner(aLo, W32(2 * bLo), aHi / 2, bHi, pa, pb, 2 * qa, 2 * qb)
    else Inner(W32(2 * aLo), bLo, aHi, bHi / 2, 2 * pa, 2 * pb, qa, qb)
  }

  /**
   * For the full integers x and y: the low words follow the two combinations modulo 2^31,
   * both combinations are multiples of 2^i, and the coefficients are at most 2^i in size.
   */
  ghost predicate InnerInv(st: Inner, x: int, y: int, i: nat) {
    Cong(st.aLo, x * st.pa + y * st.pb, B31) && Cong(st.bLo, x * st.qa + y * st.qb, B31) &&
    Cong(st.aLo, 0, Pow2(i)) && Cong(st.bLo, 0, Pow2(i)) &&
    Abs(st.pa) + Abs(st.pb) <= Pow2(i) && Abs(st.qa) + Abs(st.qb) <= Pow2(i)
  }

  lemma CombineCong(a: int, b: int, x: int, y: int, pa: int, pb: int, qa: int, qb: int)
    requires Cong(a, x * pa + y * pb, B31) && Cong(b, x * qa + y * qb, B31)
    ensures Cong(W32(a - b), x * (pa - qa) + y * (pb - qb), B31)
    ensures Cong(W32(2 * a), x * (2 * pa) + y * (2 * pb), B31)
  {
    hide Cong, W32;
    Mod31(a - b);
    CongSub(a, x * pa + y * pb, b, x * qa + y * qb, B31);
    assert x * (pa - qa) + y * (pb - qb) == (x * pa + y * pb) - (x * qa + y * qb);
    CongTrans(W32(a - b), a - b, x * (pa - qa) + y * (pb - qb), B31);
    Mod31(2 * a);
    CongScale(a, x * pa + y * pb, 2, B31);
    assert x * (2 * pa) + y * (2 * pb) == 2 * (x * pa + y * pb);
    CongTrans(W32(2 * a), 2 * a, x * (2 * pa) + y * (2 * pb), B31);
  }

  /** Reduction to 32 bits keeps divisibility by smaller powers of two. */
  lemma WrapDivides(z: int, i: nat)
    requires i <= 32 && Cong(z, 0, Pow2(i))
    ensures Cong(W32(z), 0, Pow2(i))
  {
    hide Cong;
    Pow2Add(i, 32 - i);
    Pow2IsPow(32);
    Pow2Values();
    PowAdd(2, 31, 1);
    assert Pow(2, 1) == 2;
    assert Pow2(32) == B32;
    var m, n, q := Pow2(i), Pow2(32 - i), z / B32;
    hide Pow2, Pow;
    assert z - W32(z) == B32 * q;
    assert B32 * q == m * (n * q) by { MulAssoc(m, n, q); }
    ByQuotient(z, W32(z), m, n * q);
    CongSym(z, W32(z), m);
    CongTrans(W32(z), z, 0, m);
  }

  /** An even multiple of 2^i is a multiple of 2^(i+1). */
  lemma EvenMultiple(z: int, m: int)
    requires m > 0 && Cong(z, 0, m) && (z / m) % 2 == 0
    ensures Cong(z, 0, 2 * m)
  {
    hide Cong;
    var k := Quotient(z, 0, m);
    DivExact(k, m);
    var h := k / 2;
    assert k == 2 * h;
    assert m * (2 * h) == (2 * m) * h;
    ByQuotient(z, 0, 2 * m, h);
  }

  lemma DivExact(k: int, m: int)
    requires m > 0
    ensures (m * k) / m == k
  {
    var q := (m * k) / m;
    assert m * k == m * q + (m * k) % m;
    MultipleMod(m, k);
    assert m * (k - q) == 0;
    if k - q > 0 { MulPos(m, k - q); }
    if k - q < 0 { MulPos(m, q - k); }
  }

  lemma OddDifference(a: int, b: int, m: int)
    requires m > 0 && Cong(a, 0, m) && Cong(b, 0, m) && (a / m) % 2 == 1 && (b / m) % 2 == 1
    ensures Cong(a - b, 0, 2 * m)
  {
    hide Cong;
    var k := Quotient(a, 0, m);
    var l := Quotient(b, 0, m);
    DivExact(k, m);
    DivExact(l, m);
    assert m * (k - l) == m * k - m * l;
    DivExact(k - l, m);
    ByQuotient(a - b, 0, m, k - l);
    EvenMultiple(a - b, m);
  }

  lemma DoubleMultiple(a: int, m: int)
    requires m > 0 && Cong(a, 0, m)
    ensures Cong(2 * a, 0, 2 * m)
  {
    hide Cong;
    var k := Quotient(a, 0, m);
    assert 2 * (m * k) == (2 * m) * k by { MulAssoc(2, m, k); }
    ByQuotient(2 * a, 0, 2 * m, k);
  }

  /** What the two low words are after one step, in each of the four cases. */
  lemma StepDivides(a: u32, b: u32, i: nat)
    requires i < 31 && Cong(a, 0, Pow2(i)) && Cong(b, 0, Pow2(i))
    ensures (a / Pow2(i)) % 2 == 0 ==> Cong(a, 0, Pow2(i + 1))
    ensures (a / Pow2(i)) % 2 == 1 && (b / Pow2(i)) % 2 == 1 ==> Cong(W32(a - b), 0, Pow2(i + 1))
    ensures Cong(W32(2 * a), 0, Pow2(i + 1))
  {
    hide Cong, W32;
    var m := Pow2(i);
    assert Pow2(i + 1) == 2 * m;
    hide Pow2;
    if (a / m) % 2 == 0 {
      EvenMultiple(a, m);
    }
    if (a / m) % 2 == 1 && (b / m) % 2 == 1 {
      OddDifference(a, b, m);
      WrapDivides(a - b, i + 1);
    }
    DoubleMultiple(a, m);
    WrapDivides(2 * a, i + 1);
  }

  lemma InnerSizes(st: Inner, i: nat, m: int)
    requires Abs(st.pa) + Abs(st.pb) <= m && Abs(st.qa) + Abs(st.qb) <= m
    ensures var t := InnerStep(st, i);
      Abs(t.pa) + Abs(t.pb) <= 2 * m && Abs(t.qa) + Abs(t.qb) <= 2 * m
  {
    hide Pow2, W32, W64, GreaterBit, Abs;
    AbsBounds(st.pa, st.qa);
    AbsBounds(st.pb, st.qb);
  }

  lemma AbsBounds(a: int, b: int)
    ensures Abs(a - b) <= Abs(a) + Abs(b) && Abs(b - a) <= Abs(a) + Abs(b) && Abs(2 * a) == 2 * Abs(a) && Abs(2 * b) == 2 * Abs(b)
    ensures Abs(2 * (a - b)) == 2 * Abs(a - b) && Abs(2 * (b - a)) == 2 * Abs(b - a) && Abs(a) >= 0 && Abs(b) >= 0
  {
  }

  lemma BitIsBit(a: u32, m: int)
    requires m > 0
    ensures (a / m) % 2 == 0 || (a / m) % 2 == 1
  {
  }

  lemma InnerKeeps(st: Inner, x: int, y: int, i: nat)
    requires i < 31 && InnerInv(st, x, y, i)
    ensures InnerInv(InnerStep(st, i), x, y, i + 1)
  {
    hide Cong, W32, InnerCase, Abs, GreaterBit;
    assert Pow2(i + 1) == 2 * Pow2(i);
    hide Pow2;
    InnerSizes(st, i, Pow2(i));
    StepDivides(st.aLo, st.bLo, i);
    StepDivides(st.bLo, st.aLo, i);
    BitIsBit(st.aLo, Pow2(i));
    BitIsBit(st.bLo, Pow2(i));
    CombineCong(st.aLo, st.bLo, x, y, st.pa, st.pb, st.qa, st.qb);
    CombineCong(st.bLo, st.aLo, x, y, st.qa, st.qb, st.pa, st.pb);
    LowWords(st, x, y, (st.aLo / Pow2(i)) % 2 == 1, (st.bLo / Pow2(i)) % 2 == 1, GreaterBit(st.aHi, st.bHi) == 1, Pow2(i + 1));
  }

  /** The two low words after a step, in each of its cases. */
  lemma LowWords(st: Inner, x: int, y: int, oa: bool, ob: bool, rt: bool, m: int)
    requires Cong(st.aLo, x * st.pa + y * st.pb, B31) && Cong(st.bLo, x * st.qa + y * st.qb, B31)
    requires !oa ==> Cong(st.aLo, 0, m)
    requires !ob ==> Cong(st.bLo, 0, m)
    requires oa && ob ==> Cong(W32(st.aLo - st.bLo), 0, m) && Cong(W32(st.bLo - st.aLo), 0, m)
    requires Cong(W32(2 * st.aLo), 0, m) && Cong(W32(2 * st.bLo), 0, m)
    requires Cong(W32(st.aLo - st.bLo), x * (st.pa - st.qa) + y * (st.pb - st.qb), B31)
    requires Cong(W32(st.bLo - st.aLo), x * (st.qa - st.pa) + y * (st.qb - st.pb), B31)
    requires Cong(W32(2 * st.aLo), x * (2 * st.pa) + y * (2 * st.pb), B31) && Cong(W32(2 * st.bLo), x * (2 * st.qa) + y * (2 * st.qb), B31)
    ensures var t := InnerCase(st, oa, ob, rt);
      Cong(t.aLo, x * t.pa + y * t.pb, B31) && Cong(t.bLo, x * t.qa + y * t.qb, B31) && Cong(t.aLo, 0, m) && Cong(t.bLo, 0, m)
  {
    hide Cong, W32, W64;
  }

  /**
   * With the whole numbers x and y as top words, a and b are what the exact algorithm makes of them:
   * they are in the top words, and 2^i times them are the combinations.
   */
  ghost predicate InnerExact(st: Inner, x: int, y: int, i: nat, a: nat, b: nat) {
    st.aHi == a && st.bHi == b && x * st.pa + y * st.pb == Pow2(i) * a && x * st.qa + y * st.qb == Pow2(i) * b
  }

  /** The bit that the code looks at is the parity of the number. */
  lemma BitIsParity(w: u32, z: int, i: nat, a: nat)
    requires i < 31 && Cong(w, z, B31) && z == Pow2(i) * a
    ensures (w / Pow2(i)) % 2 == a % 2
  {
    hide Cong, Pow2;
    Pow2Add(i, 30 - i);
    Pow2Add(30, 1);
    Pow2Whole();
    var k := Quotient(w, z, B31);
    ParityShift(w, Pow2(i), Pow2(30 - i), a, k);
  }

  lemma ParityShift(w: int, m: int, h: int, a: nat, k: int)
    requires m > 0 && 2 * (m * h) == B31 && w - m * a == B31 * k
    ensures (w / m) % 2 == a % 2
  {
    var e := h * k;
    assert (m * h) * k == m * e by { MulAssoc(m, h, k); }
    assert B31 * k == 2 * ((m * h) * k);
    assert m * (2 * e) == 2 * (m * e);
    assert m * (a + 2 * e) == m * a + m * (2 * e);
    DivExact(a + 2 * e, m);
  }

  lemma Pow2Whole()
    ensures Pow2(31) == B31 && Pow2(1) == 2
  {
    Pow2IsPow(31);
    Pow2Values();
  }

  lemma InnerFollows(st: Inner, x: int, y: int, i: nat, a: nat, b: nat)
    requires i < 31 && InnerInv(st, x, y, i) && InnerExact(st, x, y, i, a, b)
    ensures InnerExact(InnerStep(st, i), x, y, i + 1, GcdStep(a, b).0, GcdStep(a, b).1)
  {
    hide InnerCase, Abs, Cong, GreaterBit, GcdStep;
    BitIsParity(st.aLo, x * st.pa + y * st.pb, i, a);
    BitIsParity(st.bLo, x * st.qa + y * st.qb, i, b);
    GreaterBitSpec(a, b);
    var m := Pow2(i);
    assert Pow2(i + 1) == 2 * m;
    hide Pow2;
    CaseFollows(st, x, y, m, a, b);
  }

  lemma CaseFollows(st: Inner, x: int, y: int, m: int, a: nat, b: nat)
    requires st.aHi == a && st.bHi == b && x * st.pa + y * st.pb == m * a && x * st.qa + y * st.qb == m * b
    ensures var t, r := InnerCase(st, a % 2 == 1, b % 2 == 1, a > b), GcdStep(a, b);
      t.aHi == r.0 && t.bHi == r.1 && x * t.pa + y * t.pb == (2 * m) * r.0 && x * t.qa + y * t.qb == (2 * m) * r.1
  {
    hide InnerCase, GcdStep;
    InnerCases(st, a, b);
    var t, r := InnerCase(st, a % 2 == 1, b % 2 == 1, a > b), GcdStep(a, b);
    if a % 2 == 0 {
      HalvedSide(x, y, st.pa, st.pb, m, a, r.0);
      DoubledSide(x, y, st.qa, st.qb, t.qa, t.qb, m, b);
    } else if b % 2 == 0 {
      HalvedSide(x, y, st.qa, st.qb, m, b, r.1);
      DoubledSide(x, y, st.pa, st.pb, t.pa, t.pb, m, a);
    } else if a > b {
      SubtractedSide(x, y, st.pa, st.pb, st.qa, st.qb, t.pa, t.pb, m, a, b, r.0);
      DoubledSide(x, y, st.qa, st.qb, t.qa, t.qb, m, b);
    } else {
      SubtractedSide(x, y, st.qa, st.qb, st.pa, st.pb, t.qa, t.qb, m, b, a, r.1);
      DoubledSide(x, y, st.pa, st.pb, t.pa, t.pb, m, a);
    }
  }

  /** The side that is halved as it is. */
  lemma HalvedSide(x: int, y: int, pa: int, pb: int, m: int, a: int, c: int)
    requires x * pa + y * pb == m * a && 2 * c == a
    ensures x * pa + y * pb == (2 * m) * c
  {
    MulAssoc(m, 2, c);
  }

  /** The side that is halved after b has been subtracted from a. */
  lemma SubtractedSide(x: int, y: int, pa: int, pb: int, qa: int, qb: int, ta: int, tb: int, m: int, a: int, b: int, c: int)
    requires x * pa + y * pb == m * a && x * qa + y * qb == m * b && ta == pa - qa && tb == pb - qb && 2 * c == a - b
    ensures x * ta + y * tb == (2 * m) * c
  {
    assert x * (pa - qa) == x * pa - x * qa && y * (pb - qb) == y * pb - y * qb;
    assert m * (a - b) == m * a - m * b;
    assert m * (2 * c) == (2 * m) * c;
  }

  /** The other one, of which only the factors are doubled. */
  lemma DoubledSide(x: int, y: int, qa: int, qb: int, ta: int, tb: int, m: int, b: int)
    requires x * qa + y * qb == m * b && ta == 2 * qa && tb == 2 * qb
    ensures x * ta + y * tb == (2 * m) * b
  {
    assert x * (2 * qa) == 2 * (x * qa) && y * (2 * qb) == 2 * (y * qb);
    assert (2 * m) * b == 2 * (m * b);
  }

  lemma InnerCases(st: Inner, a: nat, b: nat)
    requires st.aHi == a && st.bHi == b
    ensures var t, r := InnerCase(st, a % 2 == 1, b % 2 == 1, a > b), GcdStep(a, b);
      t.aHi == r.0 && t.bHi == r.1 &&
      (a % 2 == 0 ==>
        2 * r.0 == a && r.1 == b && t.pa == st.pa && t.pb == st.pb && t.qa == 2 * st.qa && t.qb == 2 * st.qb) &&
      (a % 2 != 0 && b % 2 == 0 ==>
        r.0 == a && 2 * r.1 == b && t.pa == 2 * st.pa && t.pb == 2 * st.pb && t.qa == st.qa && t.qb == st.qb) &&
      (a % 2 != 0 && b % 2 != 0 && a > b ==>
        2 * r.0 == a - b && r.1 == b && t.pa == st.pa - st.qa && t.pb == st.pb - st.qb && t.qa == 2 * st.qa && t.qb == 2 * st.qb) &&
      (a % 2 != 0 && b % 2 != 0 && a <= b ==>
        r.0 == a && 2 * r.1 == b - a && t.pa == 2 * st.pa && t.pb == 2 * st.pb && t.qa == st.qa - st.pa && t.qb == st.qb - st.pb)
  {
    hide W32;
  }

  /** After 31 steps both combinations are multiples of 2^31; exactly 2^31 times the exact results when the top words are exact. */
  method Coefficients(aLo: u32, bLo: u32, aHi: u64, bHi: u64, ghost x: int, ghost y: int) returns (st: Inner)
    requires Cong(aLo, x, B31) && Cong(bLo, y, B31)
    ensures Factors(st.pa, st.pb) && Factors(st.qa, st.qb)
    ensures Cong(x * st.pa + y * st.pb, 0, B31) && Cong(x * st.qa + y * st.qb, 0, B31)
    ensures aHi == x && bHi == y ==> Exactly(st, x, y, Steps(aHi, bHi, 31))
  {
    hide Cong, InnerStep, InnerInv, InnerExact, Steps, GcdStep, Exactly;
    st := Inner(aLo, bLo, aHi, bHi, 1, 0, 0, 1);
    InnerStart(aLo, bLo, aHi, bHi, x, y);
    ghost var r: (nat, nat) := (aHi, bHi);
    StepsNone(aHi, bHi);
    for i := 0 to 31
      invariant InnerInv(st, x, y, i)
      invariant r == Steps(aHi, bHi, i) && (aHi == x && bHi == y ==> InnerExact(st, x, y, i, r.0, r.1))
    {
      InnerKeeps(st, x, y, i);
      if aHi == x && bHi == y {
        InnerFollows(st, x, y, i, r.0, r.1);
      }
      StepsNext(aHi, bHi, i);
      r := GcdStep(r.0, r.1);
      st := InnerStep(st, i);
    }
    InnerEnd(st, x, y);
    if aHi == x && bHi == y {
      ExactEnd(st, x, y, r);
    }
  }

  ghost predicate Exactly(st: Inner, x: int, y: int, r: (nat, nat)) {
    x * st.pa + y * st.pb == B31 * r.0 && x * st.qa + y * st.qb == B31 * r.1
  }

  lemma StepsNone(a: nat, b: nat)
    ensures Steps(a, b, 0) == (a, b)
  {
  }

  lemma StepsNext(a: nat, b: nat, n: nat)
    ensures Steps(a, b, n + 1) == GcdStep(Steps(a, b, n).0, Steps(a, b, n).1)
  {
    hide GcdStep;
  }

  lemma ExactEnd(st: Inner, x: int, y: int, r: (nat, nat))
    requires InnerExact(st, x, y, 31, r.0, r.1)
    ensures Exactly(st, x, y, r)
  {
    hide Pow2;
    Pow2Whole();
  }

  lemma InnerStart(aLo: u32, bLo: u32, aHi: u64, bHi: u64, x: int, y: int)
    requires Cong(aLo, x, B31) && Cong(bLo, y, B31)
    ensures InnerInv(Inner(aLo, bLo, aHi, bHi, 1, 0, 0, 1), x, y, 0)
    ensures aHi == x && bHi == y ==> InnerExact(Inner(aLo, bLo, aHi, bHi, 1, 0, 0, 1), x, y, 0, aHi, bHi)
  {
    assert x * 1 + y * 0 == x && x * 0 + y * 1 == y;
    assert Pow2(0) == 1;
    ByQuotient(aLo, 0, 1, aLo);
    ByQuotient(bLo, 0, 1, bLo);
  }

  lemma InnerEnd(st: Inner, x: int, y: int)
    requires InnerInv(st, x, y, 31)
    ensures Factors(st.pa, st.pb) && Factors(st.qa, st.qb)
    ensures Cong(x * st.pa + y * st.pb, 0, B31) && Cong(x * st.qa + y * st.qb, 0, B31)
  {
    hide Cong;
    Pow2IsPow(31);
    Pow2Values();
    CongSym(st.aLo, x * st.pa + y * st.pb, B31);
    CongSym(st.bLo, x * st.qa + y * st.qb, B31);
    CongTrans(x * st.pa + y * st.pb, st.aLo, 0, B31);
    CongTrans(x * st.qa + y * st.qb, st.bLo, 0, B31);
  }

  // ---------------------------------------------------------------------
  // The invariant of the outer loop
  // ---------------------------------------------------------------------

  /** a = x*u modulo y and a = -y*v modulo x. */
  ghost predicate Linked(a: int, u: int, v: int, x: int, y: int) {
    Cong(a, x * u, y) && Cong(a, 0 - y * v, x)
  }

  /** 2^31 is invertible modulo an odd number given with its -1/m[0]. */
  lemma OddInverse(m: int, m0: int, m0i: int) returns (inv: int)
    requires m > 0 && Cong(m, m0, B31) && NegInverse(m0, m0i)
    ensures Cong(B31 * inv, 1, m)
  {
    hide Cong, NegInverse;
    var k := Quotient(m, m0, B31);
    var e := NegInverseQuotient(m0, m0i);
    inv := e + k * m0i;
    assert B31 * inv - 1 == m * m0i by {
      assert B31 * (e + k * m0i) == B31 * e + (B31 * k) * m0i by { MulAssoc(B31, k, m0i); }
      assert (m - m0) * m0i == m * m0i - m0 * m0i;
    }
    ByQuotient(B31 * inv, 1, m, m0i);
  }

  /** One congruence through a linear combination divided by 2^31. */
  lemma CombineLink(a: int, b: int, a': int, x: int, u0: int, u1: int, u': int, pa: int, pb: int, m: int, inv: int)
    requires m > 0 && Cong(B31 * inv, 1, m) && B31 * a' == a * pa + b * pb
    requires Cong(a, x * u0, m) && Cong(b, x * u1, m) && Cong(B31 * u', u0 * pa + u1 * pb, m)
    ensures Cong(a', x * u', m)
  {
    hide Cong;
    CongScale(a, x * u0, pa, m);
    CongScale(b, x * u1, pb, m);
    CongAdd(a * pa, (x * u0) * pa, b * pb, (x * u1) * pb, m);
    assert (x * u0) * pa + (x * u1) * pb == x * (u0 * pa + u1 * pb) by {
      MulAssoc(x, u0, pa);
      MulAssoc(x, u1, pb);
    }
    CongScale(B31 * u', u0 * pa + u1 * pb, x, m);
    assert x * (B31 * u') == (x * u') * B31 by { MulAssoc(x, B31, u'); MulAssoc(x, u', B31); }
    CongSym(x * (B31 * u'), x * (u0 * pa + u1 * pb), m);
    CongTrans(a' * B31, x * (u0 * pa + u1 * pb), (x * u') * B31, m);
    CongCancel(a', x * u', B31, inv, m);
  }

  lemma NegateProducts(y: int, a: int, b: int, c: int)
    ensures (0 - y) * a == 0 - y * a && (0 - y) * b == 0 - y * b && (0 - y) * c == 0 - y * c
  {
  }

  lemma LinkNegative(y: int, v0: int, v1: int, v': int, pa: int, pb: int, a: int, b: int, a': int, x: int, inv: int)
    requires x > 0 && Cong(B31 * inv, 1, x) && B31 * a' == a * pa + b * pb
    requires Cong(a, 0 - y * v0, x) && Cong(b, 0 - y * v1, x) && Cong(B31 * v', v0 * pa + v1 * pb, x)
    ensures Cong(a', 0 - y * v', x)
  {
    hide Cong;
    NegateProducts(y, v0, v1, v');
    CombineLink(a, b, a', 0 - y, v0, v1, v', pa, pb, x, inv);
  }

  lemma QuotientRange(x: int, y: int, u: int, w: int)
    requires x > 0 && y > 1 && 0 <= u < y && x * u - 1 == y * w
    ensures 0 <= w < x
  {
    MulMono(0, u, x);
    MulMono(u, y - 1, x);
    assert (y - 1) * x == y * x - x;
    if w < 0 {
      MulMono(w, -1, y);
    } else if w >= x {
      MulMono(x, w, y);
    }
  }

  /** Linked to x and y, one is x*u - y*v exactly. */
  lemma BezoutFromLinks(x: int, y: int, u: int, v: int)
    requires x > 0 && y > 1 && 0 <= u < y && 0 <= v < x && Linked(1, u, v, x, y)
    ensures x * u - y * v == 1
  {
    hide Cong;
    var k := Quotient(1, x * u, y);
    var w := 0 - k;
    assert x * u - 1 == y * w by { assert y * (0 - k) == 0 - y * k; }
    QuotientRange(x, y, u, w);
    // y*w = -1 = y*v modulo x, and -v is an inverse of y
    ByQuotient(y * w, -1, x, u);
    CongScale(1, 0 - y * v, -1, x);
    assert -1 * (0 - y * v) == y * v;
    CongTrans(y * w, -1, y * v, x);
    CongSym(1, 0 - y * v, x);
    assert y * (0 - v) == 0 - y * v;
    CongCancel(w, v, y, 0 - v, x);
    CongUnique(w, v, x);
  }

  ghost predicate OddOperands(x: seq<u32>, y: seq<u32>) {
    |x| == |y| > 0 && Digits(x) && Digits(y) && x[0] % 2 == 1 && y[0] % 2 == 1
  }

  /** All six numbers are well formed, and (for odd x, y with y > 1) linked and in range. */
  ghost predicate Outer(a: seq<u32>, b: seq<u32>, u0: seq<u32>, u1: seq<u32>, v0: seq<u32>, v1: seq<u32>, x: seq<u32>, y: seq<u32>) {
    |a| == |b| == |u0| == |u1| == |v0| == |v1| == |x| == |y| &&
    Digits(a) && Digits(b) && Digits(u0) && Digits(u1) && Digits(v0) && Digits(v1) &&
    (OddOperands(x, y) && Val(y) > 1 ==>
      Linked(Val(a), Val(u0), Val(v0), Val(x), Val(y)) && Linked(Val(b), Val(u1), Val(v1), Val(x), Val(y)) &&
      Val(u0) < Val(y) && Val(v0) < Val(x) && Val(u1) <= Val(y) && Val(v1) <= Val(x))
  }

  lemma {:induction false} ValPositive(s: seq<u32>)
    requires |s| > 0 && Digits(s) && s[0] % 2 == 1
    ensures Val(s) > 0 && Val(s) % 2 == 1
  {
    ValBound(s[1..]);
    assert Val(s) == s[0] + B31 * Val(s[1..]);
  }

  /** a' is (a*p + b*q) / 2^31, an exact division. */
  ghost predicate Halved(a': int, a: int, b: int, p: int, q: int) {
    B31 * a' == a * p + b * q
  }

  /** One step of the outer loop, for one of the two combinations. */
  lemma LinkStep(a: int, b: int, a': int, x: int, y: int, u0: int, u1: int, u': int, v0: int, v1: int, v': int,
                 p: int, q: int, ix: int, iy: int)
    requires x > 0 && y > 0 && Cong(B31 * ix, 1, x) && Cong(B31 * iy, 1, y) && Halved(a', a, b, p, q)
    requires Linked(a, u0, v0, x, y) && Linked(b, u1, v1, x, y)
    requires ModReduced(u', u0, u1, y, p, q) && ModReduced(v', v0, v1, x, p, q)
    ensures Linked(a', u', v', x, y) && u' < y && v' < x
  {
    hide Cong;
    CombineLink(a, b, a', x, u0, u1, u', p, q, y, iy);
    LinkNegative(y, v0, v1, v', p, q, a, b, a', x, ix);
  }

  lemma OuterParts(a: seq<u32>, b: seq<u32>, u0: seq<u32>, u1: seq<u32>, v0: seq<u32>, v1: seq<u32>, x: seq<u32>, y: seq<u32>)
    requires Outer(a, b, u0, u1, v0, v1, x, y) && OddOperands(x, y) && Val(y) > 1
    ensures |x| == |y| > 0 && Val(x) > 0 && x[0] % 2 == 1 && y[0] % 2 == 1
    ensures Linked(Val(a), Val(u0), Val(v0), Val(x), Val(y)) && Linked(Val(b), Val(u1), Val(v1), Val(x), Val(y))
    ensures Val(u0) < Val(y) && Val(v0) < Val(x) && Val(u1) <= Val(y) && Val(v1) <= Val(x)
  {
    hide Val, Linked, Digits;
    ValPositive(x);
  }

  lemma WordInverse(x: seq<u32>, x0i: u32) returns (inv: int)
    requires |x| > 0 && Val(x) > 0 && NegInverse(x[0], x0i)
    ensures Cong(B31 * inv, 1, Val(x))
  {
    hide Cong, Val, NegInverse;
    ValFirst(x);
    inv := OddInverse(Val(x), x[0], x0i);
  }

  lemma StartLinks(x: int, y: int)
    requires x > 0 && y > 0
    ensures Linked(x, 1, 0, x, y) && Linked(y, y, x - 1, x, y)
  {
    hide Cong;
    CongRefl(x, y);
    ByQuotient(x, 0, x, 1);
    ByQuotient(y, x * y, y, 1 - x);
    assert y * (1 - x) == y - x * y;
    ByQuotient(y, 0 - y * (x - 1), x, y);
    assert 0 - y * (x - 1) == y - y * x;
    assert x * 1 == x && y * 0 == 0;
  }

  // ---------------------------------------------------------------------
  // zint_bezout
  // ---------------------------------------------------------------------

  /** Flips the sign of a coefficient pair when the combination came out negative. */
  function Flip(p: int, negative: bool): int {
    if negative then 0 - p else p
  }

  lemma FlipFactors(p: int, q: int, negative: bool)
    requires Factors(p, q)
    ensures Factors(Flip(p, negative), Flip(q, negative))
  {
  }

  lemma FlipCombination(a: int, b: int, p: int, q: int, k: int)
    requires a * p + b * q == B31 * k
    ensures Halved(Abs(k), a, b, Flip(p, k < 0), Flip(q, k < 0))
  {
    assert a * (0 - p) + b * (0 - q) == 0 - (a * p + b * q);
  }

  lemma OperandsReady(s: seq<u32>, t: seq<u32>, m: seq<u32>, m0i: u32)
    requires |s| == |t| == |m| > 0 && Digits(s) && Digits(t) && Digits(m)
    requires Val(s) <= Val(m) && Val(t) <= Val(m) && NegInverse(m[0], m0i)
    ensures ModOperands(s, t, m, m0i)
  {
  }

  /** One iteration of the outer loop. */
  method Round(a: array<u32>, b: array<u32>, u0: array<u32>, u1: array<u32>, v0: array<u32>, v1: array<u32>,
               x: array<u32>, y: array<u32>, x0i: u32, y0i: u32)
    requires Distinct(a, b, u0, u1, v0, v1, x, y) && x.Length > 0 && Digits(x[..]) && Digits(y[..])
    requires Outer(a[..], b[..], u0[..], u1[..], v0[..], v1[..], x[..], y[..])
    requires OddOperands(x[..], y[..]) ==> NegInverse(x[0], x0i) && NegInverse(y[0], y0i)
    modifies a, b, u0, u1, v0, v1
    ensures Outer(a[..], b[..], u0[..], u1[..], v0[..], v1[..], x[..], y[..])
    ensures Follows(old(Val(a[..])), old(Val(b[..])), 31, Val(a[..]), Val(b[..]))
  {
    hide Steps, TopIndex, TopPair, Exactly, Follows, Cong, Val, Base, Digits, NegInverse, Factors, FullRange, ModReduced, ModOperands, OddOperands, Linked, TopIndex, TopPair, Abs, Flip, Halved;
    ghost var a1: seq<u32>, b1: seq<u32>, s0: seq<u32>, s1: seq<u32>, t0: seq<u32>, t1: seq<u32>
      := a[..], b[..], u0[..], u1[..], v0[..], v1[..];
    var aHi, bHi := TopWords(a, b);
    FirstWordCong(a[..]);
    FirstWordCong(b[..]);
    var st := Coefficients(a[0], b[0], aHi, bHi, Val(a[..]), Val(b[..]));
    JointRange(st.pa, st.pb);
    JointRange(st.qa, st.qb);
    ghost var ka := Quotient(Val(a1) * st.pa + Val(b1) * st.pb, 0, B31);
    ghost var kb := Quotient(Val(a1) * st.qa + Val(b1) * st.qb, 0, B31);
    var r := CoReduce(a, b, st.pa, st.pb, st.qa, st.qb, ka, kb);
    var na, nb := r % 2 == 1, r / 2 == 1;
    FlipFactors(st.pa, st.pb, na);
    FlipFactors(st.qa, st.qb, nb);
    FlipCombination(Val(a1), Val(b1), st.pa, st.pb, ka);
    FlipCombination(Val(a1), Val(b1), st.qa, st.qb, kb);
    RoundFollows(a1, b1, aHi, bHi, st, ka, kb, Val(a[..]), Val(b[..]));
    var pa, pb, qa, qb := Flip(st.pa, na), Flip(st.pb, na), Flip(st.qa, nb), Flip(st.qb, nb);
    CoReduceMod(u0, u1, y, y0i, pa, pb, qa, qb);
    CoReduceMod(v0, v1, x, x0i, pa, pb, qa, qb);
    if OddOperands(x[..], y[..]) && Val(y[..]) > 1 {
      OuterParts(a1, b1, s0, s1, t0, t1, x[..], y[..]);
      OperandsReady(s0, s1, y[..], y0i);
      OperandsReady(t0, t1, x[..], x0i);
      ghost var ix := WordInverse(x[..], x0i);
      ghost var iy := WordInverse(y[..], y0i);
      LinkStep(Val(a1), Val(b1), Val(a[..]), Val(x[..]), Val(y[..]), Val(s0), Val(s1), Val(u0[..]), Val(t0), Val(t1), Val(v0[..]), pa, pb, ix, iy);
      LinkStep(Val(a1), Val(b1), Val(b[..]), Val(x[..]), Val(y[..]), Val(s0), Val(s1), Val(u1[..]), Val(t0), Val(t1), Val(v1[..]), qa, qb, ix, iy);
    }
  }

  /** Below 2^62, n steps of the exact algorithm lead from (a, b) to (c, d). */
  ghost predicate Follows(a: int, b: int, n: nat, c: int, d: int) {
    0 <= a < B62 && 0 <= b < B62 ==> c == Steps(a, b, n).0 && d == Steps(a, b, n).1
  }

  lemma RoundFollows(s: seq<u32>, t: seq<u32>, aHi: u64, bHi: u64, st: Inner, ka: int, kb: int, c: int, d: int)
    requires |s| == |t| > 0 && Digits(s) && Digits(t)
    requires aHi == TopPair(s, TopIndex(s, t, |s|)) && bHi == TopPair(t, TopIndex(s, t, |s|))
    requires aHi == Val(s) && bHi == Val(t) ==> Exactly(st, Val(s), Val(t), Steps(aHi, bHi, 31))
    requires Val(s) * st.pa + Val(t) * st.pb == B31 * ka && Val(s) * st.qa + Val(t) * st.qb == B31 * kb
    requires c == Abs(ka) && d == Abs(kb)
    ensures Follows(Val(s), Val(t), 31, c, d)
  {
    hide Val, Steps, TopPair, TopIndex, Digits;
    if Val(s) < B62 && Val(t) < B62 {
      TopExact(s, t);
    }
  }

  lemma JointRange(p: int, q: int)
    requires Factors(p, q)
    ensures FullRange(p, q)
  {
  }

  lemma FirstWordCong(s: seq<u32>)
    requires |s| > 0
    ensures Cong(s[0], Val(s), B31)
  {
    hide Cong, Val;
    ValFirst(s);
    CongSym(Val(s), s[0], B31);
  }

  ghost predicate Distinct(a: array<u32>, b: array<u32>, u0: array<u32>, u1: array<u32>, v0: array<u32>, v1: array<u32>,
                           x: array<u32>, y: array<u32>) {
    a.Length == b.Length == u0.Length == u1.Length == v0.Length == v1.Length == x.Length == y.Length &&
    a != b && a != u0 && a != u1 && a != v0 && a != v1 && a != x && a != y &&
    b != u0 && b != u1 && b != v0 && b != v1 && b != x && b != y &&
    u0 != u1 && u0 != v0 && u0 != v1 && u0 != x && u0 != y &&
    u1 != v0 && u1 != v1 && u1 != x && u1 != y &&
    v0 != v1 && v0 != x && v0 != y && v1 != x && v1 != y
  }

  /** rc is zero exactly when the number is one. */
  method IsOne(a: array<u32>) returns (one: bool)
    requires a.Length > 0 && Digits(a[..])
    ensures one <==> Val(a[..]) == 1
  {
    one := a[0] == 1;
    for j := 1 to a.Length
      invariant one <==> a[0] == 1 && forall i :: 1 <= i < j ==> a[i] == 0
    {
      one := one && a[j] == 0;
    }
    OneDigits(a[..]);
  }

  /** The words of one. */
  lemma OneDigits(s: seq<u32>)
    requires |s| > 0 && Digits(s)
    ensures Val(s) == 1 <==> s[0] == 1 && forall i :: 1 <= i < |s| ==> s[i] == 0
  {
    var t := s[1..];
    if s[0] == 1 && forall i :: 1 <= i < |s| ==> s[i] == 0 {
      ZerosAre(t);
    }
    if Val(s) == 1 {
      ValBound(t);
      assert Val(t) == 0;
      NothingLeft(t);
      forall i | 1 <= i < |s|
        ensures s[i] == 0
      {
        assert s[i] == t[i - 1];
      }
    }
  }

  lemma {:induction false} NothingLeft(s: seq<u32>)
    requires Digits(s) && Val(s) == 0
    ensures forall i :: 0 <= i < |s| ==> s[i] == 0
  {
    if |s| > 0 {
      ValBound(s[1..]);
      assert s[0] == 0 && Val(s[1..]) == 0;
      NothingLeft(s[1..]);
      forall i | 0 <= i < |s|
        ensures s[i] == 0
      {
        if i > 0 { assert s[i] == s[1..][i - 1]; }
      }
    }
  }

  method Copy(src: array<u32>, dst: array<u32>)
    requires src != dst && src.Length == dst.Length
    modifies dst
    ensures dst[..] == src[..]
  {
    for i := 0 to src.Length
      invariant dst[..i] == src[..i] && src[..] == old(src[..])
    {
      dst[i] := src[i];
    }
  }

  method SetSmall(dst: array<u32>, w: u32)
    requires dst.Length > 0 && w < B31
    modifies dst
    ensures Digits(dst[..]) && Val(dst[..]) == w
  {
    dst[0] := w;
    for i := 1 to dst.Length
      invariant dst[0] == w && forall j :: 1 <= j < i ==> dst[j] == 0
    {
      dst[i] := 0;
    }
    assert dst[..][1..] == dst[1..];
    ZerosAre(dst[1..]);
  }

  lemma Decrement(s: seq<u32>)
    requires |s| > 0 && Digits(s) && s[0] > 0
    ensures Digits(s[0 := s[0] - 1]) && Val(s[0 := s[0] - 1]) == Val(s) - 1
  {
    assert s[0 := s[0] - 1][1..] == s[1..];
  }

  /**
   * zint_bezout. When it reports a GCD of one for odd x and y with y > 1, u and v are in range
   * and satisfy x*u - y*v = 1 exactly; with an even operand it reports none. For odd x and y below 2^62
   * it reports a GCD of one exactly when they are coprime. If the low word of x is
   * zero, the loop is skipped here: it would decrement that word, and the last line discards its result.
   */
  method Bezout(u: array<u32>, v: array<u32>, x: array<u32>, y: array<u32>) returns (ok: bool)
    requires u != v && u != x && u != y && v != x && v != y && x != y
    requires u.Length == v.Length == x.Length == y.Length && Digits(x[..]) && Digits(y[..])
    modifies u, v
    ensures ok ==> x.Length > 0 && x[0] % 2 == 1 && y[0] % 2 == 1
    ensures x.Length > 0 && x[0] % 2 == 1 && y[0] % 2 == 1 && Val(x[..]) < B62 && Val(y[..]) < B62 && 62 * x.Length + 30 < B32 ==>
      (ok <==> Coprime(Val(x[..]), Val(y[..])))
    ensures ok && Val(y[..]) > 1 ==>
      0 <= Val(u[..]) < Val(y[..]) && 0 <= Val(v[..]) < Val(x[..]) &&
      Val(x[..]) * Val(u[..]) - Val(y[..]) * Val(v[..]) == 1
  {
    hide Cong, Val, Digits, NegInverse, NInv31, Linked, Outer, OddOperands, W32, Distinct, Follows, Coprime;
    var len := x.Length;
    if len == 0 || x[0] == 0 {
      return false;
    }
    var x0i: u32, y0i: u32 := NInv31(x[0]), NInv31(y[0]);
    OddInverses(x[..], y[..]);
    var a, b, u1, v1 := SetUp(u, v, x, y);
    var num: u32 := W32(62 * len + 30);
    ghost var n, rounds: nat := num, 0;
    FollowsNone(Val(x[..]), Val(y[..]));
    while num >= 30
      invariant x[..] == old(x[..]) && y[..] == old(y[..])
      invariant num == n - 30 * rounds
      invariant x[0] % 2 == 1 && y[0] % 2 == 1 ==> Follows(Val(x[..]), Val(y[..]), 31 * rounds, Val(a[..]), Val(b[..]))
      invariant Outer(a[..], b[..], u[..], u1[..], v[..], v1[..], x[..], y[..])
      decreases num
    {
      ghost var c, d := Val(a[..]), Val(b[..]);
      Round(a, b, u, u1, v, v1, x, y, x0i, y0i);
      FollowsOn(x[..], y[..], 31 * rounds, c, d, Val(a[..]), Val(b[..]));
      num := num - 30;
      rounds := rounds + 1;
    }
    OuterDigits(a[..], b[..], u[..], u1[..], v[..], v1[..], x[..], y[..]);
    RoundsSuffice(x[..], y[..], n, rounds, Val(a[..]), Val(b[..]));
    ok := IsOne(a);
    ok := ok && x[0] % 2 == 1 && y[0] % 2 == 1;
    if ok && Val(y[..]) > 1 {
      OperandsOdd(x[..], y[..]);
      OuterEnd(a[..], b[..], u[..], u1[..], v[..], v1[..], x[..], y[..]);
    }
  }

  /** a = x, b = y, u0 = 1, v0 = 0, u1 = y, v1 = x - 1. */
  method SetUp(u: array<u32>, v: array<u32>, x: array<u32>, y: array<u32>) returns (a: array<u32>, b: array<u32>, u1: array<u32>, v1: array<u32>)
    requires u != v && u != x && u != y && v != x && v != y && x != y
    requires u.Length == v.Length == x.Length == y.Length > 0 && Digits(x[..]) && Digits(y[..]) && x[0] > 0
    modifies u, v
    ensures fresh(a) && fresh(b) && fresh(u1) && fresh(v1) && Distinct(a, b, u, u1, v, v1, x, y)
    ensures Outer(a[..], b[..], u[..], u1[..], v[..], v1[..], x[..], y[..])
    ensures a[..] == x[..] && b[..] == y[..]
  {
    hide Val, Digits, Outer;
    var len := x.Length;
    u1, v1, a, b := new u32[len], new u32[len], new u32[len], new u32[len];
    Copy(x, a);
    Copy(y, b);
    SetSmall(u, 1);
    SetSmall(v, 0);
    Copy(y, u1);
    Copy(x, v1);
    DigitAt(x[..], 0);
    Decrement(x[..]);
    v1[0] := v1[0] - 1;
    assert v1[..] == x[..][0 := x[0] - 1];
    OuterStart(a[..], b[..], u[..], u1[..], v[..], v1[..], x[..], y[..]);
  }

  lemma FollowsNone(a: int, b: int)
    ensures Follows(a, b, 0, a, b)
  {
  }

  /** Another round; the exact algorithm does not leave the range. */
  lemma FollowsOn(x: seq<u32>, y: seq<u32>, n: nat, c: int, d: int, c': int, d': int)
    requires |x| > 0 && |y| > 0 && Digits(x) && Digits(y)
    requires x[0] % 2 == 1 && y[0] % 2 == 1 ==> Follows(Val(x), Val(y), n, c, d)
    requires Follows(c, d, 31, c', d')
    ensures x[0] % 2 == 1 && y[0] % 2 == 1 ==> Follows(Val(x), Val(y), n + 31, c', d')
  {
    hide Val, Steps, Digits;
    if x[0] % 2 == 1 && y[0] % 2 == 1 && Val(x) < B62 && Val(y) < B62 {
      ValPositive(x);
      ValPositive(y);
      StepsShrink(Val(x), Val(y), n);
      StepsAdd(Val(x), Val(y), n, 31);
    }
  }

  lemma {:induction false} BaseIsPow2(n: nat)
    ensures Base(n) == Pow2(31 * n)
  {
    if n > 0 {
      BaseIsPow2(n - 1);
      assert 31 * n == 31 + 31 * (n - 1);
      Pow2Add(31, 31 * (n - 1));
      Pow2Whole();
    }
  }

  lemma {:induction false} Pow2Grows(m: nat, n: nat)
    requires m <= n
    ensures Pow2(m) <= Pow2(n)
  {
    if m < n {
      Pow2Grows(m, n - 1);
    }
  }

  /** The product of the operands has at most 62 bits a word, and every round takes at least 31 of them. */
  lemma RoundsSuffice(x: seq<u32>, y: seq<u32>, n: nat, rounds: nat, c: int, d: int)
    requires |x| == |y| > 0 && Digits(x) && Digits(y) && n == W32(62 * |x| + 30) && n - 30 * rounds < 30
    requires x[0] % 2 == 1 && y[0] % 2 == 1 ==> Follows(Val(x), Val(y), 31 * rounds, c, d)
    ensures x[0] % 2 == 1 && y[0] % 2 == 1 && Val(x) < B62 && Val(y) < B62 && 62 * |x| + 30 < B32 ==> (c == 1 <==> Coprime(Val(x), Val(y)))
  {
    hide Val, Base, Pow2, Steps, Coprime, Digits;
    if x[0] % 2 == 1 && y[0] % 2 == 1 && Val(x) < B62 && Val(y) < B62 && 62 * |x| + 30 < B32 {
      ValPositive(x);
      ValPositive(y);
      ValBound(x);
      ValBound(y);
      var k := 31 * |x|;
      BaseIsPow2(|x|);
      Pow2Add(k, k);
      Pow2Grows(k + k, 31 * rounds);
      ProductBelow(Val(x), Val(y), Pow2(k));
      StepsEnd(Val(x), Val(y), 31 * rounds);
    }
  }

  lemma ProductBelow(x: int, y: int, m: int)
    requires 0 < x < m && 0 < y < m
    ensures x * y < m * m
  {
    MulMono(x, m, y);
    MulMono(y, m - 1, m);
  }

  lemma OddInverses(x: seq<u32>, y: seq<u32>)
    requires |x| > 0 && |y| > 0
    ensures OddOperands(x, y) ==> NegInverse(x[0], NInv31(x[0])) && NegInverse(y[0], NInv31(y[0]))
  {
    hide NInv31, NegInverse, Digits;
    if OddOperands(x, y) {
      NInv31Spec(x[0]);
      NInv31Spec(y[0]);
    }
  }

  lemma OperandsOdd(x: seq<u32>, y: seq<u32>)
    requires |x| == |y| > 0 && Digits(x) && Digits(y) && x[0] % 2 == 1 && y[0] % 2 == 1
    ensures OddOperands(x, y)
  {
  }

  lemma OuterStart(a: seq<u32>, b: seq<u32>, u0: seq<u32>, u1: seq<u32>, v0: seq<u32>, v1: seq<u32>, x: seq<u32>, y: seq<u32>)
    requires |a| == |b| == |u0| == |u1| == |v0| == |v1| == |x| == |y| > 0 && Digits(x) && Digits(y)
    requires a == x && b == y && u1 == y && Digits(u0) && Digits(v0) && Digits(v1)
    requires Val(u0) == 1 && Val(v0) == 0 && Val(v1) == Val(x) - 1
    ensures Outer(a, b, u0, u1, v0, v1, x, y)
  {
    hide Val, Digits, Linked;
    if OddOperands(x, y) {
      ValPositive(x);
      ValPositive(y);
      StartLinks(Val(x), Val(y));
    }
  }

  lemma OuterDigits(a: seq<u32>, b: seq<u32>, u0: seq<u32>, u1: seq<u32>, v0: seq<u32>, v1: seq<u32>, x: seq<u32>, y: seq<u32>)
    requires Outer(a, b, u0, u1, v0, v1, x, y)
    ensures Digits(a)
  {
  }

  lemma OuterEnd(a: seq<u32>, b: seq<u32>, u0: seq<u32>, u1: seq<u32>, v0: seq<u32>, v1: seq<u32>, x: seq<u32>, y: seq<u32>)
    requires Outer(a, b, u0, u1, v0, v1, x, y) && OddOperands(x, y) && Val(y) > 1 && Val(a) == 1
    ensures 0 <= Val(u0) < Val(y) && 0 <= Val(v0) < Val(x) && Val(x) * Val(u0) - Val(y) * Val(v0) == 1
  {
    hide Val, Digits, Linked;
    ValBound(u0);
    ValBound(v0);
    BezoutFromLinks(Val(x), Val(y), Val(u0), Val(v0));
  }
}
