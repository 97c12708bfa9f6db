/**
 * Linear combinations of big integers divided by 2^31: zint_negate, zint_co_reduce,
 * zint_finish_mod and zint_co_reduce_mod of keygen.c.
 */
module ZintReduce {
  import opened Words
  import opened Congruence
  import opened Modp
  import opened ModpPowers
  import opened Zint

  /** A uint64_t read as an int64_t. */
  function S64(x: int): int {
    var w := W64(x);
    if w < B63 then w else w - B64
  }

  function Abs(x: int): (r: nat) {
    if x < 0 then 0 - x else x
  }

  // ---------------------------------------------------------------------
  // Subtraction modulo 2^(31*len), where the top word may use 32 bits
  // ---------------------------------------------------------------------

  lemma BaseStep(u: nat)
    ensures Base(u + 1) == B31 * Base(u)
  {
  }

  /** All words but the last are on 31 bits. */
  ghost predicate LowDigits(s: seq<u32>) {
    forall i :: 0 <= i < |s| - 1 ==> s[i] < B31
  }

  /**
   * After u words of s - w - c0: the digits, and the borrow, which is exact except after
   * the last word.
   */
  ghost predicate TruncState(s: seq<u32>, w: seq<int>, c0: int, r: seq<u32>, u: nat, c: u32) {
    |w| == |s| && u <= |s| && |r| == u && Digits(r) && Digits(w) && LowDigits(s) &&
    (u < |s| ==> c <= 1 && Val(r) - Base(u) * c == Val(s[..u]) - Val(w[..u]) - c0) &&
    (u == |s| ==> Cong(Val(r), Val(s) - Val(w) - c0, Base(|s|)))
  }

  lemma TruncStart(s: seq<u32>, w: seq<int>, c0: u32)
    requires |w| == |s| > 0 && Digits(w) && LowDigits(s) && c0 <= 1
    ensures TruncState(s, w, c0, [], 0, c0)
  {
    assert Base(0) * c0 == c0;
  }

  lemma TruncStep(s: seq<u32>, w: seq<int>, c0: int, r: seq<u32>, u: nat, c: u32)
    requires TruncState(s, w, c0, r, u, c) && u < |s|
    ensures var z := W32(s[u] - w[u] - c); TruncState(s, w, c0, r + [LowWord(z)], u + 1, z / B31)
  {
    hide Val, Base, Cong, W32, LowWord;
    var z := W32(s[u] - w[u] - c);
    var d: u32 := LowWord(z);
    LowWordBound(z);
    DigitsAppend(r, d);
    DigitInt(w, u);
    if u < |s| - 1 {
      BorrowWord(s[u], w[u], c);
      TruncValue(r, s, w, u, c0, c, d, z / B31);
    } else {
      LowWordCong(s[u] - w[u] - c);
      TruncLast(r, s, w, c0, c, d);
    }
  }

  lemma BorrowWord(x: int, y: int, c: int)
    requires 0 <= x < B31 && 0 <= y < B31 && 0 <= c <= 1
    ensures var w := W32(x - y - c); LowWord(w) - B31 * (w / B31) == x - y - c && 0 <= w / B31 <= 1
  {
  }

  lemma DigitInt(w: seq<int>, u: nat)
    requires Digits(w) && u < |w|
    ensures 0 <= w[u] < B31
  {
  }

  lemma LowWordCong(x: int)
    ensures Cong(LowWord(W32(x)), x, B31)
  {
    var q := x / B32;
    assert x == B32 * q + W32(x);
    var q2 := W32(x) / B31;
    ByQuotient(LowWord(W32(x)), x, B31, -2 * q - q2);
  }

  lemma TruncValue(r: seq<int>, s: seq<int>, w: seq<int>, u: nat, c0: int, c: int, d: int, e: int)
    requires u < |s| && u < |w| && |r| == u
    requires Val(r) - Base(u) * c == Val(s[..u]) - Val(w[..u]) - c0
    requires d - B31 * e == s[u] - w[u] - c
    ensures Val(r + [d]) - Base(u + 1) * e == Val(s[..u + 1]) - Val(w[..u + 1]) - c0
  {
    ValAppend(r, d);
    ValPrefix(s, u);
    ValPrefix(w, u);
    var m := Base(u);
    assert Base(u + 1) * e == m * (B31 * e) by { MulAssoc(m, B31, e); }
    assert m * (d - B31 * e) == m * (s[u] - w[u] - c);
    Distribute(m, d, B31 * e, s[u], w[u], c);
  }

  /** A digit that is right modulo 2^31 makes the value right modulo 2^31 times its weight. */
  lemma WeightedCong(m: int, d: int, x: int) returns (k: int)
    requires Cong(d, x, B31)
    ensures m * d - m * x == (B31 * m) * k
  {
    hide Cong;
    k := Quotient(d, x, B31);
    assert m * d - m * x == m * (d - x);
    assert m * (B31 * k) == (B31 * m) * k by {
      MulAssoc(m, B31, k);
      assert m * B31 == B31 * m;
    }
  }

  lemma TruncLast(r: seq<int>, s: seq<int>, w: seq<int>, c0: int, c: int, d: int)
    requires |s| == |w| == |r| + 1
    requires Val(r) - Base(|r|) * c == Val(s[..|r|]) - Val(w[..|r|]) - c0
    requires Cong(d, s[|r|] - w[|r|] - c, B31)
    ensures Cong(Val(r + [d]), Val(s) - Val(w) - c0, Base(|s|))
  {
    hide Val, Base, Cong;
    var u := |r|;
    ValAppend(r, d);
    ValPrefix(s, u);
    ValPrefix(w, u);
    assert s[..u + 1] == s && w[..u + 1] == w;
    BaseStep(u);
    var k := WeightedCong(Base(u), d, s[u] - w[u] - c);
    Distribute(Base(u), d, 0, s[u], w[u], c);
    ByQuotient(Val(r + [d]), Val(s) - Val(w) - c0, B31 * Base(u), k);
  }

  lemma TruncEnd(s: seq<u32>, w: seq<int>, c0: int, r: seq<u32>, c: u32, v: int)
    requires TruncState(s, w, c0, r, |s|, c) && |s| > 0
    requires 0 <= v < Base(|s|) && Cong(Val(s) - Val(w) - c0, v, Base(|s|))
    ensures Digits(r) && Val(r) == v
  {
    hide Val, Base, Cong;
    ValBound(r);
    CongTrans(Val(r), Val(s) - Val(w) - c0, v, Base(|s|));
    CongUnique(Val(r), v, Base(|s|));
  }

  // ---------------------------------------------------------------------
  // zint_negate
  // ---------------------------------------------------------------------

  /** w ^ 0x7FFFFFFF: the low 31 bits are complemented. */
  function FlipLow(w: u32): u32 {
    (w / B31) * B31 + (B31 - 1 - w % B31)
  }

  ghost predicate NegState(s: seq<u32>, r: seq<u32>, u: nat, c: u32) {
    u <= |s| && |r| == u && Digits(r) && LowDigits(s) &&
    (u < |s| ==> c <= 1 && Val(r) + Base(u) * c == Base(u) - Val(s[..u])) &&
    (u == |s| ==> Cong(Val(r), 0 - Val(s), Base(|s|)))
  }

  lemma NegStart(s: seq<u32>)
    requires |s| > 0 && LowDigits(s)
    ensures NegState(s, [], 0, 1)
  {
    assert Base(0) * 1 == 1;
  }

  lemma FlipWord(x: int, c: int)
    requires 0 <= x < B32 && 0 <= c <= 1
    ensures Cong(LowWord(W32(FlipLow(x) + c)), B31 - 1 - x + c, B31)
    ensures x < B31 ==> var w := W32(FlipLow(x) + c);
      LowWord(w) + B31 * (w / B31) == B31 - 1 - x + c && 0 <= w / B31 <= 1
  {
    var y := FlipLow(x) + c;
    LowWordCong(y);
    hide Cong;
    ByQuotient(y, B31 - 1 - x + c, B31, 2 * (x / B31));
    CongTrans(LowWord(W32(y)), y, B31 - 1 - x + c, B31);
  }

  lemma NegValue(r: seq<int>, s: seq<int>, u: nat, c: int, d: int, e: int)
    requires u < |s| && |r| == u && Val(r) + Base(u) * c == Base(u) - Val(s[..u])
    requires d + B31 * e == B31 - 1 - s[u] + c
    ensures Val(r + [d]) + Base(u + 1) * e == Base(u + 1) - Val(s[..u + 1])
  {
    ValAppend(r, d);
    ValPrefix(s, u);
    var m := Base(u);
    assert Base(u + 1) * e == m * (B31 * e) by { MulAssoc(m, B31, e); }
    assert m * (d + B31 * e) == m * (B31 - 1 - s[u] + c);
    assert m * (d + B31 * e) == m * d + m * (B31 * e);
    assert m * (B31 - 1 - s[u] + c) == B31 * m - m - m * s[u] + m * c;
  }

  lemma NegLast(r: seq<int>, s: seq<int>, c: int, d: int)
    requires |s| == |r| + 1 && Val(r) + Base(|r|) * c == Base(|r|) - Val(s[..|r|])
    requires Cong(d, B31 - 1 - s[|r|] + c, B31)
    ensures Cong(Val(r + [d]), 0 - Val(s), Base(|s|))
  {
    hide Val, Base, Cong;
    var u := |r|;
    ValAppend(r, d);
    ValPrefix(s, u);
    assert s[..u + 1] == s;
    BaseStep(u);
    var m := Base(u);
    var k := WeightedCong(m, d, B31 - 1 - s[u] + c);
    SpreadFlip(m, s[u], c);
    assert (B31 * m) * (k + 1) == (B31 * m) * k + B31 * m;
    ByQuotient(Val(r + [d]), 0 - Val(s), B31 * m, k + 1);
  }

  lemma SpreadFlip(m: int, w: int, c: int)
    ensures m * (B31 - 1 - w + c) == B31 * m - m - m * w + m * c
  {
  }

  lemma NegStep(s: seq<u32>, r: seq<u32>, u: nat, c: u32)
    requires NegState(s, r, u, c) && u < |s|
    ensures var w := W32(FlipLow(s[u]) + c); NegState(s, r + [LowWord(w)], u + 1, w / B31)
  {
    hide Val, Base, Cong, W32, LowWord, FlipLow;
    var w := W32(FlipLow(s[u]) + c);
    var d: u32 := LowWord(w);
    LowWordBound(w);
    DigitsAppend(r, d);
    FlipWord(s[u], c);
    if u < |s| - 1 {
      NegValue(r, s, u, c, d, w / B31);
    } else {
      NegLast(r, s, c, d);
    }
  }

  lemma NegEnd(s: seq<u32>, r: seq<u32>, c: u32, v: int)
    requires NegState(s, r, |s|, c) && |s| > 0
    requires 0 <= v < Base(|s|) && Cong(0 - Val(s), v, Base(|s|))
    ensures Digits(r) && Val(r) == v
  {
    hide Val, Base, Cong;
    ValBound(r);
    CongTrans(Val(r), 0 - Val(s), v, Base(|s|));
    CongUnique(Val(r), v, Base(|s|));
  }

  /** zint_negate: with ctl = 1 the value is replaced by its opposite modulo 2^(31*len), otherwise it is kept modulo 2^(31*len). */
  method Negate(a: array<u32>, ctl: u32, ghost v: int)
    requires ctl <= 1 && a.Length > 0 && LowDigits(a[..])
    requires 0 <= v < Base(a.Length) && Cong(if ctl == 1 then 0 - Val(a[..]) else Val(a[..]), v, Base(a.Length))
    modifies a
    ensures Digits(a[..]) && Val(a[..]) == v
  {
    hide Val, Base, Cong, Digits, LowDigits, NegState, W32, LowWord, FlipLow, LowWords;
    ghost var s: seq<u32> := a[..];
    ghost var r: seq<u32> := [];
    var cc: u32 := ctl;
    NegStart(s);
    for u := 0 to a.Length
      invariant |r| == u && a[..] == r + s[u..]
      invariant ctl == 1 ==> NegState(s, r, u, cc)
      invariant ctl == 0 ==> (u < |s| ==> cc == 0) && r == LowWords(s)[..u]
    {
      var aw: u32 := a[u];
      assert aw == s[u];
      if ctl == 1 {
        NegStep(s, r, u, cc);
      } else {
        PlainWord(s, u);
      }
      aw := W32((if ctl == 1 then FlipLow(aw) else aw) + cc);
      ReplaceWord(a[..], s, r, u, LowWord(aw));
      a[u] := LowWord(aw);
      r := r + [LowWord(aw)];
      cc := aw / B31;
    }
    assert a[..] == r;
    if ctl == 1 {
      NegEnd(s, r, cc, v);
    } else {
      assert LowWords(s)[..|s|] == LowWords(s);
      LowWordsValue(s, v);
    }
  }

  lemma PlainWord(s: seq<u32>, u: nat)
    requires LowDigits(s) && u < |s|
    ensures W32(s[u] + 0) == s[u] && LowWords(s)[..u] + [LowWord(s[u])] == LowWords(s)[..u + 1]
    ensures u < |s| - 1 ==> s[u] / B31 == 0
  {
    assert u < |s| - 1 ==> s[..|s| - 1][u] == s[u];
  }

  /** Every word without its bit 31. */
  ghost function LowWords(s: seq<u32>): (r: seq<u32>)
    ensures |r| == |s|
  {
    seq(|s|, i requires 0 <= i < |s| => LowWord(s[i]))
  }

  /** Only the top word can lose its bit 31, which counts 2^(31*len). */
  lemma LowWordsValue(s: seq<u32>, v: int)
    requires |s| > 0 && LowDigits(s) && 0 <= v < Base(|s|) && Cong(Val(s), v, Base(|s|))
    ensures Digits(LowWords(s)) && Val(LowWords(s)) == v
  {
    hide Val, Base, Cong, LowWord;
    var n := |s| - 1;
    var lo, w := s[..n], s[n];
    assert LowWords(s) == lo + [LowWord(w)] by { LowDigitsKept(s); }
    assert s == lo + [w];
    ValAppend(lo, w);
    ValAppend(lo, LowWord(w));
    BaseStep(n);
    LowWordBound(w);
    LowPart(s);
    DigitsAppend(lo, LowWord(w));
    ValBound(LowWords(s));
    TopBitDropped(Val(lo), Base(n), w, LowWord(w));
    CongTrans(Val(LowWords(s)), Val(s), v, Base(|s|));
    CongUnique(Val(LowWords(s)), v, Base(|s|));
  }

  lemma LowPart(s: seq<u32>)
    requires |s| > 0 && LowDigits(s)
    ensures Digits(s[..|s| - 1]) && LowWord(s[|s| - 1]) == s[|s| - 1] % B31
  {
  }

  lemma LowDigitsKept(s: seq<u32>)
    requires |s| > 0 && LowDigits(s)
    ensures LowWords(s) == s[..|s| - 1] + [LowWord(s[|s| - 1])]
  {
    forall i | 0 <= i < |s| - 1
      ensures LowWord(s[i]) == s[i]
    {
      assert s[..|s| - 1][i] == s[i];
    }
  }

  lemma TopBitDropped(x: int, b: int, w: int, l: int)
    requires b > 0 && l == w % B31
    ensures Cong(x + b * l, x + b * w, B31 * b)
  {
    hide Cong;
    var q := w / B31;
    assert w == B31 * q + l;
    assert b * (B31 * q) == (B31 * b) * q by { MulAssoc(b, B31, q); assert b * B31 == B31 * b; }
    assert b * w == b * (B31 * q) + b * l;
    assert (B31 * b) * (0 - q) == 0 - (B31 * b) * q;
    ByQuotient(x + b * l, x + b * w, B31 * b, 0 - q);
  }

  lemma ReplaceWord(cur: seq<u32>, s: seq<u32>, r: seq<u32>, u: nat, d: u32)
    requires u < |s| && |r| == u && cur == r + s[u..]
    ensures cur[u := d] == (r + [d]) + s[u + 1..]
  {
  }

  // ---------------------------------------------------------------------
  // The accumulation loop
  // ---------------------------------------------------------------------

  /** xa and xb use the signed 32-bit range jointly, as the caller sees to. */
  ghost predicate Factors(xa: int, xb: int) {
    Abs(xa) + Abs(xb) <= B31
  }

  /** Each of xa and xb may use the full signed 32-bit range, and 2^31 as well. */
  ghost predicate FullRange(xa: int, xb: int) {
    Abs(xa) <= B31 && Abs(xb) <= B31
  }

  /** What keeps the accumulation inside an int64_t: with a third term, the joint bound is needed. */
  ghost predicate NoOverflow(xa: int, xb: int, f: int) {
    (Factors(xa, xb) && 0 <= f < B31) || (FullRange(xa, xb) && f == 0)
  }

  ghost function Combination(s: seq<int>, t: seq<int>, m: seq<int>, xa: int, xb: int, f: int): int {
    Val(s) * xa + Val(t) * xb + Val(m) * f
  }

  /** One word of the combination. */
  ghost function WordSum(s: seq<u32>, t: seq<u32>, m: seq<u32>, xa: int, xb: int, f: int, u: nat): int
    requires u < |s| && u < |t| && u < |m|
  {
    s[u] * xa + t[u] * xb + m[u] * f
  }

  /** The digits ds of the first u words of the combination, with the signed carry c. */
  ghost predicate Acc(s: seq<u32>, t: seq<u32>, m: seq<u32>, xa: int, xb: int, f: int, ds: seq<u32>, u: nat, c: int) {
    |s| == |t| == |m| && u <= |s| && |ds| == u && Digits(s) && Digits(t) && Digits(m) && Digits(ds) &&
    NoOverflow(xa, xb, f) && 0 - B32 <= c < B32 &&
    Val(ds) + Base(u) * c == Combination(s[..u], t[..u], m[..u], xa, xb, f)
  }

  lemma AccStart(s: seq<u32>, t: seq<u32>, m: seq<u32>, xa: int, xb: int, f: int)
    requires |s| == |t| == |m| && Digits(s) && Digits(t) && Digits(m) && NoOverflow(xa, xb, f)
    ensures Acc(s, t, m, xa, xb, f, [], 0, 0)
  {
    assert 0 * xa == 0 && 0 * xb == 0 && 0 * f == 0 && Base(0) * 0 == 0;
  }

  lemma ScaledWord(w: int, x: int)
    requires 0 <= w < B31
    ensures 0 - (B31 - 1) * Abs(x) <= w * x <= (B31 - 1) * Abs(x)
  {
    MulMono(w, B31 - 1, Abs(x));
    MulMono(0, w, Abs(x));
    assert w * x == w * Abs(x) || w * x == 0 - w * Abs(x) by {
      assert w * (0 - x) == 0 - w * x;
    }
  }

  /** No step overflows a int64_t, and the carry stays in its range. */
  lemma WordBound(s: seq<u32>, t: seq<u32>, m: seq<u32>, xa: int, xb: int, f: int, u: nat, c: int)
    requires u < |s| && u < |t| && u < |m| && s[u] < B31 && t[u] < B31 && m[u] < B31
    requires NoOverflow(xa, xb, f) && 0 - B32 <= c < B32
    ensures 0 - B31 * B32 <= WordSum(s, t, m, xa, xb, f, u) + c < B31 * B32
  {
    ScaledWord(s[u], xa);
    ScaledWord(t[u], xb);
    MulMono(m[u], B31 - 1, f);
    MulMono(0, m[u], f);
    FactorSum(Abs(xa), Abs(xb), if FullRange(xa, xb) then 2 * B31 else B31);
    if f == 0 {
      assert m[u] * f == 0;
    }
  }

  lemma FactorSum(x: int, y: int, top: int)
    requires x + y <= top
    ensures (B31 - 1) * x + (B31 - 1) * y <= (B31 - 1) * top
  {
  }

  lemma Signed64(z: int)
    requires 0 - B31 * B32 <= z < B31 * B32
    ensures S64(z) == z && 0 - B32 <= z / B31 < B32
    ensures z == B31 * (z / B31) + LowWord(W32(z))
  {
    WordSplit(z);
  }

  /** The combination grows by one word at a time. */
  lemma CombinationPrefix(s: seq<u32>, t: seq<u32>, m: seq<u32>, xa: int, xb: int, f: int, u: nat)
    requires |s| == |t| == |m| && u < |s|
    ensures Combination(s[..u + 1], t[..u + 1], m[..u + 1], xa, xb, f)
         == Combination(s[..u], t[..u], m[..u], xa, xb, f) + Base(u) * WordSum(s, t, m, xa, xb, f, u)
  {
    hide Val, Base;
    ValPrefix(s, u);
    ValPrefix(t, u);
    ValPrefix(m, u);
    SpreadTerm(Val(s[..u]), Base(u), s[u], xa);
    SpreadTerm(Val(t[..u]), Base(u), t[u], xb);
    SpreadTerm(Val(m[..u]), Base(u), m[u], f);
    Distribute3(Base(u), s[u] * xa, t[u] * xb, m[u] * f);
  }

  lemma SpreadTerm(v: int, b: int, w: int, x: int)
    ensures (v + b * w) * x == v * x + b * (w * x)
  {
    MulAssoc(b, w, x);
  }

  lemma AccStep(s: seq<u32>, t: seq<u32>, m: seq<u32>, xa: int, xb: int, f: int, ds: seq<u32>, u: nat, c: int)
    requires Acc(s, t, m, xa, xb, f, ds, u, c) && u < |s|
    ensures var z := WordSum(s, t, m, xa, xb, f, u) + c;
      S64(z) == z && Acc(s, t, m, xa, xb, f, ds + [LowWord(W32(z))], u + 1, z / B31)
  {
    hide Val, Base, W32, LowWord, Combination, WordSum, S64, NoOverflow;
    DigitAt(s, u);
    DigitAt(t, u);
    DigitAt(m, u);
    WordBound(s, t, m, xa, xb, f, u, c);
    var z := WordSum(s, t, m, xa, xb, f, u) + c;
    Signed64(z);
    var d: u32 := LowWord(W32(z));
    LowWordBound(W32(z));
    DigitsAppend(ds, d);
    CombinationPrefix(s, t, m, xa, xb, f, u);
    ValAppend(ds, d);
    CarryOut(Base(u), d, z, c, WordSum(s, t, m, xa, xb, f, u));
    BaseStep(u);
  }

  lemma CarryOut(b: int, d: int, z: int, c: int, w: int)
    requires z == B31 * (z / B31) + d && z == w + c
    ensures b * d + (B31 * b) * (z / B31) == b * w + b * c
  {
    var e := z / B31;
    assert (B31 * b) * e == b * (B31 * e) by { MulAssoc(b, B31, e); assert b * B31 == B31 * b; }
    assert b * (d + B31 * e) == b * d + b * (B31 * e);
    assert b * (w + c) == b * w + b * c;
  }

  /** When the combination is a multiple of 2^31, dropping the low digit divides exactly. */
  lemma AccEnd(s: seq<u32>, t: seq<u32>, m: seq<u32>, xa: int, xb: int, f: int, ds: seq<u32>, c: int, q: int)
    requires Acc(s, t, m, xa, xb, f, ds, |s|, c) && |s| > 0
    requires Combination(s, t, m, xa, xb, f) == B31 * q
    ensures Digits(ds[1..]) && q == Val(ds[1..]) + Base(|s| - 1) * c
  {
    assert s[..|s|] == s && t[..|s|] == t && m[..|s|] == m;
    BaseStep(|s| - 1);
    var r := ds[1..];
    assert Val(ds) == ds[0] + B31 * Val(r);
    hide Val, Base, Combination;
    var b := Base(|s| - 1);
    assert (B31 * b) * c == B31 * (b * c) by { MulAssoc(B31, b, c); }
    assert ds[0] == B31 * (q - Val(r) - b * c);
    assert ds[0] == 0;
  }

  lemma TopBounds(v: int, b: int, c: int, q: int)
    requires 0 <= v < b && q == v + b * c
    ensures c < 0 <==> q < 0
    ensures 0 - B31 * b <= q ==> 0 - B31 <= c
    ensures q < B31 * b ==> c < B31
    ensures q < B32 * b ==> c < B32
  {
    if c < 0 { MulMono(c, -1, b); } else { MulMono(0, c, b); }
    if c < 0 - B31 { MulMono(c, 0 - B31 - 1, b); }
    if c >= B31 { MulMono(B31, c, b); }
    if c >= B32 { MulMono(B32, c, b); }
  }

  /** The sign and the size of a value r + 2^(31(n-1))*c written as n words. */
  lemma TopCarry(r: seq<u32>, c: int, q: int)
    requires Digits(r) && q == Val(r) + Base(|r|) * c
    ensures c < 0 <==> q < 0
    ensures 0 - Base(|r| + 1) <= q ==> 0 - B31 <= c
    ensures q < Base(|r| + 1) ==> c < B31
    ensures q < 2 * Base(|r| + 1) ==> c < B32
  {
    hide Val, Base, Digits;
    BaseStep(|r|);
    ValBound(r);
    TopBounds(Val(r), Base(|r|), c, q);
  }

  lemma WrapTop(b: int, c: int)
    ensures b * c == b * W32(c) + (B31 * b) * (2 * (c / B32))
  {
    var k := c / B32;
    assert c == B32 * k + W32(c);
    hide W32;
    var w := W32(c);
    assert b * (B32 * k) == (B31 * b) * (2 * k) by { MulAssoc(b, B32, k); MulAssoc(B31 * b, 2, k); }
    assert b * (B32 * k + w) == b * (B32 * k) + b * w;
  }

  /** Storing the signed top carry as a word changes the value by a multiple of 2^(31*len). */
  lemma TopWordCong(r: seq<u32>, c: int, q: int)
    requires q == Val(r) + Base(|r|) * c
    ensures Cong(Val(r + [W32(c)]), q, Base(|r| + 1))
    ensures 0 <= c < B32 ==> Val(r + [W32(c)]) == q
  {
    hide Val, Base, W32, Cong;
    ValAppend(r, W32(c));
    BaseStep(|r|);
    var m, k := B31 * Base(|r|), 2 * (c / B32);
    WrapTop(Base(|r|), c);
    assert m * (0 - k) == 0 - m * k;
    ByQuotient(Val(r + [W32(c)]), q, m, 0 - k);
    if 0 <= c < B32 {
      SmallWord(c);
    }
  }

  /** The two buffers after u words: results shifted down by one word. */
  ghost predicate Shifted(cur: seq<u32>, s: seq<u32>, ds: seq<u32>, u: nat) {
    u <= |s| && |ds| == u && (u == 0 ==> cur == s) && (u > 0 ==> cur == ds[1..] + s[u - 1..])
  }

  lemma ShiftStep(cur: seq<u32>, s: seq<u32>, ds: seq<u32>, u: nat, d: u32)
    requires Shifted(cur, s, ds, u) && u < |s|
    ensures |cur| == |s| && cur[u] == s[u]
    ensures Shifted(if u > 0 then cur[u - 1 := d] else cur, s, ds + [d], u + 1)
  {
    if u == 0 {
      assert (ds + [d])[1..] == [];
    } else {
      assert (ds + [d])[1..] == ds[1..] + [d];
    }
  }

  lemma ShiftEnd(cur: seq<u32>, s: seq<u32>, ds: seq<u32>, w: u32)
    requires Shifted(cur, s, ds, |s|) && |s| > 0
    ensures |cur| == |s| && cur[|s| - 1 := w] == ds[1..] + [w]
  {
  }

  /** The common loop of zint_co_reduce and zint_co_reduce_mod, before the sign is fixed. */
  method Accumulate(a: array<u32>, b: array<u32>, m: array<u32>, fa: u32, fb: u32, xa: int, xb: int, ya: int, yb: int)
    returns (cca: int, ccb: int, ghost da: seq<u32>, ghost db: seq<u32>)
    requires a != b && a != m && b != m && a.Length == b.Length == m.Length > 0
    requires Digits(a[..]) && Digits(b[..]) && Digits(m[..]) && fa < B31 && fb < B31
    requires NoOverflow(xa, xb, fa) && NoOverflow(ya, yb, fb)
    modifies a, b
    ensures Acc(old(a[..]), old(b[..]), m[..], xa, xb, fa, da, a.Length, cca)
    ensures Acc(old(a[..]), old(b[..]), m[..], ya, yb, fb, db, a.Length, ccb)
    ensures |da| == |db| == a.Length && a[..] == da[1..] + [W32(cca)] && b[..] == db[1..] + [W32(ccb)]
  {
    hide Digits, NoOverflow, Acc, Shifted, W32, LowWord, S64;
    ghost var s: seq<u32>, t: seq<u32>, mm: seq<u32> := a[..], b[..], m[..];
    da, db := [], [];
    cca, ccb := 0, 0;
    AccStart(s, t, mm, xa, xb, fa);
    AccStart(s, t, mm, ya, yb, fb);
    ShiftStart(s);
    ShiftStart(t);
    for u := 0 to a.Length
      invariant |da| == |db| == u && m[..] == mm
      invariant Acc(s, t, mm, xa, xb, fa, da, u, cca) && Acc(s, t, mm, ya, yb, fb, db, u, ccb)
      invariant Shifted(a[..], s, da, u) && Shifted(b[..], t, db, u)
    {
      AccStep(s, t, mm, xa, xb, fa, da, u, cca);
      AccStep(s, t, mm, ya, yb, fb, db, u, ccb);
      ShiftStep(a[..], s, da, u, 0);
      ShiftStep(b[..], t, db, u, 0);
      var wa: u32, wb: u32 := a[u], b[u];
      var za := S64(wa * xa + wb * xb + m[u] * fa + cca);
      var zb := S64(wa * ya + wb * yb + m[u] * fb + ccb);
      assert za == WordSum(s, t, mm, xa, xb, fa, u) + cca;
      assert zb == WordSum(s, t, mm, ya, yb, fb, u) + ccb;
      ShiftStep(a[..], s, da, u, LowWord(W32(za)));
      ShiftStep(b[..], t, db, u, LowWord(W32(zb)));
      if u > 0 {
        a[u - 1] := LowWord(W32(za));
        b[u - 1] := LowWord(W32(zb));
      }
      da := da + [LowWord(W32(za))];
      db := db + [LowWord(W32(zb))];
      cca := za / B31;
      ccb := zb / B31;
    }
    ShiftEnd(a[..], s, da, W32(cca));
    ShiftEnd(b[..], t, db, W32(ccb));
    a[a.Length - 1] := W32(cca);
    b[b.Length - 1] := W32(ccb);
  }

  lemma ShiftStart(s: seq<u32>)
    ensures Shifted(s, s, [], 0)
  {
  }

  // ---------------------------------------------------------------------
  // zint_co_reduce
  // ---------------------------------------------------------------------

  lemma CombineBound(x: int, y: int, xa: int, xb: int, top: int)
    requires Factors(xa, xb) && 0 <= x <= top && 0 <= y <= top
    ensures 0 - B31 * top <= x * xa + y * xb <= B31 * top
  {
    ScaledBound(x, xa, top);
    ScaledBound(y, xb, top);
    MulMono(Abs(xa) + Abs(xb), B31, top);
    assert (Abs(xa) + Abs(xb)) * top == top * Abs(xa) + top * Abs(xb);
  }

  lemma ScaledBound(x: int, f: int, top: int)
    requires 0 <= x <= top
    ensures 0 - top * Abs(f) <= x * f <= top * Abs(f)
  {
    MulMono(x, top, Abs(f));
    MulMono(0, x, Abs(f));
    assert x * f == x * Abs(f) || x * f == 0 - x * Abs(f) by {
      assert x * (0 - f) == 0 - x * f;
    }
  }

  lemma ReduceQuotient(s: seq<u32>, t: seq<u32>, xa: int, xb: int, q: int)
    requires |s| == |t| && Digits(s) && Digits(t) && FullRange(xa, xb)
    requires Val(s) * xa + Val(t) * xb == B31 * q
    ensures 0 - 2 * Base(|s|) < q < 2 * Base(|s|)
    ensures Factors(xa, xb) ==> 0 - Base(|s|) < q < Base(|s|)
  {
    hide Val, Base, FullRange, Factors;
    ValBound(s);
    ValBound(t);
    CombineWide(Val(s), Val(t), xa, xb, Base(|s|) - 1);
    if Factors(xa, xb) {
      CombineBound(Val(s), Val(t), xa, xb, Base(|s|) - 1);
    }
  }

  lemma CombineWide(x: int, y: int, xa: int, xb: int, top: int)
    requires FullRange(xa, xb) && 0 <= x <= top && 0 <= y <= top
    ensures 0 - B32 * top <= x * xa + y * xb <= B32 * top
  {
    ScaledBound(x, xa, top);
    ScaledBound(y, xb, top);
    MulMono(Abs(xa), B31, top);
    MulMono(Abs(xb), B31, top);
  }

  lemma AccParts(s: seq<u32>, t: seq<u32>, m: seq<u32>, xa: int, xb: int, f: int, ds: seq<u32>, c: int)
    requires |s| > 0 && Acc(s, t, m, xa, xb, f, ds, |s|, c)
    ensures |s| == |t| == |m| == |ds| && Digits(s) && Digits(t) && Digits(m) && Digits(ds) && 0 - B32 <= c < B32
  {
  }

  /** What one half of Accumulate leaves when the combination is B31*q. */
  lemma ReduceFacts(s: seq<u32>, t: seq<u32>, xa: int, xb: int, da: seq<u32>, c: int, q: int)
    requires |s| == |t| > 0 && Acc(s, t, Zeros(|s|), xa, xb, 0, da, |s|, c)
    requires FullRange(xa, xb) && Val(s) * xa + Val(t) * xb == B31 * q
    ensures c < 0 <==> q < 0
    ensures LowDigits(da[1..] + [W32(c)])
    ensures 0 <= Abs(q) % Base(|s|) < Base(|s|)
    ensures Cong(if c < 0 then 0 - Val(da[1..] + [W32(c)]) else Val(da[1..] + [W32(c)]), Abs(q) % Base(|s|), Base(|s|))
  {
    hide Val, Base, Cong, W32, Acc, Digits, LowDigits, FullRange, Factors;
    AccParts(s, t, Zeros(|s|), xa, xb, 0, da, c);
    assert Combination(s, t, Zeros(|s|), xa, xb, 0) == B31 * q;
    AccEnd(s, t, Zeros(|s|), xa, xb, 0, da, c, q);
    LowDigitsOf(da, W32(c));
    TopCarry(da[1..], c, q);
    TopWordCong(da[1..], c, q);
    SizeCong(Val(da[1..] + [W32(c)]), q, Base(|s|));
  }

  /** The size of q, from the number stored for q and its sign. */
  lemma SizeCong(v: int, q: int, b: int)
    requires b > 0 && Cong(v, q, b)
    ensures 0 <= Abs(q) % b < b
    ensures Cong(if q < 0 then 0 - v else v, Abs(q) % b, b)
  {
    hide Cong;
    CongMod(Abs(q), b);
    if q >= 0 {
      CongTrans(v, q, Abs(q) % b, b);
    } else {
      CongRefl(0, b);
      CongSub(0, 0, v, q, b);
      CongTrans(0 - v, 0 - q, Abs(q) % b, b);
    }
  }

  lemma SmallWord(c: int)
    requires 0 <= c < B32
    ensures W32(c) == c
  {
  }

  /**
   * zint_co_reduce: a becomes |a*xa + b*xb| / 2^31 and b becomes |a*ya + b*yb| / 2^31, modulo 2^(31*len);
   * the result tells which of them were negative. With jointly bounded factors both fit their words.
   */
  method CoReduce(a: array<u32>, b: array<u32>, xa: int, xb: int, ya: int, yb: int, ghost qa: int, ghost qb: int)
    returns (r: u32)
    requires a != b && a.Length == b.Length > 0 && Digits(a[..]) && Digits(b[..])
    requires FullRange(xa, xb) && FullRange(ya, yb)
    requires Val(a[..]) * xa + Val(b[..]) * xb == B31 * qa && Val(a[..]) * ya + Val(b[..]) * yb == B31 * qb
    modifies a, b
    ensures Digits(a[..]) && Val(a[..]) == Abs(qa) % Base(a.Length) && (Factors(xa, xb) ==> Val(a[..]) == Abs(qa))
    ensures Digits(b[..]) && Val(b[..]) == Abs(qb) % Base(a.Length) && (Factors(ya, yb) ==> Val(b[..]) == Abs(qb))
    ensures r == (if qa < 0 then 1 else 0) + (if qb < 0 then 2 else 0)
  {
    hide Val, Base, Digits, LowDigits, Factors, FullRange, Acc, Cong, W32;
    ghost var s: seq<u32>, t: seq<u32> := a[..], b[..];
    NoThirdTerm(xa, xb);
    NoThirdTerm(ya, yb);
    var z := new u32[a.Length](_ => 0);
    ZerosAre(z[..]);
    var cca, ccb, da, db := Accumulate(a, b, z, 0, 0, xa, xb, ya, yb);
    ReduceFacts(s, t, xa, xb, da, cca, qa);
    ReduceFacts(s, t, ya, yb, db, ccb, qb);
    var nega: u32, negb: u32 := if cca < 0 then 1 else 0, if ccb < 0 then 1 else 0;
    Negate(a, nega, Abs(qa) % Base(a.Length));
    Negate(b, negb, Abs(qb) % Base(a.Length));
    r := nega + 2 * negb;
    ExactQuotient(s, t, xa, xb, qa);
    ExactQuotient(s, t, ya, yb, qb);
  }

  lemma NoThirdTerm(xa: int, xb: int)
    requires FullRange(xa, xb)
    ensures NoOverflow(xa, xb, 0)
  {
  }

  lemma ExactQuotient(s: seq<u32>, t: seq<u32>, xa: int, xb: int, q: int)
    requires |s| == |t| && Digits(s) && Digits(t) && FullRange(xa, xb) && Val(s) * xa + Val(t) * xb == B31 * q
    ensures Factors(xa, xb) ==> Abs(q) % Base(|s|) == Abs(q)
  {
    hide Val, Base;
    ReduceQuotient(s, t, xa, xb, q);
    if Factors(xa, xb) {
      SmallMod(Abs(q), Base(|s|));
    }
  }

  lemma {:induction false} ZerosAre(s: seq<u32>)
    requires forall i :: 0 <= i < |s| ==> s[i] == 0
    ensures s == Zeros(|s|)
  {
    if |s| > 0 {
      ZerosAre(s[1..]);
      assert s == [0] + s[1..];
    }
  }

  // ---------------------------------------------------------------------
  // zint_finish_mod
  // ---------------------------------------------------------------------

  /** The word that pass two subtracts: m, zero, or the complement of m. */
  function Subtrahend(w: u32, neg: u32, cc: u32): u32 {
    if neg == 1 then FlipLow(w) else if cc == 0 then w else 0
  }

  ghost function Subtrahends(m: seq<u32>, neg: u32, cc: u32): (r: seq<int>)
    ensures |r| == |m|
  {
    seq(|m|, i requires 0 <= i < |m| => Subtrahend(m[i], neg, cc) as int)
  }

  lemma {:induction false} ComplementValue(m: seq<u32>)
    requires Digits(m)
    ensures Digits(Subtrahends(m, 1, 0)) && Val(Subtrahends(m, 1, 0)) == Base(|m|) - 1 - Val(m)
    ensures forall cc :: Subtrahends(m, 1, cc) == Subtrahends(m, 1, 0)
  {
    if |m| > 0 {
      ComplementValue(m[1..]);
      assert Subtrahends(m, 1, 0)[1..] == Subtrahends(m[1..], 1, 0);
      assert FlipLow(m[0]) == B31 - 1 - m[0];
    }
  }

  lemma SubtrahendValue(m: seq<u32>, neg: u32, cc: u32)
    requires Digits(m) && neg <= 1 && cc <= 1
    ensures Digits(Subtrahends(m, neg, cc))
    ensures Val(Subtrahends(m, neg, cc)) == if neg == 1 then Base(|m|) - 1 - Val(m) else if cc == 0 then Val(m) else 0
  {
    hide Val, Base, FlipLow;
    if neg == 1 {
      ComplementValue(m);
    } else if cc == 0 {
      assert Subtrahends(m, 0, 0) == m;
    } else {
      assert Subtrahends(m, 0, 1) == Zeros(|m|);
    }
  }

  /** a value q in [-m, 2m), and its reduction. */
  ghost function Finished(q: int, m: int): int {
    if q < 0 then q + m else if q >= m then q - m else q
  }

  /** Comparing word by word: the borrow after the last word tells whether s < m. */
  lemma CompareStepMod(s: seq<u32>, m: seq<u32>, u: nat, cc: u32)
    requires |s| == |m| && u < |s| && Digits(m) && LowDigits(s) && cc <= 1
    requires cc == 1 <==> Val(s[..u]) < Val(m[..u])
    requires u == |s| - 1 ==> Val(s) - Val(m) < Base(|s|)
    ensures var c := W32(s[u] - m[u] - cc) / B31; c <= 1 && (c == 1 <==> Val(s[..u + 1]) < Val(m[..u + 1]))
  {
    hide Val, Base, W32;
    ValPrefix(s, u);
    ValPrefix(m, u);
    DigitAt(m, u);
    LowPrefixBound(s, u);
    ValBound(m[..u]);
    BaseStep(u);
    if u == |s| - 1 {
      assert s[..u + 1] == s && m[..u + 1] == m;
    }
    TopCompare(Val(s[..u]), Val(m[..u]), Base(u), s[u], m[u], cc, u == |s| - 1);
  }

  lemma LowPrefixBound(s: seq<u32>, u: nat)
    requires LowDigits(s) && u < |s|
    ensures 0 <= Val(s[..u]) < Base(u)
  {
    ValBound(s[..u]);
  }

  lemma TopCompare(x: int, y: int, b: int, sw: u32, mw: u32, cc: u32, top: bool)
    requires 0 <= x < b && 0 <= y < b && mw < B31 && cc <= 1 && (cc == 1 <==> x < y)
    requires top ==> (x + b * sw) - (y + b * mw) < B31 * b
    requires !top ==> sw < B31
    ensures var c := W32(sw - mw - cc) / B31; c <= 1 && (c == 1 <==> x + b * sw < y + b * mw)
  {
    var d := sw - mw - cc;
    var z := if cc == 1 then x - y + b else x - y;
    assert (x + b * sw) - (y + b * mw) == z + b * d by {
      assert b * (sw - mw) == b * sw - b * mw;
      assert b * (d + 1) == b * d + b;
    }
    if d >= 0 { MulMono(0, d, b); } else { MulMono(d, -1, b); }
    if d >= B31 { MulMono(B31, d, b); }
    assert d < B31;
  }

  method CompareMod(a: array<u32>, m: array<u32>, neg: u32) returns (cc: u32)
    requires a.Length == m.Length > 0 && Digits(m[..]) && LowDigits(a[..]) && neg <= 1
    ensures cc <= 1
    ensures Val(a[..]) - Val(m[..]) < Base(a.Length) ==> (cc == 1 <==> Val(a[..]) < Val(m[..]))
  {
    hide Val, Base, Digits, LowDigits, W32;
    ghost var s: seq<u32>, t: seq<u32> := a[..], m[..];
    ghost var exact := Val(s) - Val(t) < Base(|s|);
    cc := 0;
    assert s[..0] == [] == t[..0];
    for u := 0 to a.Length
      invariant cc <= 1 && (exact ==> (cc == 1 <==> Val(s[..u]) < Val(t[..u])))
    {
      if exact {
        CompareStepMod(s, t, u, cc);
      }
      WordIsBit(s[u] - t[u] - cc);
      cc := W32(a[u] - m[u] - cc) / B31;
    }
    assert s[..|s|] == s && t[..|s|] == t;
  }

  lemma WordIsBit(x: int)
    ensures 0 <= W32(x) / B31 <= 1
  {
  }

  /** zint_finish_mod: q, stored with its sign in neg, is brought back to [0, m). */
  method FinishMod(a: array<u32>, m: array<u32>, neg: u32, ghost q: int)
    requires a != m && a.Length == m.Length > 0 && Digits(m[..]) && LowDigits(a[..]) && neg <= 1
    modifies a
    ensures Digits(a[..])
    ensures (0 - old(Val(m[..])) <= q < 2 * Val(m[..]) && (neg == 1 <==> q < 0) && (neg == 0 ==> old(Val(a[..])) == q)
             && Cong(old(Val(a[..])), q, Base(a.Length)))
      ==> Val(a[..]) == Finished(q, Val(m[..]))
  {
    hide Val, Base, Digits, LowDigits, Cong, W32, LowWord, Subtrahend, Subtrahends, TruncState, Finished;
    ghost var s: seq<u32>, t: seq<u32> := a[..], m[..];
    var cc := CompareMod(a, m, neg);
    ghost var w := Subtrahends(t, neg, cc);
    ghost var skip := cc;
    SubtrahendValue(t, neg, cc);
    ghost var r: seq<u32> := [];
    var c: u32 := neg;
    TruncStart(s, w, neg);
    for u := 0 to a.Length
      invariant |r| == u && a[..] == r + s[u..] && m[..] == t && TruncState(s, w, neg, r, u, c)
    {
      TruncStep(s, w, neg, r, u, c);
      var aw: u32 := a[u];
      assert aw == s[u];
      SubtrahendAt(t, neg, cc, u);
      aw := W32(aw - Subtrahend(m[u], neg, cc) - c);
      ReplaceWord(a[..], s, r, u, LowWord(aw));
      a[u] := LowWord(aw);
      r := r + [LowWord(aw)];
      c := aw / B31;
    }
    TruncDigits(s, w, neg, r, c);
    assert a[..] == r;
    if 0 - Val(t) <= q < 2 * Val(t) && (neg == 1 <==> q < 0) && (neg == 0 ==> Val(s) == q) && Cong(Val(s), q, Base(|s|)) {
      FinishValue(s, t, neg, cc, w, r, c, q);
    }
  }

  lemma SubtrahendAt(m: seq<u32>, neg: u32, cc: u32, u: nat)
    requires u < |m|
    ensures Subtrahends(m, neg, cc)[u] == Subtrahend(m[u], neg, cc)
  {
  }

  lemma TruncDigits(s: seq<u32>, w: seq<int>, c0: int, r: seq<u32>, c: u32)
    requires TruncState(s, w, c0, r, |s|, c)
    ensures Digits(r)
  {
  }

  lemma FinishValue(s: seq<u32>, m: seq<u32>, neg: u32, cc: u32, w: seq<int>, r: seq<u32>, c: u32, q: int)
    requires |s| == |m| == |w| > 0 && Digits(m) && neg <= 1 && cc <= 1 && TruncState(s, w, neg, r, |s|, c)
    requires Val(w) == if neg == 1 then Base(|m|) - 1 - Val(m) else if cc == 0 then Val(m) else 0
    requires 0 - Val(m) <= q < 2 * Val(m) && (neg == 1 <==> q < 0) && (neg == 0 ==> Val(s) == q)
    requires Val(s) - Val(m) < Base(|s|) ==> (cc == 1 <==> Val(s) < Val(m))
    requires Cong(Val(s), q, Base(|s|))
    ensures Val(r) == Finished(q, Val(m))
  {
    hide Val, Base, Cong, TruncState;
    ValBound(m);
    var b, v := Base(|s|), Finished(q, Val(m));
    assert 0 <= v < b;
    var e := Val(w) + neg;
    CongRefl(e, b);
    CongSub(Val(s), q, e, e, b);
    if neg == 1 {
      assert q - e == v - b;
      ByQuotient(q - e, v, b, -1);
    } else {
      assert q - e == v;
      CongRefl(v, b);
    }
    CongTrans(Val(s) - e, q - e, v, b);
    assert Val(s) - Val(w) - neg == Val(s) - e;
    TruncEnd(s, w, neg, r, c, v);
  }

  // ---------------------------------------------------------------------
  // zint_co_reduce_mod
  // ---------------------------------------------------------------------

  /** The Montgomery factor that makes the combination a multiple of 2^31. */
  function MontyFactor(a0: u32, b0: u32, xa: int, xb: int, m0i: u32): u32 {
    LowWord(W32(W32(W32(a0 * W32(xa)) + W32(b0 * W32(xb))) * m0i))
  }

  lemma MontyFactorCong(a0: u32, b0: u32, xa: int, xb: int, m0i: u32)
    ensures MontyFactor(a0, b0, xa, xb, m0i) < B31
    ensures Cong(MontyFactor(a0, b0, xa, xb, m0i), (a0 * xa + b0 * xb) * m0i, B31)
  {
    hide Cong, W32, LowWord;
    Mod31(xa);
    Mod31(xb);
    Mod31(a0 * W32(xa));
    Mod31(b0 * W32(xb));
    var x: int, y: int := W32(a0 * W32(xa)), W32(b0 * W32(xb));
    CongScale(W32(xa), xa, a0, B31);
    CongScale(W32(xb), xb, b0, B31);
    CongTrans(x, a0 * W32(xa), a0 * xa, B31);
    CongTrans(y, b0 * W32(xb), b0 * xb, B31);
    CongAdd(x, a0 * xa, y, b0 * xb, B31);
    Mod31(x + y);
    CongTrans(W32(x + y), x + y, a0 * xa + b0 * xb, B31);
    CongScale(W32(x + y), a0 * xa + b0 * xb, m0i, B31);
    LowWordCong(W32(x + y) * m0i);
    LowWordBound(W32(W32(x + y) * m0i));
    CongTrans(LowWord(W32(W32(x + y) * m0i)), W32(x + y) * m0i, (a0 * xa + b0 * xb) * m0i, B31);
  }

  lemma Mod31(x: int)
    ensures Cong(W32(x), x, B31)
  {
    ByQuotient(W32(x), x, B31, -2 * (x / B32));
  }

  lemma ValFirst(s: seq<u32>)
    requires |s| > 0
    ensures Cong(Val(s), s[0], B31)
  {
    ByQuotient(Val(s), s[0], B31, Val(s[1..]));
  }

  /** With that factor the low 31 bits of a*xa + b*xb + m*f vanish. */
  lemma CombinationDivides(s: seq<u32>, t: seq<u32>, m: seq<u32>, xa: int, xb: int, m0i: u32) returns (q: int)
    requires |s| == |t| == |m| > 0 && NegInverse(m[0], m0i)
    ensures Combination(s, t, m, xa, xb, MontyFactor(s[0], t[0], xa, xb, m0i)) == B31 * q
  {
    hide Cong, Val, MontyFactor;
    var f := MontyFactor(s[0], t[0], xa, xb, m0i);
    MontyFactorCong(s[0], t[0], xa, xb, m0i);
    ValFirst(s);
    ValFirst(t);
    ValFirst(m);
    var w := s[0] * xa + t[0] * xb;
    CongScale(Val(s), s[0], xa, B31);
    CongScale(Val(t), t[0], xb, B31);
    CongAdd(Val(s) * xa, s[0] * xa, Val(t) * xb, t[0] * xb, B31);
    CongMul(Val(m), m[0], f, w * m0i, B31);
    CongAdd(Val(s) * xa + Val(t) * xb, w, Val(m) * f, m[0] * (w * m0i), B31);
    var k := NegInverseQuotient(m[0], m0i);
    assert w + m[0] * (w * m0i) == B31 * (k * w) by {
      assert m[0] * (w * m0i) == (m[0] * m0i) * w by { MulAssoc(m[0], m0i, w); assert w * m0i == m0i * w; }
      assert w + (m[0] * m0i) * w == (m[0] * m0i + 1) * w;
      MulAssoc(B31, k, w);
    }
    ByQuotient(B31 * (k * w), 0, B31, k * w);
    CongTrans(Combination(s, t, m, xa, xb, f), B31 * (k * w), 0, B31);
    q := Quotient(Combination(s, t, m, xa, xb, f), 0, B31);
  }

  lemma NegInverseQuotient(p: int, p0i: int) returns (k: int)
    requires NegInverse(p, p0i)
    ensures p * p0i + 1 == B31 * k
  {
    k := (p * p0i + 1) / B31;
  }

  /** The hypotheses under which one half of zint_co_reduce_mod is a modular reduction. */
  ghost predicate ModOperands(s: seq<u32>, t: seq<u32>, m: seq<u32>, m0i: u32) {
    |s| == |t| == |m| > 0 && Digits(s) && Digits(t) && Digits(m) &&
    Val(s) <= Val(m) && Val(t) <= Val(m) && NegInverse(m[0], m0i)
  }

  /** a' is (s*xa + t*xb)/2^31 modulo m, reduced. */
  ghost predicate ModReduced(v: int, s: int, t: int, m: int, xa: int, xb: int) {
    0 <= v < m && Cong(B31 * v, s * xa + t * xb, m)
  }

  /** Montgomery reduction keeps the quotient between -m and 2m. */
  lemma ModQuotient(s: seq<u32>, t: seq<u32>, m: seq<u32>, xa: int, xb: int, f: int, q: int)
    requires Digits(s) && Digits(t) && Digits(m) && Val(s) <= Val(m) && Val(t) <= Val(m) && Val(m) > 0
    requires Factors(xa, xb) && 0 <= f < B31 && Combination(s, t, m, xa, xb, f) == B31 * q
    ensures 0 - Val(m) <= q < 2 * Val(m)
    ensures B31 * q == (Val(s) * xa + Val(t) * xb) + f * Val(m)
  {
    hide Val, Factors;
    ValBound(s);
    ValBound(t);
    CombineBound(Val(s), Val(t), xa, xb, Val(m));
    MulMono(f, B31 - 1, Val(m));
    MulMono(0, f, Val(m));
    assert (B31 - 1) * Val(m) == B31 * Val(m) - Val(m);
  }

  /**
   * The joint bound on the factors cannot be dropped here: with a = b = m = 2^31 - 1 and both factors
   * 2^31 - 1, the quotient is 2m, outside the range that zint_finish_mod takes.
   */
  lemma JointBoundNeeded()
    ensures var w: u32 := B31 - 1; var s := [w];
      FullRange(w, w) && !Factors(w, w) && ModOperands(s, s, s, 1) && Combination(s, s, s, w, w, MontyFactor(w, w, w, w, 1)) == B31 * (2 * Val(s))
  {
    var w: u32 := B31 - 1;
    var s := [w];
    assert Val(s) == w;
    assert W32(w * W32(w)) == 1;
    assert MontyFactor(w, w, w, w, 1) == 2;
  }

  lemma ModFacts(s: seq<u32>, t: seq<u32>, m: seq<u32>, xa: int, xb: int, m0i: u32, da: seq<u32>, c: int, q: int)
    requires ModOperands(s, t, m, m0i) && Factors(xa, xb) && Val(m) > 0
    requires Acc(s, t, m, xa, xb, MontyFactor(s[0], t[0], xa, xb, m0i), da, |s|, c)
    requires Combination(s, t, m, xa, xb, MontyFactor(s[0], t[0], xa, xb, m0i)) == B31 * q
    ensures 0 - Val(m) <= q < 2 * Val(m) && (c < 0 <==> q < 0)
    ensures Cong(Val(da[1..] + [W32(c)]), q, Base(|s|)) && (c >= 0 ==> Val(da[1..] + [W32(c)]) == q)
    ensures ModReduced(Finished(q, Val(m)), Val(s), Val(t), Val(m), xa, xb)
  {
    hide Val, Base, Cong, W32, MontyFactor, Digits, NegInverse, Factors, Acc, Combination, Finished;
    var f := MontyFactor(s[0], t[0], xa, xb, m0i);
    MontyFactorCong(s[0], t[0], xa, xb, m0i);
    AccParts(s, t, m, xa, xb, f, da, c);
    AccEnd(s, t, m, xa, xb, f, da, c, q);
    ValBound(m);
    ModQuotient(s, t, m, xa, xb, f, q);
    TopCarry(da[1..], c, q);
    TopWordCong(da[1..], c, q);
    ReducedCong(q, Val(m), Val(s) * xa + Val(t) * xb, f);
  }

  lemma ReducedCong(q: int, m: int, n: int, f: int)
    requires m > 0 && 0 - m <= q < 2 * m && B31 * q == n + f * m
    ensures 0 <= Finished(q, m) < m && Cong(B31 * Finished(q, m), n, m)
  {
    hide Cong;
    var e := if q < 0 then 1 else if q >= m then -1 else 0;
    assert Finished(q, m) == q + e * m;
    assert B31 * (q + e * m) - n == m * (f + B31 * e) by {
      assert B31 * (e * m) == m * (B31 * e) by { MulAssoc(B31, e, m); }
      assert m * (f + B31 * e) == f * m + m * (B31 * e);
    }
    ByQuotient(B31 * Finished(q, m), n, m, f + B31 * e);
  }

  lemma LowDigitsOf(ds: seq<u32>, w: u32)
    requires Digits(ds) && |ds| > 0
    ensures LowDigits(ds[1..] + [w])
  {
  }

  /** zint_co_reduce_mod. */
  method CoReduceMod(a: array<u32>, b: array<u32>, m: array<u32>, m0i: u32, xa: int, xb: int, ya: int, yb: int)
    requires a != b && a != m && b != m && a.Length == b.Length == m.Length > 0
    requires Digits(a[..]) && Digits(b[..]) && Digits(m[..]) && Factors(xa, xb) && Factors(ya, yb)
    modifies a, b
    ensures Digits(a[..]) && Digits(b[..])
    ensures ModOperands(old(a[..]), old(b[..]), m[..], m0i) && Val(m[..]) > 0 ==>
      ModReduced(Val(a[..]), Val(old(a[..])), Val(old(b[..])), Val(m[..]), xa, xb) &&
      ModReduced(Val(b[..]), Val(old(a[..])), Val(old(b[..])), Val(m[..]), ya, yb)
  {
    hide Val, Base, Digits, LowDigits, Factors, Cong, W32, MontyFactor, ModReduced, Combination, Finished, Acc, ModOperands;
    ghost var s: seq<u32>, t: seq<u32>, mm: seq<u32> := a[..], b[..], m[..];
    MontyFactorCong(s[0], t[0], xa, xb, m0i);
    MontyFactorCong(s[0], t[0], ya, yb, m0i);
    var fa: u32 := MontyFactor(a[0], b[0], xa, xb, m0i);
    var fb: u32 := MontyFactor(a[0], b[0], ya, yb, m0i);
    var cca, ccb, da, db := Accumulate(a, b, m, fa, fb, xa, xb, ya, yb);
    AccDigits(s, t, mm, xa, xb, fa, da, cca);
    AccDigits(s, t, mm, ya, yb, fb, db, ccb);
    LowDigitsOf(da, W32(cca));
    LowDigitsOf(db, W32(ccb));
    ghost var qa, qb := 0, 0;
    ghost var good := ModOperands(s, t, mm, m0i) && Val(mm) > 0;
    if good {
      OperandInverse(s, t, mm, m0i);
      qa := CombinationDivides(s, t, mm, xa, xb, m0i);
      qb := CombinationDivides(s, t, mm, ya, yb, m0i);
      ModFacts(s, t, mm, xa, xb, m0i, da, cca, qa);
      ModFacts(s, t, mm, ya, yb, m0i, db, ccb, qb);
    }
    FinishMod(a, m, if cca < 0 then 1 else 0, qa);
    FinishMod(b, m, if ccb < 0 then 1 else 0, qb);
  }

  lemma OperandInverse(s: seq<u32>, t: seq<u32>, m: seq<u32>, m0i: u32)
    requires ModOperands(s, t, m, m0i)
    ensures |s| == |t| == |m| > 0 && NegInverse(m[0], m0i)
  {
  }

  lemma AccDigits(s: seq<u32>, t: seq<u32>, m: seq<u32>, xa: int, xb: int, f: int, ds: seq<u32>, c: int)
    requires |s| > 0 && Acc(s, t, m, xa, xb, f, ds, |s|, c)
    ensures |ds| == |s| && Digits(ds)
  {
  }
}
