/** zint_add_scaled_mul_small and zint_sub_scaled of keygen.c, on two's complement big integers. */
module SubScaled {
  import opened Words
  import opened Congruence
  import opened Modp
  import opened ModpPowers
  import opened Twiddle
  import opened Ntt
  import opened NttLoops
  import opened Poly
  import opened Zint
  import opened ZintCrt
  import opened ZintReduce

  // ---------------------------------------------------------------------
  // The words of y * 2^scl, sign-extended
  // ---------------------------------------------------------------------

  /** Word v of y, or the sign word beyond its end. */
  function ExtWord(y: seq<u32>, v: nat): u32 {
    if v < |y| then y[v] else if |y| > 0 && y[|y| - 1] / 0x4000_0000 == 1 then B31 - 1 else 0
  }

  /** A right shift: w / b for a power of two b. */
  function HighBits(w: u32, b: nat): (r: u32)
    requires b > 0
    ensures r == w / b
  {
    QuotientBound(w, b);
    w / b
  }

  lemma QuotientBound(w: int, b: int)
    requires w >= 0 && b > 0
    ensures 0 <= w / b <= w
  {
    var q := w / b;
    assert w == b * q + w % b;
    if q < 0 { MulMono(q, -1, b); }
    if q > w { MulMono(1, b, q); }
  }

  /** The bits that word v - 1 passes on. */
  function ShiftCarry(y: seq<u32>, scl: nat, v: nat): u32
    requires scl < 31
  {
    if v == 0 then 0 else HighBits(ExtWord(y, v - 1), Pow2(31 - scl))
  }

  /** ((wy << scl) & 0x7FFFFFFF) | tw; the two parts have no bit in common. */
  function ShiftedWord(wy: u32, scl: nat, tw: u32): u32 {
    W32(LowWord(W32(wy * Pow2(scl))) + tw)
  }

  ghost function ExtWords(y: seq<u32>, n: nat): (r: seq<u32>)
    ensures |r| == n
  {
    seq(n, v requires 0 <= v < n => ExtWord(y, v))
  }

  ghost function ShiftWords(y: seq<u32>, scl: nat, n: nat): (r: seq<u32>)
    requires scl < 31
    ensures |r| == n
  {
    seq(n, v requires 0 <= v < n => ShiftedWord(ExtWord(y, v), scl, ShiftCarry(y, scl, v)))
  }

  lemma Pow2Split(scl: nat)
    requires scl < 31
    ensures Pow2(scl) * Pow2(31 - scl) == B31
  {
    Pow2Add(scl, 31 - scl);
    Pow2IsPow(31);
    Pow2Values();
  }

  /** w * 2^scl split at bit 31: the high part is w >> (31 - scl). */
  lemma SplitShift(w: int, a: int, b: int)
    requires 0 <= w < B31 && a > 0 && b > 0 && a * b == B31
    ensures 0 <= w / b < a && 0 <= (w % b) * a <= B31 - a
    ensures w * a == B31 * (w / b) + (w % b) * a
  {
    var q, r := w / b, w % b;
    assert w == b * q + r;
    assert (b * q + r) * a == (a * b) * q + r * a by { MulAssoc(a, b, q); assert (b * q) * a == a * (b * q); }
    MulMono(r, b - 1, a);
    MulMono(0, r, a);
    assert (b - 1) * a == B31 - a by { assert b * a == a * b; }
    assert b * q == q * b && b * a == a * b;
    if q >= a { MulMono(a, q, b); }
    if q < 0 { MulMono(q, -1, b); }
  }

  lemma ShiftedWordValue(wy: u32, scl: nat, tw: u32)
    requires scl < 31 && wy < B31 && tw < Pow2(scl)
    ensures ShiftedWord(wy, scl, tw) < B31 && wy / Pow2(31 - scl) < Pow2(scl)
    ensures wy * Pow2(scl) + tw == ShiftedWord(wy, scl, tw) + B31 * (wy / Pow2(31 - scl))
  {
    hide Pow2, W32, LowWord;
    Pow2Split(scl);
    var a, b := Pow2(scl), Pow2(31 - scl);
    SplitShift(wy, a, b);
    var lo := (wy % b) * a;
    WordSplit(wy * a);
    UniqueSplit(wy / b, lo, (wy * a) / B31, LowWord(W32(wy * a)));
    SmallSum(lo, tw, a);
  }

  lemma UniqueSplit(q: int, r: int, q': int, r': int)
    requires B31 * q + r == B31 * q' + r' && 0 <= r < B31 && 0 <= r' < B31
    ensures r == r'
  {
  }

  lemma SmallSum(lo: int, tw: int, a: int)
    requires 0 <= lo <= B31 - a && 0 <= tw < a
    ensures W32(lo + tw) == lo + tw < B31
  {
  }

  lemma ExtDigit(y: seq<u32>, v: nat)
    requires Digits(y)
    ensures ExtWord(y, v) < B31
  {
  }

  lemma CarrySmall(y: seq<u32>, scl: nat, v: nat)
    requires scl < 31 && Digits(y)
    ensures ShiftCarry(y, scl, v) < Pow2(scl)
  {
    hide W32, LowWord, Pow2, ExtWord;
    if v > 0 {
      ExtDigit(y, v - 1);
      ShiftedWordValue(ExtWord(y, v - 1), scl, 0);
    }
  }

  lemma ShiftDigits(y: seq<u32>, scl: nat, n: nat)
    requires scl < 31 && Digits(y)
    ensures Digits(ShiftWords(y, scl, n)) && Digits(ExtWords(y, n))
  {
    hide ExtWord, ShiftCarry, ShiftedWord;
    forall v | 0 <= v < n
      ensures ShiftedWord(ExtWord(y, v), scl, ShiftCarry(y, scl, v)) < B31 && ExtWord(y, v) < B31
    {
      ExtDigit(y, v);
      CarrySmall(y, scl, v);
      ShiftedWordValue(ExtWord(y, v), scl, ShiftCarry(y, scl, v));
    }
  }

  lemma {:induction false} ShiftValue(y: seq<u32>, scl: nat, n: nat)
    requires scl < 31 && Digits(y)
    ensures Val(ShiftWords(y, scl, n)) + Base(n) * ShiftCarry(y, scl, n) == Pow2(scl) * Val(ExtWords(y, n))
  {
    hide Val, Base, ExtWord, ShiftedWord, Pow2;
    if n == 0 {
      EmptyShift(y, scl);
    } else {
      var v := n - 1;
      ShiftValue(y, scl, v);
      var w: u32, c: u32 := ExtWord(y, v), ShiftCarry(y, scl, v);
      ExtDigit(y, v);
      CarrySmall(y, scl, v);
      ShiftedWordValue(w, scl, c);
      assert ShiftWords(y, scl, n) == ShiftWords(y, scl, v) + [ShiftedWord(w, scl, c)];
      assert ExtWords(y, n) == ExtWords(y, v) + [w];
      ValAppend(ShiftWords(y, scl, v), ShiftedWord(w, scl, c));
      ValAppend(ExtWords(y, v), w);
      BaseStep(v);
      ShiftAlgebra(Val(ShiftWords(y, scl, v)), Base(v), c, Pow2(scl), Val(ExtWords(y, v)), w, ShiftedWord(w, scl, c), w / Pow2(31 - scl));
    }
  }

  lemma EmptyShift(y: seq<u32>, scl: nat)
    requires scl < 31
    ensures Val(ShiftWords(y, scl, 0)) + Base(0) * ShiftCarry(y, scl, 0) == Pow2(scl) * Val(ExtWords(y, 0))
  {
  }

  lemma ShiftAlgebra(s: int, b: int, c: int, a: int, e: int, w: int, d: int, h: int)
    requires s + b * c == a * e && w * a + c == d + B31 * h
    ensures s + b * d + (B31 * b) * h == a * (e + b * w)
  {
    assert (B31 * b) * h == b * (B31 * h) by { MulAssoc(b, B31, h); assert b * B31 == B31 * b; }
    assert b * (d + B31 * h) == b * d + b * (B31 * h);
    assert b * (w * a + c) == b * (w * a) + b * c;
    assert a * (e + b * w) == a * e + a * (b * w);
    assert a * (b * w) == b * (w * a) by { MulAssoc(a, b, w); MulAssoc(b, w, a); assert (a * b) * w == (b * w) * a by { MulAssoc(w, a, b); } }
  }

  lemma {:induction false} ValOnes(n: nat)
    ensures Val(seq(n, i => B31 - 1)) == Base(n) - 1
  {
    if n > 0 {
      assert seq(n, i => B31 - 1)[1..] == seq(n - 1, i => B31 - 1);
      ValOnes(n - 1);
    }
  }

  lemma {:induction false} BaseAdd(m: nat, n: nat)
    ensures Base(m + n) == Base(m) * Base(n)
  {
    if m > 0 {
      BaseAdd(m - 1, n);
      MulAssoc(B31, Base(m - 1), Base(n));
    }
  }

  ghost predicate Negative(y: seq<u32>) {
    |y| > 0 && y[|y| - 1] / 0x4000_0000 == 1
  }

  lemma SignOf(y: seq<u32>)
    requires Digits(y)
    ensures SVal(y) == Val(y) - if Negative(y) then Base(|y|) else 0
  {
    hide Val, Base;
  }

  lemma ExtValueShort(y: seq<u32>, n: nat)
    requires Digits(y) && n <= |y|
    ensures Cong(Val(ExtWords(y, n)), SVal(y), Base(n))
  {
    hide Val, Base, SVal, Cong, Negative;
    SignOf(y);
    assert ExtWords(y, n) == y[..n];
    assert y == y[..n] + y[n..];
    ValJoin(y[..n], y[n..]);
    BaseAdd(n, |y| - n);
    ShortAlgebra(Val(y[..n]), Base(n), Val(y[n..]), Base(|y| - n), Negative(y));
  }

  lemma ShortAlgebra(lo: int, b: int, hi: int, c: int, neg: bool)
    requires b > 0
    ensures Cong(lo, lo + b * hi - (if neg then b * c else 0), b)
  {
    hide Cong;
    var m := hi - if neg then c else 0;
    assert b * (0 - m) == 0 - b * hi + if neg then b * c else 0;
    ByQuotient(lo, lo + b * hi - (if neg then b * c else 0), b, 0 - m);
  }

  lemma ExtValueLong(y: seq<u32>, n: nat)
    requires Digits(y) && n > |y|
    ensures Cong(Val(ExtWords(y, n)), SVal(y), Base(n))
  {
    hide Val, Base, SVal, Cong;
    SignOf(y);
    var k := n - |y|;
    BaseAdd(|y|, k);
    if Negative(y) {
      var t := seq(k, i => B31 - 1);
      assert ExtWords(y, n) == y + t;
      ValJoin(y, t);
      ValOnes(k);
      assert Base(|y|) * (Base(k) - 1) == Base(n) - Base(|y|);
      ByQuotient(Val(ExtWords(y, n)), SVal(y), Base(n), 1);
    } else {
      assert ExtWords(y, n) == y + Zeros(k);
      ValJoin(y, Zeros(k));
      assert Base(|y|) * 0 == 0;
      CongRefl(Val(y), Base(n));
    }
  }

  /** The sign-extended words represent y modulo 2^(31n), whatever n is. */
  lemma ExtValue(y: seq<u32>, n: nat)
    requires Digits(y)
    ensures Cong(Val(ExtWords(y, n)), SVal(y), Base(n))
  {
    hide Val, Base, SVal, Cong;
    if n <= |y| {
      ExtValueShort(y, n);
    } else {
      ExtValueLong(y, n);
    }
  }

  lemma ShiftCong(y: seq<u32>, scl: nat, n: nat)
    requires scl < 31 && Digits(y)
    ensures Cong(Val(ShiftWords(y, scl, n)), Pow2(scl) * SVal(y), Base(n))
  {
    hide Val, Base, SVal, Cong, Pow2, ShiftCarry;
    ShiftValue(y, scl, n);
    ExtValue(y, n);
    var c: int := ShiftCarry(y, scl, n);
    assert Base(n) * (0 - c) == 0 - Base(n) * c;
    ByQuotient(Val(ShiftWords(y, scl, n)), Pow2(scl) * Val(ExtWords(y, n)), Base(n), 0 - c);
    CongScale(Val(ExtWords(y, n)), SVal(y), Pow2(scl), Base(n));
    CongTrans(Val(ShiftWords(y, scl, n)), Pow2(scl) * Val(ExtWords(y, n)), Pow2(scl) * SVal(y), Base(n));
  }

  // ---------------------------------------------------------------------
  // Adding to a number in place, from word sch on
  // ---------------------------------------------------------------------

  /** `now` is `was` plus c, modulo 2^(31*len). */
  ghost predicate Added(now: seq<u32>, was: seq<u32>, c: int) {
    |now| == |was| && Digits(now) && Cong(Val(now), Val(was) + c, Base(|was|))
  }

  /** The scaled amount k * y * 2^(31*sch + scl). */
  ghost function Amount(k: int, y: seq<u32>, sch: nat, scl: nat): int {
    k * (Base(sch) * (Pow2(scl) * SVal(y)))
  }

  /** Changing the words from sch on by e modulo 2^(31*(len-sch)) changes the number by e * 2^(31*sch). */
  lemma AddedHigh(was: seq<u32>, r: seq<u32>, sch: nat, e: int)
    requires sch <= |was| && Digits(was) && Added(r, was[sch..], e)
    ensures Added(was[..sch] + r, was, Base(sch) * e)
  {
    hide Val, Base, Cong;
    var lo, hi := was[..sch], was[sch..];
    assert was == lo + hi;
    ValJoin(lo, hi);
    ValJoin(lo, r);
    BaseAdd(sch, |hi|);
    var m, n := Base(sch), Base(|hi|);
    var q := Quotient(Val(r), Val(hi) + e, n);
    assert m * Val(r) - m * (Val(hi) + e) == (m * n) * q by {
      assert m * Val(r) - m * (Val(hi) + e) == m * (n * q);
      MulAssoc(m, n, q);
    }
    assert m * (Val(hi) + e) == m * Val(hi) + m * e;
    ByQuotient(Val(lo + r), Val(was) + m * e, m * n, q);
  }

  /** A shift beyond the end of the number changes nothing. */
  lemma AddedNothing(was: seq<u32>, sch: nat, e: int)
    requires sch >= |was| && Digits(was)
    ensures Added(was, was, Base(sch) * e)
  {
    hide Val, Base, Cong;
    BaseAdd(|was|, sch - |was|);
    MulAssoc(Base(|was|), Base(sch - |was|), e);
    var q := Base(sch - |was|) * e;
    assert Base(|was|) * (0 - q) == 0 - Base(|was|) * q;
    ByQuotient(Val(was), Val(was) + Base(sch) * e, Base(|was|), 0 - q);
  }

  lemma CarryFits(w: int, x: int, k: int, c: int)
    requires 0 <= w < B31 && 0 <= x < B31 && 0 - B31 <= k < B31 && 0 - B31 <= c < B31
    ensures 0 - B31 <= (w * k + x + c) / B31 < B31
  {
    MulMono(0 - B31, k, w);
    MulMono(k, B31 - 1, w);
    assert (0 - B31) * w <= w * k <= (B31 - 1) * w;
  }

  /** After u high words of x + k*w. */
  ghost predicate AddState(cur: seq<u32>, was: seq<u32>, w: seq<u32>, k: int, sch: nat, ds: seq<u32>, u: nat, cc: int) {
    sch <= |was| && |w| == |was| - sch && |ds| == u <= |w| && 0 - B31 <= cc < B31 &&
    Acc(was[sch..], w, Zeros(|w|), 1, k, 0, ds, u, cc) && cur == was[..sch] + ds + was[sch + u..]
  }

  lemma AddStart(was: seq<u32>, w: seq<u32>, k: int, sch: nat)
    requires sch <= |was| && |w| == |was| - sch && Digits(was) && Digits(w) && 0 - B31 <= k < B31
    ensures AddState(was, was, w, k, sch, [], 0, 0)
  {
    hide Acc;
    assert was == was[..sch] + [] + was[sch..];
    AccStart(was[sch..], w, Zeros(|w|), 1, k, 0);
  }

  lemma AddStep(cur: seq<u32>, was: seq<u32>, w: seq<u32>, k: int, sch: nat, ds: seq<u32>, u: nat, cc: int)
    requires AddState(cur, was, w, k, sch, ds, u, cc) && u < |w| && 0 - B31 <= k < B31 && Digits(was) && Digits(w)
    ensures |cur| == |was| && cur[sch + u] == was[sch + u]
    ensures var z := w[u] * k + was[sch + u] + cc;
      S64(z) == z && 0 - B31 <= z / B31 < B31 &&
      AddState(cur[sch + u := LowWord(W32(z))], was, w, k, sch, ds + [LowWord(W32(z))], u + 1, z / B31)
  {
    hide Acc, W32, LowWord, S64, Digits;
    DigitAt(was, sch + u);
    DigitAt(w, u);
    var s := was[sch..];
    AccStep(s, w, Zeros(|w|), 1, k, 0, ds, u, cc);
    assert WordSum(s, w, Zeros(|w|), 1, k, 0, u) == was[sch + u] + w[u] * k;
    CarryFits(w[u], was[sch + u], k, cc);
    SpliceStep(cur, was, sch, ds, u, LowWord(W32(w[u] * k + was[sch + u] + cc)));
  }

  lemma SpliceStep(cur: seq<u32>, was: seq<u32>, sch: nat, ds: seq<u32>, u: nat, d: u32)
    requires sch + u < |was| && |ds| == u && cur == was[..sch] + ds + was[sch + u..]
    ensures |cur| == |was| && cur[sch + u] == was[sch + u]
    ensures cur[sch + u := d] == was[..sch] + (ds + [d]) + was[sch + u + 1..]
  {
  }

  lemma AddEnd(cur: seq<u32>, was: seq<u32>, y: seq<u32>, scl: nat, k: int, sch: nat, ds: seq<u32>, cc: int)
    requires scl < 31 && sch <= |was| && Digits(y) && Digits(was)
    requires AddState(cur, was, ShiftWords(y, scl, |was| - sch), k, sch, ds, |was| - sch, cc)
    ensures Added(cur, was, Amount(k, y, sch, scl))
  {
    hide Val, Base, Cong, SVal, Pow2, Digits, ShiftWords, Acc;
    var n := |was| - sch;
    var s, w := was[sch..], ShiftWords(y, scl, n);
    AddedLow(s, w, k, ds, cc, Val(ds), Val(s) + k * Val(w), Base(n));
    ShiftCong(y, scl, n);
    var t := Pow2(scl) * SVal(y);
    CongScale(Val(w), t, k, Base(n));
    CongRefl(Val(s), Base(n));
    CongAdd(Val(s), Val(s), k * Val(w), k * t, Base(n));
    CongTrans(Val(ds), Val(s) + k * Val(w), Val(s) + k * t, Base(n));
    AddedHigh(was, ds, sch, k * t);
    assert cur == was[..sch] + ds;
    assert Base(sch) * (k * t) == k * (Base(sch) * t) by { MulAssoc(Base(sch), k, t); MulAssoc(k, Base(sch), t); }
  }

  lemma AddedLow(s: seq<u32>, w: seq<u32>, k: int, ds: seq<u32>, cc: int, d: int, e: int, b: int)
    requires |w| == |s| && Acc(s, w, Zeros(|w|), 1, k, 0, ds, |w|, cc)
    requires d == Val(ds) && e == Val(s) + k * Val(w) && b == Base(|s|)
    ensures |ds| == |s| && Digits(ds) && Cong(d, e, b)
  {
    hide Val, Base, Cong, Acc, Combination;
    AccFull(s, w, Zeros(|w|), 1, k, 0, ds, cc);
    PlainCombination(s, w, k);
    DropCarry(d, b, cc, e);
  }

  lemma AccFull(s: seq<u32>, t: seq<u32>, m: seq<u32>, xa: int, xb: int, f: int, ds: seq<u32>, c: int)
    requires Acc(s, t, m, xa, xb, f, ds, |s|, c)
    ensures |ds| == |s| && Digits(ds) && Val(ds) + Base(|s|) * c == Combination(s, t, m, xa, xb, f)
  {
    hide Val, Base, Combination, Factors;
    assert s[..|s|] == s && t[..|s|] == t && m[..|s|] == m;
  }

  lemma PlainCombination(s: seq<u32>, w: seq<u32>, k: int)
    ensures Combination(s, w, Zeros(|w|), 1, k, 0) == Val(s) + k * Val(w)
  {
    hide Val;
    PlainSum(Val(s), Val(w), k, Val(Zeros(|w|)));
  }

  lemma PlainSum(a: int, b: int, k: int, z: int)
    requires z == 0
    ensures a * 1 + b * k + z * 0 == a + k * b
  {
  }

  lemma DropCarry(d: int, b: int, c: int, e: int)
    requires b > 0 && d + b * c == e
    ensures Cong(d, e, b)
  {
    hide Cong;
    assert b * (0 - c) == 0 - b * c;
    ByQuotient(d, e, b, 0 - c);
  }

  lemma CarryCast(z: int)
    requires S64(z) == z && 0 - B31 <= z / B31 < B31
    ensures S32(W32(W64(z) / B31)) == z / B31
  {
  }

  /** zint_add_scaled_mul_small: x += k * y * 2^(31*sch + scl). */
  method AddScaledMulSmall(x: array<u32>, xo: nat, xlen: nat, y: array<u32>, yo: nat, ylen: nat, k: int, sch: nat, scl: nat)
    requires x != y && xo + xlen <= x.Length && yo + ylen <= y.Length && scl < 31 && 0 - B31 <= k < B31
    requires Digits(Slice(x[..], xo, xlen)) && Digits(Slice(y[..], yo, ylen))
    modifies x
    ensures Added(Slice(x[..], xo, xlen), old(Slice(x[..], xo, xlen)), Amount(k, Slice(y[..], yo, ylen), sch, scl))
    ensures OnlyChanged(x[..], old(x[..]), xo, xo + xlen)
  {
    hide Slice, Digits, OnlyChanged, AddState, Added, Amount, W32, W64, S32, S64, LowWord, ShiftWords, ShiftedWord, ExtWord, Pow2;
    ghost var was: seq<u32> := Slice(x[..], xo, xlen);
    ghost var ys: seq<u32> := Slice(y[..], yo, ylen);
    OnlyChangedRefl(x[..], xo, xo + xlen);
    if ylen == 0 {
      AddZeroWords(was, k, ys, sch, scl);
      return;
    }
    if sch >= xlen {
      AddBeyond(was, k, ys, sch, scl);
      return;
    }
    ghost var w: seq<u32> := ShiftWords(ys, scl, xlen - sch);
    ghost var ds: seq<u32> := [];
    ShiftDigits(ys, scl, xlen - sch);
    AddStart(was, w, k, sch);
    var yTop := GetWord(y, yo, ylen, ylen - 1);
    var ysign: u32 := if yTop / 0x4000_0000 == 1 then B31 - 1 else 0;
    var tw: u32 := 0;
    var cc: int := 0;
    var u := sch;
    while u < xlen
      invariant sch <= u <= xlen && tw == ShiftCarry(ys, scl, u - sch) && y[..] == old(y[..])
      invariant AddState(Slice(x[..], xo, xlen), was, w, k, sch, ds, u - sch, cc)
      invariant OnlyChanged(x[..], old(x[..]), xo, xo + xlen)
    {
      var v := u - sch;
      var wy: u32 := ysign;
      if v < ylen {
        wy := GetWord(y, yo, ylen, v);
      }
      ExtWordIs(ys, v, wy, ysign);
      AddStep(Slice(x[..], xo, xlen), was, w, k, sch, ds, v, cc);
      ShiftWordIs(ys, scl, xlen - sch, v);
      var xw := GetWord(x, xo, xlen, u);
      var wys: u32 := ShiftedWord(wy, scl, tw);
      var z := wys * k + xw + cc;
      CarryCast(z);
      ghost var h0: seq<u32> := x[..];
      SetWord(x, xo, xlen, u, LowWord(W32(z)));
      OnlyChangedTrans(x[..], h0, old(x[..]), xo, xo + xlen);
      ds := ds + [LowWord(W32(z))];
      tw := HighBits(wy, Pow2(31 - scl));
      cc := S32(W32(W64(z) / B31));
      u := u + 1;
    }
    AddEnd(Slice(x[..], xo, xlen), was, ys, scl, k, sch, ds, cc);
  }

  lemma ExtWordIs(y: seq<u32>, v: nat, wy: u32, sign: u32)
    requires |y| > 0 && sign == (if y[|y| - 1] / 0x4000_0000 == 1 then B31 - 1 else 0)
    requires wy == if v < |y| then y[v] else sign
    ensures wy == ExtWord(y, v)
  {
  }

  lemma ShiftWordIs(y: seq<u32>, scl: nat, n: nat, v: nat)
    requires scl < 31 && v < n
    ensures ShiftWords(y, scl, n)[v] == ShiftedWord(ExtWord(y, v), scl, ShiftCarry(y, scl, v))
  {
    hide ShiftedWord, ExtWord, ShiftCarry;
  }

  lemma AddBeyond(was: seq<u32>, k: int, y: seq<u32>, sch: nat, scl: nat)
    requires sch >= |was| && Digits(was)
    ensures Added(was, was, Amount(k, y, sch, scl))
  {
    hide Base, Pow2, SVal, Added;
    var t := Pow2(scl) * SVal(y);
    AddedNothing(was, sch, k * t);
    assert Base(sch) * (k * t) == k * (Base(sch) * t) by { MulAssoc(Base(sch), k, t); MulAssoc(k, Base(sch), t); }
  }

  lemma AddZeroWords(was: seq<u32>, k: int, y: seq<u32>, sch: nat, scl: nat)
    requires Digits(was) && |y| == 0
    ensures Added(was, was, Amount(k, y, sch, scl))
  {
    assert SVal(y) == 0;
    assert Amount(k, y, sch, scl) == 0;
    CongRefl(Val(was), Base(|was|));
  }

  /** After u high words of x - w. */
  ghost predicate LowerState(cur: seq<u32>, was: seq<u32>, w: seq<u32>, sch: nat, ds: seq<u32>, u: nat, cc: u32) {
    sch <= |was| && |w| == |was| - sch && |ds| == u <= |w| &&
    SubState(ds + was[sch + u..], was[sch..], w, ds, u, cc, 1) && cur == was[..sch] + ds + was[sch + u..]
  }

  lemma LowerStart(was: seq<u32>, w: seq<u32>, sch: nat)
    requires sch <= |was| && |w| == |was| - sch && Digits(was) && Digits(w)
    ensures LowerState(was, was, w, sch, [], 0, 0)
  {
    hide SubState;
    assert was == was[..sch] + [] + was[sch..];
    assert [] + was[sch + 0..] == was[sch..];
    SubStart(was[sch..], w, 1);
  }

  lemma LowerStep(cur: seq<u32>, was: seq<u32>, w: seq<u32>, sch: nat, ds: seq<u32>, u: nat, cc: u32)
    requires LowerState(cur, was, w, sch, ds, u, cc) && u < |w|
    ensures |cur| == |was| && cur[sch + u] == was[sch + u]
    ensures var z := W32(was[sch + u] - w[u] - cc);
      LowerState(cur[sch + u := LowWord(z)], was, w, sch, ds + [LowWord(z)], u + 1, z / B31)
  {
    hide SubState, W32, LowWord;
    var s := was[sch..];
    SubStep(ds + was[sch + u..], s, w, ds, u, cc, 1);
    var d: u32 := LowWord(W32(was[sch + u] - w[u] - cc));
    SpliceStep(cur, was, sch, ds, u, d);
    assert (ds + was[sch + u..])[u := d] == (ds + [d]) + was[sch + u + 1..];
  }

  lemma LowerEnd(cur: seq<u32>, was: seq<u32>, y: seq<u32>, scl: nat, sch: nat, ds: seq<u32>, cc: u32)
    requires scl < 31 && sch <= |was| && Digits(y) && Digits(was)
    requires LowerState(cur, was, ShiftWords(y, scl, |was| - sch), sch, ds, |was| - sch, cc)
    ensures Added(cur, was, Amount(-1, y, sch, scl))
  {
    hide Val, Base, Cong, SVal, Pow2, Digits, ShiftWords, SubState;
    var n := |was| - sch;
    var s, w := was[sch..], ShiftWords(y, scl, n);
    SubEnd(ds + was[sch + n..], s, w, ds, cc, 1);
    ShiftCong(y, scl, n);
    var t := Pow2(scl) * SVal(y);
    ByQuotient(Val(ds), Val(s) - Val(w), Base(n), cc);
    CongRefl(Val(s), Base(n));
    CongSub(Val(s), Val(s), Val(w), t, Base(n));
    CongTrans(Val(ds), Val(s) - Val(w), Val(s) - t, Base(n));
    AddedHigh(was, ds, sch, 0 - t);
    assert cur == was[..sch] + ds;
    assert Base(sch) * (0 - t) == -1 * (Base(sch) * t);
  }

  /** zint_sub_scaled: x -= y * 2^(31*sch + scl). */
  method SubScaledNumber(x: array<u32>, xo: nat, xlen: nat, y: array<u32>, yo: nat, ylen: nat, sch: nat, scl: nat)
    requires x != y && xo + xlen <= x.Length && yo + ylen <= y.Length && scl < 31
    requires Digits(Slice(x[..], xo, xlen)) && Digits(Slice(y[..], yo, ylen))
    modifies x
    ensures Added(Slice(x[..], xo, xlen), old(Slice(x[..], xo, xlen)), Amount(-1, Slice(y[..], yo, ylen), sch, scl))
    ensures OnlyChanged(x[..], old(x[..]), xo, xo + xlen)
  {
    hide Slice, Digits, OnlyChanged, LowerState, Added, Amount, W32, LowWord, ShiftWords, ShiftedWord, ExtWord, Pow2;
    ghost var was: seq<u32> := Slice(x[..], xo, xlen);
    ghost var ys: seq<u32> := Slice(y[..], yo, ylen);
    OnlyChangedRefl(x[..], xo, xo + xlen);
    if ylen == 0 {
      AddZeroWords(was, -1, ys, sch, scl);
      return;
    }
    if sch >= xlen {
      AddBeyond(was, -1, ys, sch, scl);
      return;
    }
    ghost var w: seq<u32> := ShiftWords(ys, scl, xlen - sch);
    ghost var ds: seq<u32> := [];
    ShiftDigits(ys, scl, xlen - sch);
    LowerStart(was, w, sch);
    var yTop := GetWord(y, yo, ylen, ylen - 1);
    var ysign: u32 := if yTop / 0x4000_0000 == 1 then B31 - 1 else 0;
    var tw: u32, cc: u32 := 0, 0;
    var u := sch;
    while u < xlen
      invariant sch <= u <= xlen && tw == ShiftCarry(ys, scl, u - sch) && y[..] == old(y[..])
      invariant LowerState(Slice(x[..], xo, xlen), was, w, sch, ds, u - sch, cc)
      invariant OnlyChanged(x[..], old(x[..]), xo, xo + xlen)
    {
      var v := u - sch;
      var wy: u32 := ysign;
      if v < ylen {
        wy := GetWord(y, yo, ylen, v);
      }
      ExtWordIs(ys, v, wy, ysign);
      LowerStep(Slice(x[..], xo, xlen), was, w, sch, ds, v, cc);
      ShiftWordIs(ys, scl, xlen - sch, v);
      var xw := GetWord(x, xo, xlen, u);
      var wys: u32 := ShiftedWord(wy, scl, tw);
      var z: u32 := W32(xw - wys - cc);
      ghost var h0: seq<u32> := x[..];
      SetWord(x, xo, xlen, u, LowWord(z));
      OnlyChangedTrans(x[..], h0, old(x[..]), xo, xo + xlen);
      ds := ds + [LowWord(z)];
      tw := HighBits(wy, Pow2(31 - scl));
      cc := z / B31;
      u := u + 1;
    }
    LowerEnd(Slice(x[..], xo, xlen), was, ys, scl, sch, ds, cc);
  }
}
