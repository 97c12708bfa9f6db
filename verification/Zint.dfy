/** Big integers as little-endian arrays of 31-bit words: the basic zint_* loops of keygen.c. */
module Zint {
  import opened Words
  import opened Congruence
  import opened Modp
  import opened ModpPowers

  // ---------------------------------------------------------------------
  // Values
  // ---------------------------------------------------------------------

  ghost function Val(s: seq<int>): int {
    if |s| == 0 then 0 else s[0] + B31 * Val(s[1..])
  }

  /** 2^(31*k). */
  ghost function Base(k: nat): (b: int)
    ensures b > 0
  {
    if k == 0 then 1 else B31 * Base(k - 1)
  }

  /** Every word is on 31 bits. */
  ghost predicate Digits(s: seq<int>) {
    forall i :: 0 <= i < |s| ==> 0 <= s[i] < B31
  }

  /** The value of s as a two's complement integer. */
  ghost function SVal(s: seq<int>): int {
    Val(s) - if |s| > 0 && s[|s| - 1] >= B31 / 2 then Base(|s|) else 0
  }

  lemma {:induction false} BaseIsPow(k: nat)
    ensures Base(k) == Pow(B31, k)
  {
    if k > 0 {
      BaseIsPow(k - 1);
    }
  }

  lemma {:induction false} ValJoin(s: seq<int>, t: seq<int>)
    ensures Val(s + t) == Val(s) + Base(|s|) * Val(t)
  {
    if |s| == 0 {
      assert s + t == t;
    } else {
      assert (s + t)[1..] == s[1..] + t;
      ValJoin(s[1..], t);
      var a, b, c := Val(s[1..]), Base(|s| - 1), Val(t);
      assert B31 * (a + b * c) == B31 * a + (B31 * b) * c by { MulAssoc(B31, b, c); }
    }
  }

  lemma ValAppend(s: seq<int>, w: int)
    ensures Val(s + [w]) == Val(s) + Base(|s|) * w
  {
    ValJoin(s, [w]);
    assert [w][1..] == [];
    assert Val([w]) == w;
  }

  lemma ValPrefix(s: seq<int>, u: nat)
    requires u < |s|
    ensures Val(s[..u + 1]) == Val(s[..u]) + Base(u) * s[u]
  {
    assert s[..u + 1] == s[..u] + [s[u]];
    ValAppend(s[..u], s[u]);
  }

  lemma {:induction false} ValBound(s: seq<int>)
    requires Digits(s)
    ensures 0 <= Val(s) < Base(|s|)
  {
    if |s| > 0 {
      ValBound(s[1..]);
    }
  }

  /** A value determines its words. */
  lemma {:induction false} ValInjective(s: seq<int>, t: seq<int>)
    requires Digits(s) && Digits(t) && |s| == |t| && Val(s) == Val(t)
    ensures s == t
  {
    if |s| > 0 {
      assert s[0] + B31 * Val(s[1..]) == t[0] + B31 * Val(t[1..]);
      assert s[0] == t[0];
      ValInjective(s[1..], t[1..]);
      assert s == [s[0]] + s[1..] && t == [t[0]] + t[1..];
    }
  }

  /** Nothing outside [lo, hi) differs. */
  ghost predicate OnlyChanged(a: seq<u32>, b: seq<u32>, lo: nat, hi: nat) {
    |a| == |b| && lo <= hi <= |a| && a[..lo] == b[..lo] && a[hi..] == b[hi..]
  }

  lemma OnlyChangedRefl(a: seq<u32>, lo: nat, hi: nat)
    requires lo <= hi <= |a|
    ensures OnlyChanged(a, a, lo, hi)
  {
  }

  lemma OnlyChangedTrans(a: seq<u32>, b: seq<u32>, c: seq<u32>, lo: nat, hi: nat)
    requires OnlyChanged(a, b, lo, hi) && OnlyChanged(b, c, lo, hi)
    ensures OnlyChanged(a, c, lo, hi)
  {
  }

  /** The words a[off..off+len]. */
  function Slice(a: seq<u32>, off: nat, len: nat): (s: seq<u32>)
    requires off + len <= |a|
    ensures |s| == len
  {
    a[off..off + len]
  }

  method GetWord(a: array<u32>, off: nat, len: nat, u: nat) returns (w: u32)
    requires off + len <= a.Length && u < len
    ensures w == Slice(a[..], off, len)[u]
  {
    w := a[off + u];
  }

  /** Storing word u of a number at offset off. */
  method SetWord(a: array<u32>, off: nat, len: nat, u: nat, w: u32)
    requires off + len <= a.Length && u < len
    modifies a
    ensures Slice(a[..], off, len) == old(Slice(a[..], off, len))[u := w]
    ensures OnlyChanged(a[..], old(a[..]), off, off + len)
  {
    a[off + u] := w;
    assert a[..] == old(a[..])[off + u := w];
    assert Slice(a[..], off, len) == old(Slice(a[..], off, len))[u := w];
  }

  lemma DigitsAppend(r: seq<u32>, w: u32)
    requires Digits(r) && w < B31
    ensures Digits(r + [w])
  {
  }

  // ---------------------------------------------------------------------
  // zint_sub
  // ---------------------------------------------------------------------

  /** One word of a subtraction: the digit and the borrow of x - y - c. */
  lemma BorrowStep(x: int, y: int, c: int)
    requires 0 <= x < B31 && 0 <= y < B31 && 0 <= c <= 1
    ensures var w := W32(x - y - c); w % B31 - B31 * (w / B31) == x - y - c && 0 <= w / B31 <= 1
  {
  }

  lemma SubValue(r: seq<int>, a: seq<int>, b: seq<int>, u: nat, c: int, d: int, e: int)
    requires u < |a| && u < |b| && |r| == u
    requires Val(r) - Base(u) * c == Val(a[..u]) - Val(b[..u])
    requires d - B31 * e == a[u] - b[u] - c
    ensures Val(r + [d]) - Base(u + 1) * e == Val(a[..u + 1]) - Val(b[..u + 1])
  {
    ValAppend(r, d);
    ValPrefix(a, u);
    ValPrefix(b, u);
    var m := Base(u);
    assert Base(u + 1) * e == m * (B31 * e) by { MulAssoc(m, B31, e); }
    assert m * (d - B31 * e) == m * (a[u] - b[u] - c);
    Distribute(m, d, B31 * e, a[u], b[u], c);
  }

  lemma Distribute(m: int, d: int, e: int, a: int, b: int, c: int)
    ensures m * (d - e) == m * d - m * e
    ensures m * (a - b - c) == m * a - m * b - m * c
  {
  }

  /**
   * After u words: v holds the words of the difference, and the buffer holds v or, when
   * the operation is disabled, the original words.
   */
  ghost predicate SubState(cur: seq<u32>, s: seq<u32>, t: seq<u32>, v: seq<u32>, u: nat, cc: u32, ctl: u32) {
    |s| == |t| && u <= |s| && |v| == u && cc <= 1 && Digits(v) && Digits(s) && Digits(t) &&
    Val(v) - Base(u) * cc == Val(s[..u]) - Val(t[..u]) &&
    cur == (if ctl == 1 then v else s[..u]) + s[u..]
  }

  lemma SubStart(s: seq<u32>, t: seq<u32>, ctl: u32)
    requires |s| == |t| && Digits(s) && Digits(t)
    ensures SubState(s, s, t, [], 0, 0, ctl)
  {
    assert s == s[..0] + s[0..];
  }

  lemma SubStep(cur: seq<u32>, s: seq<u32>, t: seq<u32>, v: seq<u32>, u: nat, cc: u32, ctl: u32)
    requires SubState(cur, s, t, v, u, cc, ctl) && u < |s|
    ensures |cur| == |s| && cur[u] == s[u]
    ensures var w := W32(s[u] - t[u] - cc); var d := LowWord(w);
      SubState(cur[u := if ctl == 1 then d else s[u]], s, t, v + [d], u + 1, w / B31, ctl)
  {
    hide Val, Base, W32;
    BorrowStep(s[u], t[u], cc);
    var w := W32(s[u] - t[u] - cc);
    var d: u32 := LowWord(w);
    SubValue(v, s, t, u, cc, d, w / B31);
    DigitsAppend(v, d);
  }

  lemma BorrowMeaning(v: int, s: int, t: int, m: int, c: int)
    requires 0 <= v < m && 0 <= c <= 1 && v - m * c == s - t
    ensures v == s - t + m * c && (c == 1 <==> s < t)
  {
    assert c == 0 || c == 1;
  }

  lemma SubEnd(cur: seq<u32>, s: seq<u32>, t: seq<u32>, v: seq<u32>, cc: u32, ctl: u32)
    requires SubState(cur, s, t, v, |s|, cc, ctl)
    ensures ctl == 1 ==> cur == v
    ensures ctl != 1 ==> cur == s
    ensures Digits(v) && Val(v) == Val(s) - Val(t) + Base(|s|) * cc && cc <= 1
    ensures cc == 1 <==> Val(s) < Val(t)
  {
    hide Val, Base;
    assert s[..|s|] == s && t[..|s|] == t;
    ValBound(v);
    BorrowMeaning(Val(v), Val(s), Val(t), Base(|s|), cc);
  }

  method SubCond(a: array<u32>, ao: nat, b: array<u32>, bo: nat, len: nat, ctl: u32) returns (cc: u32)
    requires a != b && ao + len <= a.Length && bo + len <= b.Length && ctl <= 1
    requires Digits(Slice(a[..], ao, len)) && Digits(Slice(b[..], bo, len))
    modifies a
    ensures cc <= 1 && (cc == 1 <==> Val(old(Slice(a[..], ao, len))) < Val(Slice(b[..], bo, len)))
    ensures ctl == 0 ==> Slice(a[..], ao, len) == old(Slice(a[..], ao, len))
    ensures ctl == 1 ==> Digits(Slice(a[..], ao, len))
    ensures ctl == 1 ==>
      Val(Slice(a[..], ao, len)) == Val(old(Slice(a[..], ao, len))) - Val(Slice(b[..], bo, len)) + Base(len) * cc
    ensures OnlyChanged(a[..], old(a[..]), ao, ao + len)
  {
    hide Slice, Val, Base, OnlyChanged, SubState, Digits, W32, LowWord;
    ghost var s: seq<u32> := Slice(a[..], ao, len);
    ghost var t: seq<u32> := Slice(b[..], bo, len);
    ghost var v: seq<u32> := [];
    cc := 0;
    OnlyChangedRefl(a[..], ao, ao + len);
    SubStart(s, t, ctl);
    for u := 0 to len
      invariant b[..] == old(b[..]) && OnlyChanged(a[..], old(a[..]), ao, ao + len)
      invariant SubState(Slice(a[..], ao, len), s, t, v, u, cc, ctl)
    {
      SubStep(Slice(a[..], ao, len), s, t, v, u, cc, ctl);
      var aw := GetWord(a, ao, len, u);
      var bw := GetWord(b, bo, len, u);
      var w: u32 := W32(aw - bw - cc);
      ghost var h: seq<u32> := a[..];
      SetWord(a, ao, len, u, if ctl == 1 then LowWord(w) else aw);
      OnlyChangedTrans(a[..], h, old(a[..]), ao, ao + len);
      v := v + [LowWord(w)];
      cc := w / B31;
    }
    SubEnd(Slice(a[..], ao, len), s, t, v, cc, ctl);
  }

  function LowWord(w: u32): u32 {
    w % B31
  }

  lemma DigitAt(s: seq<u32>, u: nat)
    requires Digits(s) && u < |s|
    ensures 0 <= s[u] < B31
  {
  }

  // ---------------------------------------------------------------------
  // zint_mul_small and zint_add_mul_small
  // ---------------------------------------------------------------------

  lemma WordSplit(z: int)
    ensures z == B31 * (z / B31) + LowWord(W32(z)) && LowWord(W32(z)) == z % B31
  {
  }

  /** One word of x + y*s with carry: no uint64_t overflow, and the carry stays on 31 bits. */
  lemma CarryStep(x: int, y: int, s: int, c: int)
    requires 0 <= x < B31 && 0 <= y < B31 && 0 <= s < B31 && 0 <= c < B31
    ensures 0 <= y * s + x + c < B64
    ensures LowWord(W32(y * s + x + c)) + B31 * ((y * s + x + c) / B31) == y * s + x + c
    ensures 0 <= (y * s + x + c) / B31 < B31
  {
    hide W32, LowWord;
    MulMono(y, B31 - 1, s);
    MulMono(0, y, s);
    var z := y * s + x + c;
    assert z <= (B31 - 1) * s + 2 * (B31 - 1) <= (B31 - 1) * (B31 + 1);
    WordSplit(z);
  }

  lemma MulValue(r: seq<int>, x: seq<int>, y: seq<int>, u: nat, s: int, c: int, d: int, e: int)
    requires u < |x| && u < |y| && |r| == u
    requires Val(r) + Base(u) * c == Val(x[..u]) + Val(y[..u]) * s
    requires d + B31 * e == y[u] * s + x[u] + c
    ensures Val(r + [d]) + Base(u + 1) * e == Val(x[..u + 1]) + Val(y[..u + 1]) * s
  {
    ValAppend(r, d);
    ValPrefix(x, u);
    ValPrefix(y, u);
    var m := Base(u);
    calc {
      Val(r + [d]) + Base(u + 1) * e;
      { MulAssoc(m, B31, e); }
      Val(r) + m * d + m * (B31 * e);
      Val(r) + m * (d + B31 * e);
      { Distribute3(m, y[u] * s, x[u], c); }
      Val(r) + m * (y[u] * s) + m * x[u] + m * c;
      { MulAssoc(m, y[u], s); }
      Val(x[..u]) + Val(y[..u]) * s + (m * y[u]) * s + m * x[u];
      Val(x[..u + 1]) + (Val(y[..u]) + m * y[u]) * s;
    }
  }

  lemma Distribute3(m: int, a: int, b: int, c: int)
    ensures m * (a + b + c) == m * a + m * b + m * c
  {
  }

  /** After u words of x + y*s: r holds them, cc is the carry, p is the original buffer. */
  ghost predicate MulState(cur: seq<u32>, p: seq<u32>, x: seq<u32>, y: seq<u32>, s: u32, r: seq<u32>, u: nat, cc: u32) {
    |x| == |y| && u <= |x| <= |p| && |r| == u && cc < B31 && s < B31 &&
    Digits(r) && Digits(x) && Digits(y) &&
    Val(r) + Base(u) * cc == Val(x[..u]) + Val(y[..u]) * s &&
    cur == r + p[u..]
  }

  lemma MulStart(p: seq<u32>, x: seq<u32>, y: seq<u32>, s: u32)
    requires |x| == |y| <= |p| && s < B31 && Digits(x) && Digits(y)
    ensures MulState(p, p, x, y, s, [], 0, 0)
  {
    assert 0 * s == 0;
    assert p == [] + p[0..];
  }

  lemma MulStep(cur: seq<u32>, p: seq<u32>, x: seq<u32>, y: seq<u32>, s: u32, r: seq<u32>, u: nat, cc: u32)
    requires MulState(cur, p, x, y, s, r, u, cc) && u < |x|
    ensures |cur| == |p| && cur[u] == p[u]
    ensures var z := y[u] * s + x[u] + cc; var d := LowWord(W32(z));
      0 <= z < B64 && 0 <= z / B31 < B31 && MulState(cur[u := d], p, x, y, s, r + [d], u + 1, z / B31)
  {
    hide Val, Base, W32, LowWord;
    CarryStep(x[u], y[u], s, cc);
    var z := y[u] * s + x[u] + cc;
    var d: u32 := LowWord(W32(z));
    MulValue(r, x, y, u, s, cc, d, z / B31);
    LowWordBound(W32(z));
    DigitsAppend(r, d);
  }

  lemma LowWordBound(w: u32)
    ensures LowWord(w) < B31
  {
  }

  lemma MulEnd(cur: seq<u32>, p: seq<u32>, x: seq<u32>, y: seq<u32>, s: u32, r: seq<u32>, cc: u32)
    requires MulState(cur, p, x, y, s, r, |x|, cc)
    ensures Digits(r) && cc < B31 && Val(r) + Base(|x|) * cc == Val(x) + Val(y) * s
    ensures |p| == |x| ==> cur == r
    ensures |p| == |x| + 1 ==> |cur| == |p| && cur[|x| := cc] == r + [cc]
    ensures |p| == |x| + 1 ==> Digits(r + [cc]) && Val(r + [cc]) == Val(x) + Val(y) * s
  {
    assert x[..|x|] == x && y[..|x|] == y;
    hide Val, Base;
    DigitsAppend(r, cc);
    ValAppend(r, cc);
  }

  lemma PrefixWord(a: seq<u32>, off: nat, len: nat, u: nat)
    requires off + len + 1 <= |a| && u < len
    ensures Slice(a, off, len + 1)[u] == Slice(a, off, len)[u]
  {
  }

  /** zint_add_mul_small: x += y*s, growing by one word. */
  method AddMulSmall(x: array<u32>, xo: nat, y: array<u32>, yo: nat, len: nat, s: u32)
    requires x != y && xo + len + 1 <= x.Length && yo + len <= y.Length && s < B31
    requires Digits(Slice(x[..], xo, len)) && Digits(Slice(y[..], yo, len))
    modifies x
    ensures Digits(Slice(x[..], xo, len + 1))
    ensures Val(Slice(x[..], xo, len + 1)) == Val(old(Slice(x[..], xo, len))) + Val(Slice(y[..], yo, len)) * s
    ensures OnlyChanged(x[..], old(x[..]), xo, xo + len + 1)
  {
    hide Slice, Val, Base, OnlyChanged, MulState, Digits, W32, LowWord;
    ghost var p: seq<u32> := Slice(x[..], xo, len + 1);
    ghost var p0: seq<u32> := Slice(x[..], xo, len);
    ghost var t: seq<u32> := Slice(y[..], yo, len);
    ghost var r: seq<u32> := [];
    var cc: u32 := 0;
    OnlyChangedRefl(x[..], xo, xo + len + 1);
    MulStart(p, p0, t, s);
    for u := 0 to len
      invariant y[..] == old(y[..]) && OnlyChanged(x[..], old(x[..]), xo, xo + len + 1)
      invariant cc < B31 && MulState(Slice(x[..], xo, len + 1), p, p0, t, s, r, u, cc)
    {
      MulStep(Slice(x[..], xo, len + 1), p, p0, t, s, r, u, cc);
      var xw := GetWord(x, xo, len + 1, u);
      var yw := GetWord(y, yo, len, u);
      PrefixWord(old(x[..]), xo, len, u);
      var z := yw * s + xw + cc;
      ghost var h: seq<u32> := x[..];
      cc := z / B31;
      SetWord(x, xo, len + 1, u, LowWord(W32(z)));
      OnlyChangedTrans(x[..], h, old(x[..]), xo, xo + len + 1);
      r := r + [LowWord(W32(z))];
    }
    MulEnd(Slice(x[..], xo, len + 1), p, p0, t, s, r, cc);
    ghost var h: seq<u32> := x[..];
    SetWord(x, xo, len + 1, len, cc);
    OnlyChangedTrans(x[..], h, old(x[..]), xo, xo + len + 1);
  }

  ghost function Zeros(n: nat): (s: seq<u32>)
    ensures |s| == n && Val(s) == 0 && Digits(s) && forall i :: 0 <= i < n ==> s[i] == 0
  {
    if n == 0 then [] else [0] + Zeros(n - 1)
  }

  /** zint_mul_small: m *= x, returning the carry word. */
  method MulSmall(m: array<u32>, mo: nat, len: nat, x: u32) returns (cc: u32)
    requires mo + len <= m.Length && x < B31 && Digits(Slice(m[..], mo, len))
    modifies m
    ensures cc < B31 && Digits(Slice(m[..], mo, len))
    ensures Val(Slice(m[..], mo, len)) + Base(len) * cc == Val(old(Slice(m[..], mo, len))) * x
    ensures OnlyChanged(m[..], old(m[..]), mo, mo + len)
  {
    hide Slice, Val, Base, OnlyChanged, MulState, Digits, W32, LowWord, Zeros;
    ghost var t: seq<u32> := Slice(m[..], mo, len);
    ghost var zeros: seq<u32> := Zeros(len);
    ghost var r: seq<u32> := [];
    cc := 0;
    OnlyChangedRefl(m[..], mo, mo + len);
    MulStart(t, zeros, t, x);
    for u := 0 to len
      invariant OnlyChanged(m[..], old(m[..]), mo, mo + len)
      invariant cc < B31 && MulState(Slice(m[..], mo, len), t, zeros, t, x, r, u, cc)
    {
      MulStep(Slice(m[..], mo, len), t, zeros, t, x, r, u, cc);
      var mw := GetWord(m, mo, len, u);
      var z := mw * x + cc;
      ghost var h: seq<u32> := m[..];
      cc := z / B31;
      SetWord(m, mo, len, u, LowWord(W32(z)));
      OnlyChangedTrans(m[..], h, old(m[..]), mo, mo + len);
      r := r + [LowWord(W32(z))];
    }
    MulEnd(Slice(m[..], mo, len), t, zeros, t, x, r, cc);
  }

  // ---------------------------------------------------------------------
  // Reduction modulo a small prime
  // ---------------------------------------------------------------------

  function WordMod(w: u32, p: u32): u32 {
    var d := W32(w - p);
    W32(d + Mask(d / B31, p))
  }

  lemma WordModSpec(w: u32, p: u32)
    requires Modulus(p) && w < B31
    ensures WordMod(w, p) < p && Cong(WordMod(w, p), w, p)
  {
    WordModValue(w, p);
    hide WordMod, Cong;
    ByQuotient(WordMod(w, p), w, p, if w < p then 0 else -1);
  }

  lemma WordModValue(w: u32, p: u32)
    requires Modulus(p) && w < B31
    ensures WordMod(w, p) == if w < p then w else w - p
  {
  }

  /** One step of Horner's rule modulo p. */
  lemma HornerStep(x: u32, w: u32, v: int, p: u32, p0i: u32)
    requires Field(p, p0i) && x < p && w < B31 && Cong(x, v, p)
    ensures var y := Add(MontyMul(x, R2(p, p0i), p, p0i), WordMod(w, p), p);
      MontyMul(x, R2(p, p0i), p, p0i) < p && y < p && Cong(y, w + B31 * v, p)
  {
    hide Cong, MontyMul, R2, Add, WordMod, NegInverse;
    R2Spec(p, p0i);
    RepMulMixed(x, R2(p, p0i), B31, p, p0i);
    WordModSpec(w, p);
    var m: u32, e: u32 := MontyMul(x, R2(p, p0i), p, p0i), WordMod(w, p);
    AddSpec(m, e, p);
    CongScale(x, v, B31, p);
    CongTrans(m, x * B31, v * B31, p);
    CongAdd(m, v * B31, e, w, p);
    CongTrans(Add(m, e, p), m + e, v * B31 + w, p);
  }

  /** zint_mod_small_unsigned. */
  method ModSmallUnsigned(d: array<u32>, off: nat, len: nat, p: u32, p0i: u32, r2: u32) returns (x: u32)
    requires Field(p, p0i) && r2 == R2(p, p0i)
    requires off + len <= d.Length && Digits(Slice(d[..], off, len))
    ensures x < p && Cong(x, Val(Slice(d[..], off, len)), p)
  {
    hide Cong, MontyMul, R2, Add, WordMod, NegInverse, Digits;
    ghost var s: seq<u32> := Slice(d[..], off, len);
    x := 0;
    CongRefl(0, p);
    var u := len;
    while u > 0
      invariant 0 <= u <= len && x < p && Cong(x, Val(s[u..]), p)
    {
      u := u - 1;
      DigitAt(s, u);
      assert s[u..][1..] == s[u + 1..];
      assert d[off + u] == s[u];
      HornerStep(x, d[off + u], Val(s[u + 1..]), p, p0i);
      x := MontyMul(x, r2, p, p0i);
      x := Add(x, WordMod(d[off + u], p), p);
    }
    assert s[0..] == s;
  }

  /** zint_mod_small_signed; rx is 2^(31*len) modulo p. */
  method ModSmallSigned(d: array<u32>, off: nat, len: nat, p: u32, p0i: u32, r2: u32, rx: u32) returns (z: u32)
    requires Field(p, p0i) && r2 == R2(p, p0i) && rx < p && Cong(rx, Base(len), p)
    requires off + len <= d.Length && Digits(Slice(d[..], off, len))
    ensures z < p && Cong(z, SVal(Slice(d[..], off, len)), p)
  {
    hide Cong, R2, Modp.Sub, NegInverse, Digits, Base;
    if len == 0 {
      CongRefl(0, p);
      return 0;
    }
    z := ModSmallUnsigned(d, off, len, p, p0i, r2);
    ghost var s: seq<u32> := Slice(d[..], off, len);
    DigitAt(s, len - 1);
    var sign: int := d[off + len - 1] / 0x4000_0000;
    var m: u32 := if sign == 0 then 0 else rx;
    ghost var b := if sign == 0 then 0 else Base(len);
    CongRefl(0, p);
    SubSpec(z, m, p);
    CongSub(z, Val(s), m, b, p);
    CongTrans(Modp.Sub(z, m, p), z - m, Val(s) - b, p);
    z := Modp.Sub(z, m, p);
  }
}
