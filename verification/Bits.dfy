/** Bit strings, most significant bit first, and the 32-bit accumulator of the packers in codec.c. */
module Bits {
  import opened Words

  type bit = x: int | 0 <= x < 2 witness 0

  /** The k low bits of w. */
  ghost function BitsOf(w: int, k: nat): (s: seq<bit>)
    ensures |s| == k
    decreases k
  {
    if k == 0 then [] else BitsOf(w / 2, k - 1) + [w % 2]
  }

  /** The bits of a byte string. */
  ghost function BytesBits(b: seq<u8>): (s: seq<bit>)
    ensures |s| == 8 * |b|
  {
    if |b| == 0 then [] else BytesBits(b[..|b| - 1]) + BitsOf(b[|b| - 1], 8)
  }

  ghost function Zeros(k: nat): (s: seq<bit>)
    ensures |s| == k && forall i :: 0 <= i < k ==> s[i] == 0
  {
    seq(k, i => 0)
  }

  // ---------------------------------------------------------------------
  // Bits of sums and quotients
  // ---------------------------------------------------------------------

  /** The high bits come from the quotient, the low bits from the number itself. */
  lemma {:induction false} BitsSplit(w: int, m: nat, k: nat)
    ensures BitsOf(w, m + k) == BitsOf(w / Pow2(k), m) + BitsOf(w, k)
    decreases k
  {
    if k == 0 {
      assert w / 1 == w;
    } else {
      BitsSplit(w / 2, m, k - 1);
      HalfQuotient(w, Pow2(k - 1));
      assert BitsOf(w, m + k) == BitsOf(w / 2, m + k - 1) + [w % 2];
      assert BitsOf(w, k) == BitsOf(w / 2, k - 1) + [w % 2];
    }
  }

  lemma HalfQuotient(w: int, p: int)
    requires p > 0
    ensures (w / 2) / p == w / (2 * p)
  {
    var q := w / (2 * p);
    var r := w % (2 * p);
    assert w == (2 * p) * q + r;
    assert (2 * p) * q == 2 * (p * q) by { MulAssoc(2, p, q); }
    assert w / 2 == p * q + r / 2;
    UniqueQuotient(w / 2, p, q, r / 2);
  }

  /** Shifting left by k and putting in k new bits. */
  lemma {:induction false} BitsPush(a: int, m: nat, w: nat, k: nat)
    requires w < Pow2(k)
    ensures BitsOf(a * Pow2(k) + w, m + k) == BitsOf(a, m) + BitsOf(w, k)
  {
    BitsSplit(a * Pow2(k) + w, m, k);
    UniqueQuotient(a * Pow2(k) + w, Pow2(k), a, w);
    LowBitsOnly(a, w, k);
  }

  lemma {:induction false} LowBitsOnly(a: int, w: int, k: nat)
    ensures BitsOf(a * Pow2(k) + w, k) == BitsOf(w, k)
    decreases k
  {
    if k > 0 {
      var p := Pow2(k - 1);
      assert a * Pow2(k) == 2 * (a * p) by { MulAssoc(a, 2, p); MulAssoc(2, a, p); }
      assert (a * Pow2(k) + w) / 2 == a * p + w / 2 && (a * Pow2(k) + w) % 2 == w % 2;
      LowBitsOnly(a, w / 2, k - 1);
    }
  }

  /** The low bits do not notice a reduction modulo a higher power of two. */
  lemma BitsMod(a: int, k: nat, n: nat)
    requires k <= n
    ensures BitsOf(a % Pow2(n), k) == BitsOf(a, k)
  {
    hide BitsOf, Pow2;
    var q, r, c := a / Pow2(n), a % Pow2(n), Pow2(n - k);
    Pow2Add(n - k, k);
    assert a == Pow2(n) * q + r;
    assert Pow2(n) * q == (q * c) * Pow2(k) by { MulAssoc(q, c, Pow2(k)); }
    LowBitsOnly(q * c, r, k);
  }

  lemma Pow2Small()
    ensures Pow2(7) == 0x80 && Pow2(8) == 0x100 && Pow2(14) == 0x4000 && Pow2(16) == 0x1_0000 && Pow2(32) == B32
  {
    assert Pow2(8) == 0x100;
    Pow2Add(7, 7);
    Pow2Add(8, 8);
    Pow2Add(16, 16);
  }

  lemma BitsOfWord(a: int, k: nat)
    requires k <= 32
    ensures BitsOf(W32(a), k) == BitsOf(a, k)
  {
    Pow2Small();
    BitsMod(a, k, 32);
  }

  /** A value is determined by enough of its bits. */
  lemma {:induction false} BitsInjective(v: int, w: int, k: nat)
    requires 0 <= v < Pow2(k) && 0 <= w < Pow2(k) && BitsOf(v, k) == BitsOf(w, k)
    ensures v == w
  {
    if k > 0 {
      var s, t := BitsOf(v, k), BitsOf(w, k);
      assert s[..k - 1] == BitsOf(v / 2, k - 1) && t[..k - 1] == BitsOf(w / 2, k - 1);
      assert s[k - 1] == v % 2 && t[k - 1] == w % 2;
      BitsInjective(v / 2, w / 2, k - 1);
    }
  }

  lemma {:induction false} ZeroBits(w: int, k: nat)
    ensures BitsOf(w, k) == Zeros(k) <==> w % Pow2(k) == 0
  {
    BitsMod(w, k, k);
    ZeroHasZeros(k);
    if BitsOf(w, k) == Zeros(k) {
      BitsInjective(w % Pow2(k), 0, k);
    }
  }

  lemma {:induction false} ZeroHasZeros(k: nat)
    ensures BitsOf(0, k) == Zeros(k)
  {
    if k > 0 {
      ZeroHasZeros(k - 1);
    }
  }

  // ---------------------------------------------------------------------
  // Bytes
  // ---------------------------------------------------------------------

  lemma ByteBits(v: u8, w: u8)
    requires BitsOf(v, 8) == BitsOf(w, 8)
    ensures v == w
  {
    hide BitsOf;
    Pow2Small();
    BitsInjective(v, w, 8);
  }

  lemma {:induction false} BytesInjective(b: seq<u8>, c: seq<u8>)
    requires BytesBits(b) == BytesBits(c)
    ensures b == c
  {
    hide BitsOf, Pow2;
    assert |b| == |c|;
    if |b| > 0 {
      var s, t, n := BytesBits(b), BytesBits(c), |b| - 1;
      assert s[..8 * n] == BytesBits(b[..n]) && t[..8 * n] == BytesBits(c[..n]);
      assert s[8 * n..] == BitsOf(b[n], 8) && t[8 * n..] == BitsOf(c[n], 8);
      BytesInjective(b[..n], c[..n]);
      ByteBits(b[n], c[n]);
      assert b == b[..n] + [b[n]] && c == c[..n] + [c[n]];
    }
  }

  lemma {:induction false} BytesJoin(b: seq<u8>, c: seq<u8>)
    ensures BytesBits(b + c) == BytesBits(b) + BytesBits(c)
  {
    hide BitsOf;
    if |c| == 0 {
      assert b + c == b;
    } else {
      var d, w := c[..|c| - 1], c[|c| - 1];
      assert (b + c)[..|b + c| - 1] == b + d;
      BytesJoin(b, d);
      assert BytesBits(b + c) == (BytesBits(b) + BytesBits(d)) + BitsOf(w, 8);
      assert BytesBits(c) == BytesBits(d) + BitsOf(w, 8);
    }
  }

  lemma BytesNext(b: seq<u8>, v: nat)
    requires v < |b|
    ensures BytesBits(b[..v + 1]) == BytesBits(b[..v]) + BitsOf(b[v], 8)
    ensures BytesBits(b[v..]) == BitsOf(b[v], 8) + BytesBits(b[v + 1..])
  {
    assert b[..v + 1] == b[..v] + [b[v]];
    assert b[v..] == [b[v]] + b[v + 1..];
    assert [b[v]][..0] == [];
    assert BytesBits([b[v]]) == BitsOf(b[v], 8);
    BytesJoin(b[..v], [b[v]]);
    BytesJoin([b[v]], b[v + 1..]);
  }

  /** b holds exactly the bits s, with zeros up to the end of the last byte. */
  ghost predicate Packs(b: seq<u8>, s: seq<bit>) {
    |s| <= 8 * |b| < |s| + 8 && BytesBits(b) == s + Zeros(8 * |b| - |s|)
  }

  lemma PacksUnique(b: seq<u8>, c: seq<u8>, s: seq<bit>)
    requires Packs(b, s) && Packs(c, s)
    ensures b == c
  {
    assert |b| == |c|;
    BytesInjective(b, c);
  }

  /** Every bit string has a packed form. */
  lemma {:induction false} PacksExists(s: seq<bit>) returns (b: seq<u8>)
    ensures Packs(b, s)
  {
    hide BitsOf;
    if |s| == 0 {
      b := [];
    } else {
      var k := if |s| % 8 == 0 then 8 else |s| % 8;
      var t := s[..|s| - k];
      var c := PacksExists(t);
      var w := ByteFrom(s[|s| - k..] + Zeros(8 - k));
      b := c + [w];
      PacksAppend(c, s, k, w);
    }
  }

  lemma PacksAppend(c: seq<u8>, s: seq<bit>, k: nat, w: u8)
    requires 1 <= k <= 8 && k <= |s| && (|s| - k) % 8 == 0 && Packs(c, s[..|s| - k])
    requires BitsOf(w, 8) == s[|s| - k..] + Zeros(8 - k)
    ensures Packs(c + [w], s)
  {
    hide BitsOf;
    assert 8 * |c| == |s| - k;
    assert BytesBits(c) == s[..|s| - k];
    assert (c + [w])[..|c|] == c;
    assert BytesBits(c + [w]) == BytesBits(c) + BitsOf(w, 8);
    assert BytesBits(c + [w]) == s + Zeros(8 - k);
  }

  lemma ByteFrom(s: seq<bit>) returns (w: u8)
    requires |s| == 8
    ensures BitsOf(w, 8) == s
  {
    hide BitsOf;
    var v := NumberFrom(s);
    Pow2Small();
    w := v;
  }

  lemma {:induction false} NumberFrom(s: seq<bit>) returns (v: nat)
    ensures v < Pow2(|s|) && BitsOf(v, |s|) == s
  {
    if |s| == 0 {
      v := 0;
    } else {
      var h := NumberFrom(s[..|s| - 1]);
      v := 2 * h + s[|s| - 1];
    }
  }

  // ---------------------------------------------------------------------
  // The accumulator
  // ---------------------------------------------------------------------

  /** acc << k with a value of k bits put in; the live bits must stay within 32. */
  lemma PushBits(acc: u32, len: nat, w: nat, k: nat)
    requires len + k <= 32 && w < Pow2(k)
    ensures BitsOf(W32(acc * Pow2(k) + w), len + k) == BitsOf(acc, len) + BitsOf(w, k)
  {
    BitsOfWord(acc * Pow2(k) + w, len + k);
    BitsPush(acc, len, w, k);
  }

  /** (uint8_t)(acc >> (len - 8)): the oldest eight live bits. */
  function TopByte(acc: u32, len: nat): u8
    requires len >= 8
  {
    (acc / Pow2(len - 8)) % 0x100
  }

  lemma PopByte(acc: u32, len: nat)
    requires len >= 8
    ensures BitsOf(acc, len) == BitsOf(TopByte(acc, len), 8) + BitsOf(acc, len - 8)
  {
    BitsSplit(acc, 8, len - 8);
    Pow2Small();
    BitsMod(acc / Pow2(len - 8), 8, 8);
  }

  /** (uint8_t)(acc << (8 - len)): the last live bits, then zeros. */
  function LastByte(acc: u32, len: nat): u8
    requires len <= 8
  {
    (acc * Pow2(8 - len)) % 0x100
  }

  lemma PadByte(acc: u32, len: nat)
    requires len <= 8
    ensures BitsOf(LastByte(acc, len), 8) == BitsOf(acc, len) + Zeros(8 - len)
  {
    Pow2Small();
    BitsMod(acc * Pow2(8 - len), 8, 8);
    BitsPush(acc, len, 0, 8 - len);
    ZeroHasZeros(8 - len);
  }

  /** (acc << 8) | byte. */
  lemma PullByte(acc: u32, len: nat, b: u8)
    requires len <= 24
    ensures BitsOf(W32(acc * 0x100 + b), len + 8) == BitsOf(acc, len) + BitsOf(b, 8)
  {
    hide Pow2, BitsOf, W32;
    Pow2Small();
    PushBits(acc, len, b, 8);
  }
}
