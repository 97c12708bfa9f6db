/** Fixed-width packing: modq_encode/decode and trim_i16/trim_i8_encode/decode of codec.c. */
module FixedCodec {
  import opened Words
  import opened Bits

  const Q: nat := 12289

  // ---------------------------------------------------------------------
  // The format
  // ---------------------------------------------------------------------

  /** The values on k bits each, in two's complement, one after the other. */
  ghost function FixedBits(x: seq<int>, k: nat): (s: seq<bit>)
    ensures |s| == |x| * k
  {
    if |x| == 0 then [] else
    assert |x| * k == (|x| - 1) * k + k;
    FixedBits(x[..|x| - 1], k) + BitsOf(x[|x| - 1], k)
  }

  /** ((n * k) + 7) >> 3 */
  function PackedLength(n: nat, k: nat): (len: nat)
    ensures n * k <= 8 * len < n * k + 8
  {
    assert n * k >= 0;
    (n * k + 7) / 8
  }

  predicate Within(x: seq<int>, lo: int, hi: int) {
    forall i :: 0 <= i < |x| ==> lo <= x[i] <= hi
  }

  /** The bytes b are the packed form of x. */
  ghost predicate Encodes(b: seq<u8>, x: seq<int>, k: nat) {
    Packs(b, FixedBits(x, k))
  }

  lemma FixedNext(x: seq<int>, k: nat, u: nat)
    requires u < |x|
    ensures FixedBits(x[..u + 1], k) == FixedBits(x[..u], k) + BitsOf(x[u], k)
  {
    assert x[..u + 1][..u] == x[..u];
  }

  lemma ResidueUnique(v: int, w: int, p: int)
    requires p > 0 && 0 - p < v - w < p && v % p == w % p
    ensures v == w
  {
    var a, b := v / p, w / p;
    assert v == p * a + v % p && w == p * b + w % p;
    assert v - w == p * (a - b);
    if a > b {
      MulMono(1, a - b, p);
    } else if a < b {
      MulMono(a - b, -1, p);
    }
  }

  /** Values from an interval of at most 2^k integers are determined by their k low bits. */
  lemma ValueUnique(v: int, w: int, lo: int, hi: int, k: nat)
    requires lo <= v <= hi && lo <= w <= hi && hi - lo < Pow2(k) && BitsOf(v, k) == BitsOf(w, k)
    ensures v == w
  {
    hide BitsOf, Pow2;
    BitsMod(v, k, k);
    BitsMod(w, k, k);
    BitsInjective(v % Pow2(k), w % Pow2(k), k);
    ResidueUnique(v, w, Pow2(k));
  }

  /** An encoding determines the values. */
  lemma {:induction false} FixedUnique(x: seq<int>, y: seq<int>, lo: int, hi: int, k: nat)
    requires |x| == |y| && Within(x, lo, hi) && Within(y, lo, hi) && hi - lo < Pow2(k)
    requires FixedBits(x, k) == FixedBits(y, k)
    ensures x == y
  {
    hide BitsOf, Pow2;
    if |x| > 0 {
      var n := |x| - 1;
      FixedLast(x, y, k);
      FixedUnique(x[..n], y[..n], lo, hi, k);
      ValueUnique(x[n], y[n], lo, hi, k);
      assert x == x[..n] + [x[n]] && y == y[..n] + [y[n]];
    }
  }

  lemma FixedLast(x: seq<int>, y: seq<int>, k: nat)
    requires |x| == |y| > 0 && FixedBits(x, k) == FixedBits(y, k)
    ensures var n := |x| - 1; FixedBits(x[..n], k) == FixedBits(y[..n], k) && BitsOf(x[n], k) == BitsOf(y[n], k)
  {
    hide BitsOf;
    var n := |x| - 1;
    var s, t := FixedBits(x[..n], k), FixedBits(y[..n], k);
    SplitEqual(s, BitsOf(x[n], k), t, BitsOf(y[n], k));
  }

  lemma SplitEqual(s: seq<bit>, a: seq<bit>, t: seq<bit>, b: seq<bit>)
    requires |s| == |t| && s + a == t + b
    ensures s == t && a == b
  {
    assert (s + a)[..|s|] == s && (t + b)[..|s|] == t;
    assert (s + a)[|s|..] == a && (t + b)[|s|..] == b;
  }

  /** Any two vectors in range with the same packed form are equal, and packed forms are unique. */
  lemma EncodesUnique(b: seq<u8>, x: seq<int>, y: seq<int>, lo: int, hi: int, k: nat)
    requires |x| == |y| && Within(x, lo, hi) && Within(y, lo, hi) && hi - lo < Pow2(k)
    requires Encodes(b, x, k) && Encodes(b, y, k)
    ensures x == y
  {
    var n := |x| * k;
    assert BytesBits(b)[..n] == FixedBits(x, k) && BytesBits(b)[..n] == FixedBits(y, k);
    FixedUnique(x, y, lo, hi, k);
  }

  /**
   * The encoding of x followed by anything decodes to x and to nothing else, and an input that
   * decodes to x starts with the one encoding of x.
   */
  lemma RoundTrip(c: seq<u8>, tail: seq<u8>, x: seq<int>, k: nat, lo: int, hi: int)
    requires Encodes(c, x, k) && Within(x, lo, hi) && hi - lo < Pow2(k)
    ensures |c| == PackedLength(|x|, k) && Decodable(c + tail, x, |x|, k, lo, hi)
    ensures forall y :: Decodable(c + tail, y, |x|, k, lo, hi) ==> y == x
    ensures forall b :: Decodable(b, x, |x|, k, lo, hi) ==> b[..|c|] == c
  {
    hide FixedBits, Pow2, Packs, PackedLength, Within;
    EncodedLength(c, x, k);
    assert (c + tail)[..|c|] == c;
    forall y | Decodable(c + tail, y, |x|, k, lo, hi)
      ensures y == x
    {
      EncodesUnique(c, x, y, lo, hi, k);
    }
    forall b | Decodable(b, x, |x|, k, lo, hi)
      ensures b[..|c|] == c
    {
      PacksUnique(b[..|c|], c, FixedBits(x, k));
    }
  }

  lemma EncodedLength(c: seq<u8>, x: seq<int>, k: nat)
    requires Encodes(c, x, k)
    ensures |c| == PackedLength(|x|, k)
  {
    hide FixedBits, BytesBits;
  }

  // ---------------------------------------------------------------------
  // Writing
  // ---------------------------------------------------------------------

  /** The inner loop of the encoders: full bytes leave the accumulator. */
  method DrainBytes(out: array<u8>, v0: nat, acc: u32, len0: nat) returns (v: nat, len: nat)
    requires len0 <= 32 && v0 + len0 / 8 <= out.Length
    modifies out
    ensures v == v0 + len0 / 8 && len == len0 % 8
    ensures BytesBits(out[..v]) + BitsOf(acc, len) == old(BytesBits(out[..v0])) + BitsOf(acc, len0)
    ensures out[v..] == old(out[v..])
  {
    hide BytesBits, BitsOf, TopByte;
    v, len := v0, len0;
    while len >= 8
      invariant v0 <= v && 8 * v + len == 8 * v0 + len0 && v <= out.Length
      invariant BytesBits(out[..v]) + BitsOf(acc, len) == old(BytesBits(out[..v0])) + BitsOf(acc, len0)
      invariant out[v..] == old(out[v..])
      decreases len
    {
      PopByte(acc, len);
      ghost var before := out[..v];
      out[v] := TopByte(acc, len);
      assert out[..v + 1][..v] == before;
      BytesNext(out[..v + 1], v);
      assert out[..v + 1][..v + 1] == out[..v + 1];
      len := len - 8;
      v := v + 1;
    }
  }

  /** The last, incomplete byte. */
  method FlushByte(out: array<u8>, v0: nat, acc: u32, len: nat, ghost s: seq<bit>) returns (v: nat)
    requires len < 8 && v0 <= out.Length && (len > 0 ==> v0 < out.Length)
    requires BytesBits(out[..v0]) + BitsOf(acc, len) == s
    modifies out
    ensures v == v0 + (if len > 0 then 1 else 0) && Packs(out[..v], s) && out[v..] == old(out[v..])
  {
    hide BytesBits, BitsOf, LastByte;
    v := v0;
    if len > 0 {
      PadByte(acc, len);
      ghost var before := out[..v];
      out[v] := LastByte(acc, len);
      assert out[..v + 1][..v] == before;
      BytesNext(out[..v + 1], v);
      assert out[..v + 1][..v + 1] == out[..v + 1];
      v := v + 1;
      assert BytesBits(out[..v]) == s + Zeros(8 - len);
    } else {
      assert BytesBits(out[..v]) == s + Zeros(0);
    }
  }

  /** modq_encode; `out` is null when only the length is wanted. */
  method ModqEncode(out: array?<u8>, maxOut: nat, x: seq<u16>, logn: nat) returns (r: nat)
    requires |x| == Pow2(logn) && (out != null ==> maxOut <= out.Length)
    modifies if out == null then {} else {out}
    ensures r == 0 <==> !Within(x, 0, Q - 1) || (out != null && PackedLength(|x|, 14) > maxOut)
    ensures r != 0 ==> r == PackedLength(|x|, 14)
    ensures r != 0 && out != null ==> Encodes(out[..r], x, 14) && out[r..] == old(out[r..])
  {
    hide FixedBits, BytesBits, BitsOf, Packs, Pow2, PackedLength;
    var n := Pow2(logn);
    for u := 0 to n
      invariant Within(x[..u], 0, Q - 1)
    {
      if x[u] >= 12289 {
        return 0;
      }
      assert x[..u + 1] == x[..u] + [x[u]];
    }
    assert x[..n] == x;
    var outLen := PackedLength(n, 14);
    MulPos(n, 14);
    if out == null {
      return outLen;
    }
    if outLen > maxOut {
      return 0;
    }
    var acc: u32, accLen: nat, v: nat := 0, 0, 0;
    NothingYet(x, out[..0], 14);
    for u := 0 to n
      invariant accLen < 8 && 8 * v + accLen == u * 14 && v <= out.Length
      invariant BytesBits(out[..v]) + BitsOf(acc, accLen) == FixedBits(x[..u], 14)
      invariant out[outLen..] == old(out[outLen..])
    {
      FixedNext(x, 14, u);
      FourteenBits(x[u]);
      PushBits(acc, accLen, x[u], 14);
      acc := W32(acc * Pow2(14) + x[u]);
      accLen := accLen + 14;
      RoomLeft(u, n, 14, v, accLen, outLen);
      ghost var h := out[..];
      v, accLen := DrainBytes(out, v, acc, accLen);
      assert out[outLen..] == out[v..][outLen - v..] == h[outLen..];
    }
    assert x[..n] == x;
    ghost var h := out[..];
    r := FlushByte(out, v, acc, accLen, FixedBits(x, 14));
    assert out[r..] == h[r..];
  }

  lemma FourteenBits(w: int)
    requires w < Q
    ensures w < Pow2(14)
  {
    hide Pow2;
    Pow2Small();
  }

  lemma NothingYet(x: seq<int>, b: seq<u8>, k: nat)
    requires |b| == 0
    ensures BytesBits(b) + BitsOf(0, 0) == FixedBits(x[..0], k)
  {
  }

  /**
   * trim_i16_encode (width 16) and trim_i8_encode (width 8), which share one text; the width is
   * that of the C type of x[].
   */
  method TrimEncode(out: array?<u8>, maxOut: nat, x: seq<int>, logn: nat, bits: nat, width: nat) returns (r: nat)
    requires |x| == Pow2(logn) && (out != null ==> maxOut <= out.Length) && 1 <= bits <= width <= 16
    modifies if out == null then {} else {out}
    ensures r == 0 <==> !Within(x, 1 - Pow2(bits - 1), Pow2(bits - 1) - 1) || (out != null && PackedLength(|x|, bits) > maxOut)
    ensures r != 0 ==> r == PackedLength(|x|, bits)
    ensures r != 0 && out != null ==> Encodes(out[..r], x, bits) && out[r..] == old(out[r..])
  {
    hide FixedBits, BytesBits, BitsOf, Packs, Pow2, PackedLength;
    var n := Pow2(logn);
    var maxv := Pow2(bits - 1) - 1;
    var minv := 0 - maxv;
    for u := 0 to n
      invariant Within(x[..u], minv, maxv)
    {
      if x[u] < minv || x[u] > maxv {
        return 0;
      }
      assert x[..u + 1] == x[..u] + [x[u]];
    }
    assert x[..n] == x;
    var outLen := PackedLength(n, bits);
    MulPos(n, bits);
    if out == null {
      return outLen;
    }
    if outLen > maxOut {
      return 0;
    }
    var acc: u32, accLen: nat, v: nat := 0, 0, 0;
    NothingYet(x, out[..0], bits);
    for u := 0 to n
      invariant accLen < 8 && 8 * v + accLen == u * bits && v <= out.Length
      invariant BytesBits(out[..v]) + BitsOf(acc, accLen) == FixedBits(x[..u], bits)
      invariant out[outLen..] == old(out[outLen..])
    {
      FixedNext(x, bits, u);
      MaskedBits(x[u], width, bits);
      var w := (x[u] % Pow2(width)) % Pow2(bits);
      PushBits(acc, accLen, w, bits);
      acc := W32(acc * Pow2(bits) + w);
      accLen := accLen + bits;
      RoomLeft(u, n, bits, v, accLen, outLen);
      ghost var h := out[..];
      v, accLen := DrainBytes(out, v, acc, accLen);
      assert out[outLen..] == out[v..][outLen - v..] == h[outLen..];
    }
    assert x[..n] == x;
    ghost var h := out[..];
    r := FlushByte(out, v, acc, accLen, FixedBits(x, bits));
    assert out[r..] == h[r..];
  }

  lemma MaskedBits(x: int, width: nat, bits: nat)
    requires bits <= width
    ensures 0 <= (x % Pow2(width)) % Pow2(bits) < Pow2(bits)
    ensures BitsOf((x % Pow2(width)) % Pow2(bits), bits) == BitsOf(x, bits)
  {
    BitsMod(x % Pow2(width), bits, bits);
    BitsMod(x, bits, width);
  }

  lemma RoomLeft(u: nat, n: nat, k: nat, v: nat, len: nat, outLen: nat)
    requires u < n && 8 * v + len == u * k + k && n * k <= 8 * outLen
    ensures 8 * v + len == (u + 1) * k && v + len / 8 <= outLen
  {
    assert (u + 1) * k == u * k + k;
    MulMono(u + 1, n, k);
  }

  // ---------------------------------------------------------------------
  // Reading
  // ---------------------------------------------------------------------

  /** After v bytes: u values are known, and the live bits of the accumulator follow them. */
  ghost predicate ReadState(b: seq<u8>, v: nat, x: seq<int>, k: nat, acc: u32, len: nat) {
    v <= |b| && BytesBits(b[..v]) == FixedBits(x, k) + BitsOf(acc, len)
  }

  lemma ReadStart(b: seq<u8>, k: nat)
    ensures ReadState(b, 0, [], k, 0, 0)
  {
  }

  lemma ReadByte(b: seq<u8>, v: nat, x: seq<int>, k: nat, acc: u32, len: nat)
    requires ReadState(b, v, x, k, acc, len) && v < |b| && len <= 24
    ensures ReadState(b, v + 1, x, k, W32(acc * 0x100 + b[v]), len + 8)
  {
    hide BytesBits, BitsOf, FixedBits, Pow2;
    BytesNext(b, v);
    PullByte(acc, len, b[v]);
  }

  /** The k bits above the lowest len - k form the next value. */
  lemma ReadValue(b: seq<u8>, v: nat, x: seq<int>, k: nat, acc: u32, len: nat, z: int)
    requires ReadState(b, v, x, k, acc, len) && len >= k
    requires BitsOf(z, k) == BitsOf(acc / Pow2(len - k), k)
    ensures ReadState(b, v, x + [z], k, acc, len - k)
  {
    hide BytesBits, BitsOf, Pow2;
    BitsSplit(acc, k, len - k);
    assert (x + [z])[..|x|] == x;
    assert FixedBits(x + [z], k) == FixedBits(x, k) + BitsOf(z, k);
  }

  /** The exact length of the input, once all values have been read. */
  lemma ReadLength(b: seq<u8>, v: nat, x: seq<int>, k: nat, acc: u32, len: nat)
    requires ReadState(b, v, x, k, acc, len)
    ensures 8 * v == |x| * k + len
  {
    hide BytesBits, BitsOf, FixedBits;
  }

  /** Which vectors the input could encode. */
  ghost predicate Decodable(b: seq<u8>, y: seq<int>, n: nat, k: nat, lo: int, hi: int) {
    |y| == n && Within(y, lo, hi) && PackedLength(n, k) <= |b| && Encodes(b[..PackedLength(n, k)], y, k)
  }

  ghost predicate Undecodable(b: seq<u8>, n: nat, k: nat, lo: int, hi: int) {
    forall y :: !Decodable(b, y, n, k, lo, hi)
  }

  /** What has been read is the beginning of every vector that the input could encode. */
  lemma ReadForced(b: seq<u8>, v: nat, x: seq<int>, n: nat, k: nat, acc: u32, len: nat, lo: int, hi: int, y: seq<int>)
    requires ReadState(b, v, x, k, acc, len) && Within(x, lo, hi) && hi - lo < Pow2(k) && |x| <= n && v <= PackedLength(n, k)
    requires Decodable(b, y, n, k, lo, hi)
    ensures y[..|x|] == x
  {
    hide BytesBits, BitsOf, Pow2, PackedLength;
    var m := PackedLength(n, k);
    assert b[..m] == b[..v] + b[v..m];
    BytesJoin(b[..v], b[v..m]);
    FixedPrefix(y, k, |x|);
    MulMono(|x|, n, k);
    var s := BytesBits(b[..m]);
    assert s[..|x| * k] == FixedBits(x, k);
    assert s[..|x| * k] == FixedBits(y[..|x|], k);
    FixedUnique(x, y[..|x|], lo, hi, k);
  }

  lemma {:induction false} FixedPrefix(y: seq<int>, k: nat, u: nat)
    requires u <= |y|
    ensures u * k <= |y| * k && FixedBits(y, k)[..u * k] == FixedBits(y[..u], k)
  {
    MulMono(u, |y|, k);
    if u < |y| {
      var n := |y| - 1;
      MulMono(u, n, k);
      FixedPrefix(y[..n], k, u);
      assert y[..n][..u] == y[..u];
      assert FixedBits(y, k) == FixedBits(y[..n], k) + BitsOf(y[n], k);
    } else {
      assert y[..u] == y;
    }
  }

  /** A next value out of range rules out every vector. */
  lemma ReadRejects(b: seq<u8>, v: nat, x: seq<int>, n: nat, k: nat, acc: u32, len: nat, lo: int, hi: int, z: int)
    requires ReadState(b, v, x, k, acc, len) && Within(x, lo, hi) && hi - lo < Pow2(k) && |x| < n && v <= PackedLength(n, k)
    requires len >= k && BitsOf(z, k) == BitsOf(acc / Pow2(len - k), k)
    requires forall w :: lo <= w <= hi ==> BitsOf(w, k) != BitsOf(z, k)
    ensures Undecodable(b, n, k, lo, hi)
  {
    hide BytesBits, BitsOf, Pow2, PackedLength, FixedBits;
    forall y | Decodable(b, y, n, k, lo, hi)
      ensures false
    {
      ReadForced(b, v, x, n, k, acc, len, lo, hi, y);
      assert lo <= y[|x|] <= hi;
      NextBits(b, v, x, n, k, acc, len, z, y);
      assert false;
    }
  }

  lemma NextBits(b: seq<u8>, v: nat, x: seq<int>, n: nat, k: nat, acc: u32, len: nat, z: int, y: seq<int>)
    requires ReadState(b, v, x, k, acc, len) && |x| < n && v <= PackedLength(n, k) && len >= k
    requires BitsOf(z, k) == BitsOf(acc / Pow2(len - k), k)
    requires |y| == n && PackedLength(n, k) <= |b| && Encodes(b[..PackedLength(n, k)], y, k) && y[..|x|] == x
    ensures BitsOf(y[|x|], k) == BitsOf(z, k)
  {
    hide BytesBits, BitsOf, Pow2, PackedLength, FixedBits;
    var m, u := PackedLength(n, k), |x|;
    ReadValue(b, v, x, k, acc, len, z);
    FixedNext(x + [z], k, u);
    assert (x + [z])[..u] == x && (x + [z])[..u + 1] == x + [z];
    FixedNext(y, k, u);
    FixedPrefix(y, k, u + 1);
    assert b[..m] == b[..v] + b[v..m];
    BytesJoin(b[..v], b[v..m]);
    var s := BytesBits(b[..m]);
    assert (u + 1) * k == u * k + k;
    MulMono(u + 1, n, k);
    assert s[..(u + 1) * k] == FixedBits(x, k) + BitsOf(z, k);
    assert s[..(u + 1) * k] == FixedBits(x, k) + BitsOf(y[u], k);
    assert s[..(u + 1) * k][u * k..] == BitsOf(z, k);
    assert s[..(u + 1) * k][u * k..] == BitsOf(y[u], k);
  }

  /** At the end: the input encodes x exactly when the leftover bits are zero. */
  lemma ReadEnd(b: seq<u8>, x: seq<int>, n: nat, k: nat, acc: u32, len: nat, lo: int, hi: int)
    requires |x| == n && ReadState(b, PackedLength(n, k), x, k, acc, len) && Within(x, lo, hi) && hi - lo < Pow2(k)
    ensures acc % Pow2(len) == 0 ==> Decodable(b, x, n, k, lo, hi)
    ensures acc % Pow2(len) != 0 ==> Undecodable(b, n, k, lo, hi)
  {
    hide BytesBits, BitsOf, Pow2, FixedBits;
    ZeroBits(acc, len);
    if acc % Pow2(len) != 0 {
      var m := PackedLength(n, k);
      forall y | Decodable(b, y, n, k, lo, hi)
        ensures false
      {
        ReadForced(b, m, x, n, k, acc, len, lo, hi, y);
        assert y[..|x|] == y;
        LeftoverZero(b, x, n, k, acc, len);
      }
    }
  }

  lemma LeftoverZero(b: seq<u8>, x: seq<int>, n: nat, k: nat, acc: u32, len: nat)
    requires |x| == n && ReadState(b, PackedLength(n, k), x, k, acc, len) && Encodes(b[..PackedLength(n, k)], x, k)
    ensures BitsOf(acc, len) == Zeros(len)
  {
    hide BytesBits, BitsOf, Pow2, FixedBits;
    var s := BytesBits(b[..PackedLength(n, k)]);
    assert s[n * k..] == BitsOf(acc, len);
    assert s[n * k..] == Zeros(len);
  }

  /** A packed input of too few bytes encodes nothing. */
  lemma TooShort(b: seq<u8>, n: nat, k: nat, lo: int, hi: int)
    requires PackedLength(n, k) > |b|
    ensures Undecodable(b, n, k, lo, hi)
  {
  }

  lemma ReadBudget(u: nat, n: nat, k: nat, v: nat, len: nat)
    requires u < n && len < k && 8 * v == u * k + len
    ensures v < PackedLength(n, k) && 8 * v < n * k
  {
    MulMono(u + 1, n, k);
    assert (u + 1) * k == u * k + k;
  }

  lemma PositiveLength(n: nat, k: nat)
    requires n > 0 && k > 0
    ensures PackedLength(n, k) > 0
  {
    MulPos(n, k);
  }

  lemma LengthIs(n: nat, k: nat, v: nat, len: nat)
    requires 8 * v == n * k + len && len < 8
    ensures v == PackedLength(n, k)
  {
  }

  /** (acc >> len) & mask, for a mask of k bits. */
  function Field(acc: u32, len: nat, k: nat): (w: nat)
    requires k <= 16
    ensures w < Pow2(k) && w < B32
  {
    WidthFits(k);
    (acc / Pow2(len)) % Pow2(k)
  }

  lemma FieldValue(acc: u32, len: nat, k: nat)
    requires k <= 16
    ensures BitsOf(Field(acc, len, k), k) == BitsOf(acc / Pow2(len), k)
  {
    BitsMod(acc / Pow2(len), k, k);
  }

  lemma OutOfRange(z: int, k: nat, lo: int, hi: int)
    requires (z < lo && hi - z < Pow2(k)) || (z > hi && z - lo < Pow2(k))
    ensures forall w :: lo <= w <= hi ==> BitsOf(w, k) != BitsOf(z, k)
  {
    forall w | lo <= w <= hi
      ensures BitsOf(w, k) != BitsOf(z, k)
    {
      if BitsOf(w, k) == BitsOf(z, k) {
        ValueUnique(w, z, if z < lo then z else lo, if z > hi then z else hi, k);
        assert false;
      }
    }
  }

  /**
   * modq_decode: accepts exactly the inputs that encode some vector of values below q, and
   * then returns that vector.
   */
  method ModqDecode(x: array<u16>, logn: nat, b: seq<u8>) returns (r: nat)
    requires x.Length == Pow2(logn)
    modifies x
    ensures r != 0 ==> r == PackedLength(x.Length, 14) && Decodable(b, x[..], x.Length, 14, 0, Q - 1)
    ensures r == 0 ==> Undecodable(b, x.Length, 14, 0, Q - 1)
  {
    hide ReadState, FixedBits, BytesBits, BitsOf, Decodable, Undecodable, Encodes, Pow2, PackedLength;
    var n := Pow2(logn);
    Pow2Small();
    var inLen := PackedLength(n, 14);
    assert inLen > 0 by { PositiveLength(n, 14); }
    if inLen > |b| {
      TooShort(b, n, 14, 0, Q - 1);
      return 0;
    }
    var acc: u32, accLen: nat, u: nat, v: nat := 0, 0, 0, 0;
    assert x[..0] == [];
    ReadStart(b, 14);
    while u < n
      invariant u <= n && v <= inLen && accLen < 14 && 8 * v < n * 14 + 8
      invariant ReadState(b, v, x[..u], 14, acc, accLen) && Within(x[..u], 0, Q - 1)
      decreases inLen - v
    {
      ReadLength(b, v, x[..u], 14, acc, accLen);
      ReadBudget(u, n, 14, v, accLen);
      ReadByte(b, v, x[..u], 14, acc, accLen);
      acc := W32(acc * 0x100 + b[v]);
      v := v + 1;
      accLen := accLen + 8;
      if accLen >= 14 {
        accLen := accLen - 14;
        FieldValue(acc, accLen, 14);
        var w := Field(acc, accLen, 14);
        if w >= 12289 {
          OutOfRange(w, 14, 0, Q - 1);
          ReadRejects(b, v, x[..u], n, 14, acc, accLen + 14, 0, Q - 1, w);
          return 0;
        }
        ReadValue(b, v, x[..u], 14, acc, accLen + 14, w);
        ghost var prev: seq<int> := x[..u];
        x[u] := w;
        assert x[..u + 1] == prev + [w];
        u := u + 1;
      }
    }
    assert x[..n] == x[..];
    ReadLength(b, v, x[..], 14, acc, accLen);
    LengthIs(n, 14, v, accLen);
    ReadEnd(b, x[..], n, 14, acc, accLen, 0, Q - 1);
    if acc % Pow2(accLen) != 0 {
      return 0;
    }
    return inLen;
  }

  /** w |= -(w & mask2): the k-bit value w as a signed 32-bit word. */
  function SignExtended(w: u32, bits: nat): u32
    requires 1 <= bits
  {
    if (w / Pow2(bits - 1)) % 2 == 1 then W32(w - Pow2(bits)) else w
  }

  lemma SignedBits(w: u32, bits: nat)
    requires 1 <= bits
    ensures BitsOf(w - Pow2(bits), bits) == BitsOf(w, bits)
  {
    hide BitsOf;
    LowBitsOnly(-1, w, bits);
    assert -1 * Pow2(bits) + w == w - Pow2(bits);
  }

  lemma SignWord(w: u32, h: nat)
    requires 1 <= h <= 0x8000 && w < 2 * h
    ensures var e := if (w / h) % 2 == 1 then W32(w - 2 * h) else w;
      S32(e) == (if w >= h then w - 2 * h else w) && (e == W32(0 - h) <==> S32(e) == 0 - h)
  {
    UniqueQuotient(w, h, if w >= h then 1 else 0, if w >= h then w - h else w);
  }

  lemma SignedValue(w: u32, bits: nat)
    requires 1 <= bits <= 16 && w < Pow2(bits)
    ensures Pow2(bits) == 2 * Pow2(bits - 1) <= 0x1_0000
    ensures var z := S32(SignExtended(w, bits));
      0 - Pow2(bits - 1) <= z < Pow2(bits - 1) && BitsOf(z, bits) == BitsOf(w, bits) &&
      (SignExtended(w, bits) == W32(0 - Pow2(bits - 1)) <==> z == 0 - Pow2(bits - 1))
  {
    hide BitsOf, W32, S32;
    var h := Pow2(bits - 1);
    assert Pow2(bits) == 2 * h;
    WidthFits(bits);
    SignWord(w, h);
    SignedBits(w, bits);
  }

  lemma WidthFits(bits: nat)
    requires bits <= 16
    ensures Pow2(bits) <= 0x1_0000
  {
    hide Pow2;
    Pow2Small();
    Pow2Add(bits, 16 - bits);
    MulMono(1, Pow2(16 - bits), Pow2(bits));
  }

  /**
   * trim_i16_decode and trim_i8_decode: accept exactly the inputs that encode some vector of
   * values v with |v| < 2^(bits-1), and then return that vector.
   */
  method TrimDecode(x: array<int>, logn: nat, bits: nat, b: seq<u8>) returns (r: nat)
    requires x.Length == Pow2(logn) && 1 <= bits <= 16
    modifies x
    ensures r != 0 ==> r == PackedLength(x.Length, bits)
    ensures r != 0 ==> Decodable(b, x[..], x.Length, bits, 1 - Pow2(bits - 1), Pow2(bits - 1) - 1)
    ensures r == 0 ==> Undecodable(b, x.Length, bits, 1 - Pow2(bits - 1), Pow2(bits - 1) - 1)
  {
    hide ReadState, FixedBits, BytesBits, BitsOf, Decodable, Undecodable, Encodes, Pow2, PackedLength, SignExtended;
    var n := Pow2(logn);
    var inLen := PackedLength(n, bits);
    ghost var lo, hi := 1 - Pow2(bits - 1), Pow2(bits - 1) - 1;
    SignedValue(0, bits);
    PositiveLength(n, bits);
    if inLen > |b| {
      TooShort(b, n, bits, lo, hi);
      return 0;
    }
    var acc: u32, accLen: nat, u: nat, v: nat := 0, 0, 0, 0;
    assert x[..0] == [];
    ReadStart(b, bits);
    while u < n
      invariant u <= n && v <= inLen && (accLen < bits || u == n) && 8 * v < n * bits + 8
      invariant ReadState(b, v, x[..u], bits, acc, accLen) && Within(x[..u], lo, hi)
      decreases inLen - v
    {
      ReadLength(b, v, x[..u], bits, acc, accLen);
      ReadBudget(u, n, bits, v, accLen);
      ReadByte(b, v, x[..u], bits, acc, accLen);
      acc := W32(acc * 0x100 + b[v]);
      v := v + 1;
      accLen := accLen + 8;
      while accLen >= bits && u < n
        invariant u <= n
        invariant ReadState(b, v, x[..u], bits, acc, accLen) && Within(x[..u], lo, hi)
        decreases n - u
      {
        accLen := accLen - bits;
        FieldValue(acc, accLen, bits);
        var w: u32 := Field(acc, accLen, bits);
        SignedValue(w, bits);
        w := SignExtended(w, bits);
        if w == W32(0 - Pow2(bits - 1)) {
          OutOfRange(S32(w), bits, lo, hi);
          ReadRejects(b, v, x[..u], n, bits, acc, accLen + bits, lo, hi, S32(w));
          return 0;
        }
        ReadValue(b, v, x[..u], bits, acc, accLen + bits, S32(w));
        ghost var prev := x[..u];
        x[u] := S32(w);
        assert x[..u + 1] == prev + [S32(w)];
        u := u + 1;
      }
    }
    assert x[..n] == x[..];
    ReadLength(b, v, x[..], bits, acc, accLen);
    LengthIs(n, bits, v, accLen);
    ReadEnd(b, x[..], n, bits, acc, accLen, lo, hi);
    if acc % Pow2(accLen) != 0 {
      return 0;
    }
    return inLen;
  }
}
