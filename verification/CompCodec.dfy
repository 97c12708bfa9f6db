/** The compressed signature format: comp_encode and comp_decode of codec.c. */
module CompCodec {
  import opened Words
  import opened Bits

  const LIMIT: nat := 2047

  // ---------------------------------------------------------------------
  // The format
  // ---------------------------------------------------------------------

  function AbsValue(z: int): (t: nat) {
    if z < 0 then 0 - z else z
  }

  /** w zeros and a one. */
  ghost function UnaryBits(w: nat): (s: seq<bit>)
    ensures |s| == w + 1
  {
    Zeros(w) + [1]
  }

  /** A sign bit, the seven low bits of the absolute value, and the high bits in unary. */
  ghost function ValueBits(z: int): (s: seq<bit>)
    ensures |s| == 9 + AbsValue(z) / 128
  {
    [if z < 0 then 1 else 0] + BitsOf(AbsValue(z) % 128, 7) + UnaryBits(AbsValue(z) / 128)
  }

  ghost function CompBits(x: seq<int>): seq<bit> {
    if |x| == 0 then [] else CompBits(x[..|x| - 1]) + ValueBits(x[|x| - 1])
  }

  predicate InRange(x: seq<int>) {
    forall i :: 0 <= i < |x| ==> 0 - LIMIT <= x[i] <= LIMIT
  }

  /** b is the encoding of x. */
  ghost predicate Encodes(b: seq<u8>, x: seq<int>) {
    Packs(b, CompBits(x))
  }

  lemma CompNext(x: seq<int>, u: nat)
    requires u < |x|
    ensures CompBits(x[..u + 1]) == CompBits(x[..u]) + ValueBits(x[u])
  {
    assert x[..u + 1][..u] == x[..u];
  }

  lemma {:induction false} CompFront(x: seq<int>)
    requires |x| > 0
    ensures CompBits(x) == ValueBits(x[0]) + CompBits(x[1..])
  {
    hide ValueBits;
    if |x| == 1 {
      assert CompBits(x[..0]) == [] && CompBits(x[1..]) == [];
    } else {
      var n := |x| - 1;
      CompFront(x[..n]);
      assert x[..n][1..] == x[1..][..n - 1];
      assert CompBits(x[1..]) == CompBits(x[1..][..n - 1]) + ValueBits(x[n]);
    }
  }

  // ---------------------------------------------------------------------
  // Parsing
  // ---------------------------------------------------------------------

  datatype Parsed<T> = Rejected | Accepted(value: T, rest: seq<bit>)

  /** Zeros add 128 each, up to 2047; a one ends. */
  ghost function ParseUnary(m: nat, s: seq<bit>): Parsed<nat>
    decreases |s|
  {
    if |s| == 0 then Rejected
    else if s[0] == 1 then Accepted(m, s[1..])
    else if m + 128 > LIMIT then Rejected
    else ParseUnary(m + 128, s[1..])
  }

  ghost function ParseValue(s: seq<bit>): Parsed<int> {
    if |s| < 8 then Rejected else
    var p := ParseUnary(NumberOf(s[1..8]), s[8..]);
    if p.Rejected? || (s[0] == 1 && p.value == 0) then Rejected
    else Accepted(if s[0] == 1 then 0 - p.value else p.value, p.rest)
  }

  ghost function ParseAll(s: seq<bit>, n: nat): Parsed<seq<int>>
    decreases n
  {
    if n == 0 then Accepted([], s) else
    var p := ParseValue(s);
    if p.Rejected? then Rejected else Prepend([p.value], ParseAll(p.rest, n - 1))
  }

  ghost function Prepend(x: seq<int>, p: Parsed<seq<int>>): Parsed<seq<int>> {
    if p.Rejected? then Rejected else Accepted(x + p.value, p.rest)
  }

  /** The number that a bit string denotes. */
  ghost function NumberOf(s: seq<bit>): (v: nat)
  {
    if |s| == 0 then 0 else 2 * NumberOf(s[..|s| - 1]) + s[|s| - 1]
  }

  lemma {:induction false} NumberBits(s: seq<bit>)
    ensures NumberOf(s) < Pow2(|s|) && BitsOf(NumberOf(s), |s|) == s
  {
    if |s| > 0 {
      NumberBits(s[..|s| - 1]);
    }
  }

  lemma {:induction false} BitsNumber(w: int, k: nat)
    ensures NumberOf(BitsOf(w, k)) == w % Pow2(k)
  {
    NumberBits(BitsOf(w, k));
    BitsMod(w, k, k);
    BitsInjective(NumberOf(BitsOf(w, k)), w % Pow2(k), k);
  }

  // ---------------------------------------------------------------------
  // Parsing inverts the format, and accepts nothing else
  // ---------------------------------------------------------------------

  lemma {:induction false} UnaryParses(m: nat, w: nat, t: seq<bit>)
    requires m + 128 * w <= LIMIT
    ensures ParseUnary(m, UnaryBits(w) + t) == Accepted(m + 128 * w, t)
    decreases w
  {
    var s := UnaryBits(w) + t;
    if w == 0 {
      assert s[1..] == t;
    } else {
      assert s[0] == 0 && s[1..] == UnaryBits(w - 1) + t;
      UnaryParses(m + 128, w - 1, t);
    }
  }

  lemma {:induction false} UnaryShape(m: nat, s: seq<bit>)
    requires ParseUnary(m, s).Accepted? && m <= LIMIT
    ensures var p := ParseUnary(m, s);
      m <= p.value <= LIMIT && (p.value - m) % 128 == 0 && s == UnaryBits((p.value - m) / 128) + p.rest
    decreases |s|
  {
    hide UnaryBits;
    var p := ParseUnary(m, s);
    if s[0] == 1 {
      OneIsUnary(s);
    } else {
      UnaryShape(m + 128, s[1..]);
      OneMoreZero(s, (p.value - m) / 128, p.rest);
    }
  }

  lemma OneIsUnary(s: seq<bit>)
    requires |s| > 0 && s[0] == 1
    ensures s == UnaryBits(0) + s[1..]
  {
  }

  lemma OneMoreZero(s: seq<bit>, w: nat, rest: seq<bit>)
    requires |s| > 0 && s[0] == 0 && w > 0 && s[1..] == UnaryBits(w - 1) + rest
    ensures s == UnaryBits(w) + rest
  {
    assert UnaryBits(w) == [0] + UnaryBits(w - 1);
    assert s == [0] + s[1..];
  }

  lemma ValueParses(z: int, t: seq<bit>)
    requires 0 - LIMIT <= z <= LIMIT
    ensures ParseValue(ValueBits(z) + t) == Accepted(z, t)
  {
    hide ParseUnary, BitsOf, NumberOf, UnaryBits, Pow2;
    var a := AbsValue(z);
    var s := ValueBits(z) + t;
    assert s[1..8] == BitsOf(a % 128, 7);
    BitsNumber(a % 128, 7);
    Pow2Small();
    assert s[8..] == UnaryBits(a / 128) + t;
    UnaryParses(a % 128, a / 128, t);
  }

  lemma ValueShape(s: seq<bit>)
    requires ParseValue(s).Accepted?
    ensures var p := ParseValue(s); 0 - LIMIT <= p.value <= LIMIT && s == ValueBits(p.value) + p.rest
  {
    hide ParseUnary, BitsOf, NumberOf, UnaryBits, Pow2;
    var l := NumberOf(s[1..8]);
    NumberBits(s[1..8]);
    Pow2Small();
    UnaryShape(l, s[8..]);
    var p := ParseValue(s);
    var m := AbsValue(p.value);
    var w := (m - l) / 128;
    assert m % 128 == l && m / 128 == w;
    assert s == [s[0]] + s[1..8] + s[8..];
  }

  /** Decoding the encoding of x gives x back, whatever follows. */
  lemma {:induction false} CompParses(x: seq<int>, t: seq<bit>)
    requires InRange(x)
    ensures ParseAll(CompBits(x) + t, |x|) == Accepted(x, t)
  {
    hide ParseValue, ValueBits;
    if |x| == 0 {
      assert CompBits(x) + t == t;
    } else {
      CompFront(x);
      var r := CompBits(x[1..]) + t;
      assert CompBits(x) + t == ValueBits(x[0]) + r;
      ValueParses(x[0], r);
      CompParses(x[1..], t);
      assert [x[0]] + x[1..] == x;
    }
  }

  /** What decodes to x is the encoding of x: no other bit string stands for x. */
  lemma {:induction false} CompShape(s: seq<bit>, n: nat)
    requires ParseAll(s, n).Accepted?
    ensures var p := ParseAll(s, n); |p.value| == n && InRange(p.value) && s == CompBits(p.value) + p.rest
    decreases n
  {
    hide ParseValue, ValueBits;
    if n > 0 {
      ValueShape(s);
      var v := ParseValue(s);
      CompShape(v.rest, n - 1);
      var y := ParseAll(v.rest, n - 1).value;
      var x := ParseAll(s, n).value;
      assert x == [v.value] + y && x[1..] == y;
      CompFront(x);
    }
  }

  // ---------------------------------------------------------------------
  // comp_encode
  // ---------------------------------------------------------------------

  /** The number of bytes of an encoding. */
  ghost function CompLength(x: seq<int>): (len: nat)
    ensures |CompBits(x)| <= 8 * len < |CompBits(x)| + 8
  {
    (|CompBits(x)| + 7) / 8
  }

  lemma {:induction false} CompBitsGrow(x: seq<int>, u: nat)
    requires u <= |x|
    ensures |CompBits(x[..u])| <= |CompBits(x)|
  {
    if u < |x| {
      CompBitsGrow(x[..|x| - 1], u);
      assert x[..|x| - 1][..u] == x[..u];
    } else {
      assert x[..u] == x;
    }
  }

  /** What has been written, when there is a buffer, and what is still in the accumulator. */
  ghost predicate Written(out: array?<u8>, maxOut: nat, v: nat, acc: u32, len: nat, s: seq<bit>)
    reads if out == null then {} else {out}
  {
    8 * v + len == |s| &&
    (out != null ==> v <= maxOut <= out.Length && BytesBits(out[..v]) + BitsOf(acc, len) == s)
  }

  /** The inner loop: full bytes are produced; false when the buffer is full. */
  method ProduceBytes(out: array?<u8>, maxOut: nat, v0: nat, acc: u32, len0: nat, ghost s: seq<bit>)
    returns (ok: bool, v: nat, len: nat)
    requires len0 <= 31 && Written(out, maxOut, v0, acc, len0, s)
    modifies if out == null then {} else {out}
    ensures ok ==> len < 8 && Written(out, maxOut, v, acc, len, s)
    ensures !ok ==> out != null && 8 * maxOut + 8 <= |s|
    ensures out != null ==> v0 <= v <= out.Length && out[v..] == old(out[v..])
  {
    hide BytesBits, BitsOf, TopByte;
    ok, v, len := true, v0, len0;
    while len >= 8
      invariant len <= 31 && v0 <= v && Written(out, maxOut, v, acc, len, s)
      invariant out != null ==> out[v..] == old(out[v..])
      decreases len
    {
      PopByte(acc, len);
      if out != null {
        if v >= maxOut {
          ok := false;
          return;
        }
        ghost var before := out[..v];
        out[v] := TopByte(acc, len);
        assert out[..v + 1][..v] == before && out[..v + 1][..v + 1] == out[..v + 1];
        BytesNext(out[..v + 1], v);
      }
      len := len - 8;
      v := v + 1;
    }
  }

  /** The eight fixed bits and the unary part of one value enter the accumulator. */
  method PushValue(acc0: u32, len0: nat, z: int) returns (acc: u32, len: nat)
    requires len0 < 8 && 0 - LIMIT <= z <= LIMIT
    ensures len == len0 + |ValueBits(z)| && len <= 31
    ensures BitsOf(acc, len) == BitsOf(acc0, len0) + ValueBits(z)
  {
    hide BitsOf, Pow2, W32, Zeros;
    Pow2Small();
    OneBit();
    acc := W32(acc0 * 2);
    var t := z;
    if t < 0 {
      t := 0 - t;
      acc := W32(acc0 * 2 + 1);
    }
    PushBits(acc0, len0, if z < 0 then 1 else 0, 1);
    ghost var a1 := acc;
    var w := t;
    acc := W32(acc * Pow2(7) + w % 128);
    PushBits(a1, len0 + 1, w % 128, 7);
    w := w / 128;
    ghost var a2 := acc;
    acc := W32(acc * Pow2(w + 1) + 1);
    UnaryIsOne(w);
    PushBits(a2, len0 + 8, 1, w + 1);
    len := len0 + 8 + (w + 1);
    PiecesJoin(BitsOf(acc0, len0), z);
  }

  lemma OneBit()
    ensures Pow2(1) == 2 && BitsOf(0, 1) == [0] && BitsOf(1, 1) == [1]
  {
    assert BitsOf(0, 1) == BitsOf(0, 0) + [0];
    assert BitsOf(1, 1) == BitsOf(0, 0) + [1];
  }

  lemma UnaryIsOne(w: nat)
    ensures 1 < Pow2(w + 1) && BitsOf(1, w + 1) == UnaryBits(w)
  {
    ZeroHasZeros(w);
    assert BitsOf(1, w + 1) == BitsOf(0, w) + [1];
  }

  lemma PiecesJoin(p: seq<bit>, z: int)
    ensures p + [if z < 0 then 1 else 0] + BitsOf(AbsValue(z) % 128, 7) + UnaryBits(AbsValue(z) / 128) == p + ValueBits(z)
  {
  }

  /**
   * comp_encode; `out` is null when only the length is wanted. Fails exactly when a value is
   * outside -2047..2047 or the encoding does not fit.
   */
  method CompEncode(out: array?<u8>, maxOut: nat, x: seq<int>, logn: nat) returns (r: nat)
    requires |x| == Pow2(logn) && (out != null ==> maxOut <= out.Length)
    modifies if out == null then {} else {out}
    ensures r == 0 <==> !InRange(x) || (out != null && CompLength(x) > maxOut)
    ensures r != 0 ==> r == CompLength(x)
    ensures r != 0 && out != null ==> Encodes(out[..r], x) && out[r..] == old(out[r..])
  {
    hide CompBits, ValueBits, BytesBits, BitsOf, Pow2, LastByte;
    var n := Pow2(logn);
    for u := 0 to n
      invariant InRange(x[..u])
    {
      if x[u] < -2047 || x[u] > 2047 {
        return 0;
      }
      assert x[..u + 1] == x[..u] + [x[u]];
    }
    assert x[..n] == x;
    var acc: u32, len: nat, v: nat := 0, 0, 0;
    NothingYet(x, if out == null then [] else out[..0]);
    for u := 0 to n
      invariant len < 8 && Written(out, maxOut, v, acc, len, CompBits(x[..u]))
      invariant out != null ==> out[v..] == old(out[v..])
    {
      ghost var a0, l0 := acc, len;
      acc, len := PushValue(acc, len, x[u]);
      CompNext(x, u);
      ghost var h := if out == null then [] else out[..];
      var ok;
      ghost var v0 := v;
      ok, v, len := ProduceBytes(out, maxOut, v, acc, len, CompBits(x[..u + 1]));
      if !ok {
        CompBitsGrow(x, u + 1);
        return 0;
      }
      if out != null {
        assert out[v..] == h[v..] == h[v0..][v - v0..] == old(out[v0..])[v - v0..];
      }
    }
    assert x[..n] == x;
    SomeBits(x);
    if len > 0 {
      if out != null {
        if v >= maxOut {
          return 0;
        }
        PadByte(acc, len);
        ghost var before := out[..v];
        ghost var h := out[..];
        out[v] := LastByte(acc, len);
        assert out[..v + 1][..v] == before && out[..v + 1][..v + 1] == out[..v + 1];
        BytesNext(out[..v + 1], v);
        assert BytesBits(out[..v + 1]) == CompBits(x) + Zeros(8 - len);
        assert out[v + 1..] == h[v + 1..] == h[v..][1..];
      }
      v := v + 1;
    } else if out != null {
      assert BytesBits(out[..v]) == CompBits(x) + Zeros(0);
    }
    return v;
  }

  lemma NothingYet(x: seq<int>, b: seq<u8>)
    requires |b| == 0
    ensures |CompBits(x[..0])| == 0 && BytesBits(b) + BitsOf(0, 0) == CompBits(x[..0])
  {
  }

  lemma SomeBits(x: seq<int>)
    requires |x| > 0
    ensures |CompBits(x)| > 0
  {
  }

  // ---------------------------------------------------------------------
  // comp_decode
  // ---------------------------------------------------------------------

  /** What is still to be parsed: the live bits of the accumulator and the unread bytes. */
  ghost function Remaining(b: seq<u8>, v: nat, acc: u32, len: nat): (s: seq<bit>)
    requires v <= |b|
    ensures |s| == len + 8 * (|b| - v)
  {
    BitsOf(acc, len) + BytesBits(b[v..])
  }

  lemma RemainingPull(b: seq<u8>, v: nat, acc: u32, len: nat)
    requires v < |b| && len <= 24
    ensures Remaining(b, v + 1, W32(acc * 0x100 + b[v]), len + 8) == Remaining(b, v, acc, len)
  {
    hide BitsOf, BytesBits, W32;
    BytesNext(b, v);
    PullByte(acc, len, b[v]);
  }

  /** (acc >> (len - 1)) & 1 is the next bit. */
  lemma RemainingBit(b: seq<u8>, v: nat, acc: u32, len: nat)
    requires v <= |b| && len > 0
    ensures Remaining(b, v, acc, len) == [(acc / Pow2(len - 1)) % 2] + Remaining(b, v, acc, len - 1)
  {
    hide BytesBits, Pow2;
    BitsSplit(acc, 1, len - 1);
    assert BitsOf(acc / Pow2(len - 1), 1) == BitsOf((acc / Pow2(len - 1)) / 2, 0) + [(acc / Pow2(len - 1)) % 2];
  }

  /** The sign and the low bits: bits 7 and 0 to 6 of acc >> len. */
  lemma RemainingByte(b: seq<u8>, v: nat, acc: u32, len: nat)
    requires v <= |b|
    ensures var s := Remaining(b, v, acc, len + 8); var h := acc / Pow2(len);
      s[0] == (h / 128) % 2 && NumberOf(s[1..8]) == h % 128 && s[8..] == Remaining(b, v, acc, len)
  {
    hide BytesBits, BitsOf, Pow2, NumberOf;
    var s, h := Remaining(b, v, acc, len + 8), acc / Pow2(len);
    BitsSplit(acc, 8, len);
    BitsSplit(h, 1, 7);
    Pow2Small();
    TopBit(h / 128);
    BitsNumber(h, 7);
    assert s[1..8] == BitsOf(h, 7);
  }

  lemma TopBit(w: int)
    ensures BitsOf(w, 1) == [w % 2]
  {
    assert BitsOf(w, 1) == BitsOf(w / 2, 0) + [w % 2];
  }

  /** The decoder's verdict on an input: the vector and the number of bytes it takes. */
  ghost predicate Decodes(b: seq<u8>, n: nat, x: seq<int>, r: nat) {
    |x| == n && InRange(x) && r <= |b| && Encodes(b[..r], x)
  }

  ghost predicate Undecodable(b: seq<u8>, n: nat) {
    forall y, r :: !Decodes(b, n, y, r)
  }

  /** The unary loop; `m` starts with the seven low bits. */
  method ReadUnary(b: seq<u8>, v0: nat, acc0: u32, len0: nat, m0: nat) returns (ok: bool, v: nat, acc: u32, len: nat, m: nat)
    requires v0 <= |b| && len0 <= 8 && m0 <= 127
    ensures !ok ==> ParseUnary(m0, Remaining(b, v0, acc0, len0)) == Rejected
    ensures ok ==> v0 <= v <= |b| && len < 8 && m <= LIMIT
    ensures ok ==> ParseUnary(m0, Remaining(b, v0, acc0, len0)) == Accepted(m, Remaining(b, v, acc, len))
  {
    hide Remaining, Pow2;
    ok, v, acc, len, m := true, v0, acc0, len0, m0;
    while true
      invariant v0 <= v <= |b| && len <= 8 && m <= LIMIT
      invariant ParseUnary(m0, Remaining(b, v0, acc0, len0)) == ParseUnary(m, Remaining(b, v, acc, len))
      decreases 8 * (|b| - v) + len
    {
      if len == 0 {
        if v >= |b| {
          ok := false;
          return;
        }
        RemainingPull(b, v, acc, len);
        acc := W32(acc * 0x100 + b[v]);
        v := v + 1;
        len := 8;
      }
      RemainingBit(b, v, acc, len);
      UnaryStep(m, (acc / Pow2(len - 1)) % 2, Remaining(b, v, acc, len - 1));
      len := len - 1;
      if (acc / Pow2(len)) % 2 != 0 {
        break;
      }
      m := m + 128;
      if m > 2047 {
        ok := false;
        return;
      }
    }
  }

  lemma UnaryStep(m: nat, h: bit, t: seq<bit>)
    ensures ParseUnary(m, [h] + t) ==
      if h == 1 then Accepted(m, t) else if m + 128 > LIMIT then Rejected else ParseUnary(m + 128, t)
  {
    assert ([h] + t)[1..] == t;
  }

  /** After u values: parsing the whole input amounts to parsing what remains. */
  ghost predicate DecodeState(b: seq<u8>, n: nat, x: seq<int>, v: nat, acc: u32, len: nat) {
    v <= |b| && |x| <= n &&
    ParseAll(BytesBits(b), n) == Prepend(x, ParseAll(Remaining(b, v, acc, len), n - |x|))
  }

  lemma DecodeStart(b: seq<u8>, n: nat)
    ensures DecodeState(b, n, [], 0, 0, 0)
  {
    hide BytesBits, ParseAll;
    assert b[0..] == b;
    assert Remaining(b, 0, 0, 0) == BytesBits(b);
    var p := ParseAll(BytesBits(b), n);
    if p.Accepted? {
      assert [] + p.value == p.value;
    }
  }

  lemma DecodeNext(b: seq<u8>, n: nat, x: seq<int>, v: nat, acc: u32, len: nat)
    requires DecodeState(b, n, x, v, acc, len) && |x| < n
    ensures var p := ParseValue(Remaining(b, v, acc, len));
      ParseAll(BytesBits(b), n) == if p.Rejected? then Rejected else Prepend(x + [p.value], ParseAll(p.rest, n - |x| - 1))
  {
    hide BytesBits, ParseValue, Remaining;
    var p := ParseValue(Remaining(b, v, acc, len));
    if p.Accepted? {
      var q := ParseAll(p.rest, n - |x| - 1);
      if q.Accepted? {
        assert x + ([p.value] + q.value) == (x + [p.value]) + q.value;
      }
    }
  }

  lemma NoByte(s: seq<bit>)
    requires |s| < 8
    ensures ParseValue(s) == Rejected
  {
  }

  lemma ValueCases(s: seq<bit>, sign: bit, low: nat)
    requires |s| >= 8 && s[0] == sign && NumberOf(s[1..8]) == low
    ensures var p := ParseUnary(low, s[8..]);
      ParseValue(s) == if p.Rejected? || (sign == 1 && p.value == 0) then Rejected
                       else Accepted(if sign == 1 then 0 - p.value else p.value, p.rest)
  {
    hide ParseUnary, NumberOf;
  }

  /** One value: fewer than eight remaining bits, a bad unary part and "-0" are refused. */
  method ReadValue(b: seq<u8>, v0: nat, acc0: u32, len0: nat) returns (ok: bool, v: nat, acc: u32, len: nat, z: int)
    requires v0 <= |b| && len0 < 8
    ensures !ok ==> ParseValue(Remaining(b, v0, acc0, len0)) == Rejected
    ensures ok ==> v0 < v <= |b| && len < 8 && 0 - LIMIT <= z <= LIMIT
    ensures ok ==> ParseValue(Remaining(b, v0, acc0, len0)) == Accepted(z, Remaining(b, v, acc, len))
  {
    hide Remaining, Pow2, ParseUnary, NumberOf, ParseValue;
    ok, v, acc, len, z := false, v0, acc0, len0, 0;
    ghost var rest := Remaining(b, v, acc, len);
    if v >= |b| {
      NoByte(rest);
      return;
    }
    RemainingPull(b, v, acc, len);
    acc := W32(acc * 0x100 + b[v]);
    v := v + 1;
    RemainingByte(b, v, acc, len);
    var h := Quo(acc, Pow2(len));
    var s: bit, m: nat := (h / 128) % 2, h % 128;
    ValueCases(rest, s, m);
    ok, v, acc, len, m := ReadUnary(b, v, acc, len, m);
    if !ok {
      return;
    }
    if s != 0 && m == 0 {
      ok := false;
      return;
    }
    z := if s != 0 then 0 - m else m;
  }

  /**
   * comp_decode: accepts exactly the inputs that start with the encoding of some vector in
   * range, and returns that vector and the length of its encoding.
   */
  method CompDecode(x: array<int>, logn: nat, b: seq<u8>) returns (r: nat)
    requires x.Length == Pow2(logn)
    modifies x
    ensures r != 0 ==> Decodes(b, x.Length, x[..], r)
    ensures r == 0 ==> Undecodable(b, x.Length)
  {
    hide DecodeState, Decodes, Undecodable, Remaining, ParseValue, ParseAll, BytesBits, Pow2;
    var n := Pow2(logn);
    var acc: u32, len: nat, v: nat := 0, 0, 0;
    DecodeStart(b, n);
    assert x[..0] == [];
    for u := 0 to n
      invariant v <= |b| && len < 8 && (u > 0 ==> v > 0) && DecodeState(b, n, x[..u], v, acc, len)
    {
      DecodeNext(b, n, x[..u], v, acc, len);
      var ok, z;
      ok, v, acc, len, z := ReadValue(b, v, acc, len);
      if !ok {
        NothingDecodes(b, n);
        return 0;
      }
      ghost var prev := x[..u];
      x[u] := z;
      assert x[..u + 1] == prev + [z];
      DecodeStateIs(b, n, x[..u + 1], v, acc, len);
    }
    assert x[..n] == x[..];
    DecodeEnd(b, n, x[..], v, acc, len);
    if acc % Pow2(len) != 0 {
      return 0;
    }
    return v;
  }

  lemma DecodeStateIs(b: seq<u8>, n: nat, x: seq<int>, v: nat, acc: u32, len: nat)
    requires v <= |b| && |x| <= n
    requires ParseAll(BytesBits(b), n) == Prepend(x, ParseAll(Remaining(b, v, acc, len), n - |x|))
    ensures DecodeState(b, n, x, v, acc, len)
  {
  }

  /** Every decoding of b is what parsing finds. */
  lemma DecodesParses(b: seq<u8>, n: nat, y: seq<int>, r: nat)
    requires Decodes(b, n, y, r)
    ensures ParseAll(BytesBits(b), n) == Accepted(y, Zeros(8 * r - |CompBits(y)|) + BytesBits(b[r..])) && 8 * r - |CompBits(y)| < 8
  {
    hide BytesBits, CompBits, ParseAll;
    assert b == b[..r] + b[r..];
    BytesJoin(b[..r], b[r..]);
    var t := Zeros(8 * r - |CompBits(y)|) + BytesBits(b[r..]);
    assert BytesBits(b) == CompBits(y) + t;
    CompParses(y, t);
  }

  lemma NothingDecodes(b: seq<u8>, n: nat)
    requires ParseAll(BytesBits(b), n) == Rejected
    ensures Undecodable(b, n)
  {
    hide Decodes, ParseAll, BytesBits, CompBits;
    forall y, r: nat | Decodes(b, n, y, r)
      ensures false
    {
      DecodesParses(b, n, y, r);
    }
  }

  lemma DecodeEnd(b: seq<u8>, n: nat, x: seq<int>, v: nat, acc: u32, len: nat)
    requires DecodeState(b, n, x, v, acc, len) && |x| == n && len < 8
    ensures acc % Pow2(len) == 0 ==> Decodes(b, n, x, v)
    ensures acc % Pow2(len) != 0 ==> Undecodable(b, n)
  {
    hide BytesBits, CompBits, BitsOf, Pow2;
    assert x + [] == x;
    var s := BytesBits(b);
    assert ParseAll(s, n) == Accepted(x, Remaining(b, v, acc, len));
    CompShape(s, n);
    assert b == b[..v] + b[v..];
    BytesJoin(b[..v], b[v..]);
    assert BytesBits(b[..v]) == s[..8 * v] == CompBits(x) + BitsOf(acc, len);
    ZeroBits(acc, len);
    if acc % Pow2(len) == 0 {
      assert Packs(b[..v], CompBits(x));
    } else {
      forall y, r: nat | Decodes(b, n, y, r)
        ensures false
      {
        DecodesParses(b, n, y, r);
        LeftoverZero(b, v, r, acc, len, 8 * r - |CompBits(y)|);
      }
    }
  }

  lemma LeftoverZero(b: seq<u8>, v: nat, r: nat, acc: u32, len: nat, k: nat)
    requires v <= |b| && r <= |b| && len < 8 && k < 8
    requires BitsOf(acc, len) + BytesBits(b[v..]) == Zeros(k) + BytesBits(b[r..])
    ensures BitsOf(acc, len) == Zeros(len)
  {
    hide BytesBits, BitsOf;
    assert len + 8 * (|b| - v) == k + 8 * (|b| - r);
    assert len == k;
    assert (BitsOf(acc, len) + BytesBits(b[v..]))[..len] == BitsOf(acc, len);
    assert (Zeros(k) + BytesBits(b[r..]))[..len] == Zeros(len);
  }

  /** Decoding is a function of the input, and undoes encoding. */
  lemma RoundTrip(c: seq<u8>, tail: seq<u8>, x: seq<int>)
    requires InRange(x) && Encodes(c, x)
    ensures Decodes(c + tail, |x|, x, |c|)
    ensures forall y, r :: Decodes(c + tail, |x|, y, r) ==> y == x && r == |c|
  {
    hide BytesBits, CompBits, ParseAll;
    assert (c + tail)[..|c|] == c;
    DecodesParses(c + tail, |x|, x, |c|);
    forall y, r | Decodes(c + tail, |x|, y, r)
      ensures y == x && r == |c|
    {
      DecodesParses(c + tail, |x|, y, r);
    }
  }

  /** Re-encoding what was decoded gives back exactly the bytes that were consumed. */
  lemma Canonical(b: seq<u8>, n: nat, x: seq<int>, r: nat, c: seq<u8>)
    requires Decodes(b, n, x, r) && Encodes(c, x)
    ensures c == b[..r] && |c| == CompLength(x) == r
  {
    hide BytesBits, CompBits;
    PacksUnique(b[..r], c, CompBits(x));
  }
}
