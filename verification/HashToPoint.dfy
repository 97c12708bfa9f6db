/**
 * hash_to_point_vartime and hash_to_point_ct of common.c: rejection sampling in a loop, and
 * the same values squeezed to the front of an oversampled buffer by log-many passes.
 */
module HashToPoint {
  import opened Words
  import Bits

  const Q: nat := 12289
  const LIMIT: nat := 61445
  const INVALID: u16 := 0xFFFF

  /** overtab: how many samples beyond n are drawn. */
  function Over(logn: nat): nat
    requires 1 <= logn <= 10
  {
    [65, 67, 71, 77, 86, 100, 122, 154, 205, 287][logn - 1]
  }

  // ---------------------------------------------------------------------
  // Samples
  // ---------------------------------------------------------------------

  /** The 16-bit samples of a byte stream, big-endian. */
  ghost function Samples(stream: seq<u8>): (s: seq<u16>)
    ensures |s| == |stream| / 2
  {
    seq(|stream| / 2, i requires 0 <= i < |stream| / 2 => Sample(stream, i))
  }

  /** (buf[0] << 8) | buf[1] */
  function BigEndian(hi: int, lo: int): u16
    requires 0 <= hi < 0x100 && 0 <= lo < 0x100
  {
    hi * 0x100 + lo
  }

  function Sample(stream: seq<u8>, i: nat): u16
    requires 2 * i + 1 < |stream|
  {
    BigEndian(stream[2 * i], stream[2 * i + 1])
  }

  /** A sample is the number whose 16 bits, the most significant first, are those of its two bytes. */
  lemma SampleBits(stream: seq<u8>, i: nat)
    requires 2 * i + 1 < |stream|
    ensures i < |Samples(stream)| && Bits.BytesBits(stream[2 * i..2 * i + 2]) == Bits.BitsOf(Samples(stream)[i], 16)
  {
    hide Bits.BitsOf, Bits.BytesBits, Pow2, BigEndian;
    assert stream[2 * i..2 * i + 2] == [stream[2 * i]] + [stream[2 * i + 1]];
    TwoBytes(stream[2 * i], stream[2 * i + 1]);
  }

  lemma TwoBytes(hi: u8, lo: u8)
    ensures Bits.BytesBits([hi] + [lo]) == Bits.BitsOf(BigEndian(hi, lo), 16)
  {
    hide Bits.BitsOf, Bits.BytesBits, Pow2;
    Bits.BytesJoin([hi], [lo]);
    OneByte(hi);
    OneByte(lo);
    Bits.Pow2Small();
    Bits.BitsPush(hi, 8, lo, 8);
  }

  lemma OneByte(b: u8)
    ensures Bits.BytesBits([b]) == Bits.BitsOf(b, 8)
  {
    hide Bits.BitsOf;
    assert [b][..0] == [] && Bits.BytesBits([]) == [];
  }

  /** The acceptance bound is the largest multiple of q in 16 bits: every residue has equally many samples. */
  lemma LimitIs(r: nat)
    requires r < Q
    ensures LIMIT % Q == 0 && LIMIT <= 0x1_0000 < LIMIT + Q
    ensures (set w: u16 | w < LIMIT && w % Q == r) == {r, r + Q, r + 2 * Q, r + 3 * Q, r + 4 * Q}
  {
  }

  /** The values of the accepted samples, in order. */
  ghost function Accepted(s: seq<u16>): (r: seq<u16>)
    ensures forall i :: 0 <= i < |r| ==> r[i] < Q
  {
    if |s| == 0 then [] else
    var w := s[|s| - 1];
    Accepted(s[..|s| - 1]) + if w < LIMIT then [w % Q] else []
  }

  /** How many slots each accepted value is away from its final one. */
  ghost function Distances(s: seq<u16>): (r: seq<nat>)
    ensures |r| == |Accepted(s)| <= |s|
  {
    if |s| == 0 then [] else
    var r := Distances(s[..|s| - 1]);
    if s[|s| - 1] < LIMIT then r + [|s| - 1 - |r|] else r
  }

  lemma {:induction false} DistancesGrow(s: seq<u16>)
    ensures forall i :: 0 <= i < |Distances(s)| ==> Distances(s)[i] <= |s| - |Accepted(s)|
    ensures Ascending(Distances(s))
  {
    if |s| > 0 {
      DistancesGrow(s[..|s| - 1]);
    }
  }

  lemma {:induction false} AcceptedPrefix(s: seq<u16>, m: nat)
    requires m <= |s|
    ensures |Accepted(s[..m])| <= |Accepted(s)| && Accepted(s)[..|Accepted(s[..m])|] == Accepted(s[..m])
  {
    if m < |s| {
      AcceptedPrefix(s[..|s| - 1], m);
      assert s[..|s| - 1][..m] == s[..m];
    } else {
      assert s[..m] == s;
    }
  }

  lemma AcceptedStep(s: seq<u16>, i: nat)
    requires i < |s|
    ensures Accepted(s[..i + 1]) == Accepted(s[..i]) + if s[i] < LIMIT then [s[i] % Q] else []
  {
    assert s[..i + 1][..i] == s[..i];
  }

  // ---------------------------------------------------------------------
  // hash_to_point_vartime
  // ---------------------------------------------------------------------

  /** Repeated subtraction is reduction modulo q. */
  method ReduceBySubtraction(w: u16) returns (r: u16)
    ensures r == w % Q
  {
    r := w;
    while r >= Q
      invariant r % Q == w % Q
    {
      SubtractModulus(r);
      r := r - Q;
    }
  }

  lemma SubtractModulus(r: int)
    requires r >= Q
    ensures (r - Q) % Q == r % Q
  {
  }

  /** The stream must hold enough acceptable samples; `used` is the number of samples drawn. */
  method HashToPointVartime(stream: seq<u8>, x: array<u16>, logn: nat) returns (used: nat)
    requires x.Length == Pow2(logn) && |Accepted(Samples(stream))| >= Pow2(logn)
    modifies x
    ensures x[..] == Accepted(Samples(stream))[..Pow2(logn)]
    ensures used <= |stream| / 2 && x[..] == Accepted(Samples(stream)[..used])
  {
    hide Accepted;
    var n := Pow2(logn);
    ghost var s := Samples(stream);
    assert s[..0] == [];
    NothingAccepted();
    var filled := 0;
    used := 0;
    while n > 0
      invariant used <= |s| && filled + n == x.Length && x[..filled] == Accepted(s[..used])
      decreases |s| - used
    {
      EnoughLeft(s, used, x.Length);
      var w: u16 := Sample(stream, used);
      assert w == s[used];
      AcceptedStep(s, used);
      if w < LIMIT {
        var r := ReduceBySubtraction(w);
        x[filled] := r;
        filled := filled + 1;
        n := n - 1;
      }
      used := used + 1;
    }
    AcceptedPrefix(s, used);
    assert x[..] == x[..filled];
  }

  lemma NothingAccepted()
    ensures Accepted([]) == []
  {
  }

  lemma EnoughLeft(s: seq<u16>, used: nat, n: nat)
    requires used <= |s| && |Accepted(s[..used])| < n <= |Accepted(s)|
    ensures used < |s|
  {
    assert s[..|s|] == s;
  }

  // ---------------------------------------------------------------------
  // Where a value is during the squeeze
  // ---------------------------------------------------------------------

  ghost predicate Ascending(d: seq<nat>) {
    forall i, j :: 0 <= i < j < |d| ==> d[i] <= d[j]
  }

  /** The slot of value i, d slots from its goal, once the bits of d below p are cleared. */
  ghost function At(d: nat, p: nat, i: nat): (k: nat)
    requires p > 0
  {
    i + Multiple(d, p)
  }

  ghost function Multiple(d: nat, p: nat): (k: nat)
    requires p > 0
    ensures k <= d < k + p
  {
    var q := d / p;
    assert d == p * q + d % p;
    assert q >= 0 by { if q < 0 { MulMono(q, -1, p); } }
    assert p * q >= 0 by { MulMono(0, q, p); }
    p * q
  }

  /** Slots keep the order of the values. */
  lemma AtAscends(d: nat, e: nat, p: nat, i: nat, j: nat)
    requires p > 0 && d <= e && i < j
    ensures At(d, p, i) < At(e, p, j)
  {
    if d / p > e / p {
      MulMono(e / p + 1, d / p, p);
    }
    MulMono(d / p, e / p, p);
  }

  /** Clearing one more bit: down by p slots exactly when that bit of the jump is set. */
  lemma AtDoubles(d: nat, p: nat, i: nat)
    requires p > 0
    ensures At(d, 2 * p, i) == At(d, p, i) - if (Multiple(d, p) / p) % 2 == 1 then p else 0
    ensures (Multiple(d, p) / p) % 2 == 1 ==> Multiple(d, p) >= p
  {
    hide Multiple;
    var q := d / p;
    MultipleIs(d, p);
    MultipleIs(d, 2 * p);
    MultipleQuotient(p, q);
    var h, b := q / 2, q % 2;
    HalvedQuotient(d, p, q, h, b, d % p);
    QuotientIs(d, 2 * p, h, p * b + d % p);
    if b == 1 {
      MulMono(1, q, p);
    }
  }

  lemma MultipleIs(d: nat, p: nat)
    requires p > 0
    ensures Multiple(d, p) == p * (d / p) && d == p * (d / p) + d % p && d / p >= 0
  {
  }

  lemma HalvedQuotient(d: int, p: int, q: int, h: int, b: int, r: int)
    requires d == p * q + r && q == 2 * h + b && 0 <= b <= 1 && 0 <= r < p
    ensures d == (2 * p) * h + (p * b + r) && 0 <= p * b + r < 2 * p && p * q == (2 * p) * h + p * b && p * b == if b == 1 then p else 0
  {
    if b == 0 { assert p * b == 0; } else { assert p * b == p; }
    assert p * (2 * h + b) == (2 * p) * h + p * b;
  }

  lemma MultipleQuotient(p: nat, q: int)
    requires p > 0
    ensures (p * q) / p == q
  {
    QuotientIs(p * q, p, q, 0);
  }

  lemma QuotientIs(d: int, m: int, h: int, r: int)
    requires m > 0 && d == m * h + r && 0 <= r < m
    ensures d / m == h
  {
    var k := d / m;
    assert d == m * k + d % m;
    if k > h {
      MulMono(h + 1, k, m);
    } else if k < h {
      MulMono(k + 1, h, m);
    }
  }

  /** During pass p, the first v values have already been handled. */
  ghost function Spot(d: seq<nat>, p: nat, v: nat, i: nat): nat
    requires p > 0 && i < |d|
  {
    At(d[i], if i < v then 2 * p else p, i)
  }

  /** b holds the values a at their spots, and INVALID everywhere else. */
  ghost predicate Spread(b: seq<u16>, a: seq<u16>, d: seq<nat>, p: nat, v: nat) {
    p > 0 && |a| == |d| && Ascending(d) &&
    (forall i :: 0 <= i < |a| ==> a[i] < Q && Spot(d, p, v, i) < |b| && b[Spot(d, p, v, i)] == a[i]) &&
    (forall k :: 0 <= k < |b| && b[k] != INVALID ==> Occupied(k, d, p, v))
  }

  ghost predicate Occupied(k: nat, d: seq<nat>, p: nat, v: nat)
    requires p > 0
  {
    exists i :: 0 <= i < |d| && Spot(d, p, v, i) == k
  }

  /** In pass p at slot u: the values handled so far are those that were below u. */
  ghost predicate PassState(b: seq<u16>, a: seq<u16>, d: seq<nat>, p: nat, v: nat, u: nat) {
    Spread(b, a, d, p, v) && v <= |d| && u <= |b| &&
    (forall i :: 0 <= i < v ==> At(d[i], p, i) < u) &&
    (forall i :: v <= i < |d| ==> At(d[i], p, i) >= u)
  }

  lemma PassStart(b: seq<u16>, a: seq<u16>, d: seq<nat>, p: nat)
    requires Spread(b, a, d, p, 0)
    ensures PassState(b, a, d, p, 0, 0)
  {
    hide Spread;
    assert |a| == |d| && p > 0 by { SpreadShape(b, a, d, p, 0); }
  }

  lemma SpreadShape(b: seq<u16>, a: seq<u16>, d: seq<nat>, p: nat, v: nat)
    requires Spread(b, a, d, p, v)
    ensures p > 0 && |a| == |d| && Ascending(d)
  {
  }

  lemma SpotUnhandled(d: seq<nat>, p: nat, v: nat)
    requires p > 0 && v < |d|
    ensures Spot(d, p, v, v) == At(d[v], p, v)
  {
  }

  /** A pass over the whole buffer prepares the next one. */
  lemma PassEnd(b: seq<u16>, a: seq<u16>, d: seq<nat>, p: nat, v: nat)
    requires PassState(b, a, d, p, v, |b|)
    ensures Spread(b, a, d, 2 * p, 0)
  {
    hide At;
    assert forall i :: 0 <= i < |d| ==> Spot(d, p, v, i) < |b|;
    assert v == |d| by {
      if v < |d| {
        SpotUnhandled(d, p, v);
        assert false;
      }
    }
    forall i | 0 <= i < |d|
      ensures Spot(d, 2 * p, 0, i) == Spot(d, p, v, i)
    {
    }
    forall k | 0 <= k < |b| && b[k] != INVALID
      ensures Occupied(k, d, 2 * p, 0)
    {
      assert Occupied(k, d, p, v);
      var i :| 0 <= i < |d| && Spot(d, p, v, i) == k;
      assert Spot(d, 2 * p, 0, i) == k;
    }
  }

  lemma SpotsDiffer(d: seq<nat>, p: nat, v: nat, i: nat, j: nat)
    requires p > 0 && Ascending(d) && i < j < |d|
    ensures Spot(d, p, v, i) < Spot(d, p, v, j)
  {
    hide At, Multiple;
    if i < v && v <= j {
      AtAscends(d[i], d[j], 2 * p, i, j);
      AtShrinks(d[j], p, j);
    } else {
      AtAscends(d[i], d[j], if i < v then 2 * p else p, i, j);
    }
  }

  lemma AtShrinks(d: nat, p: nat, i: nat)
    requires p > 0
    ensures At(d, 2 * p, i) <= At(d, p, i)
  {
    AtDoubles(d, p, i);
  }

  /** The value in slot u, if any, is number v. */
  lemma ValueAtSlot(b: seq<u16>, a: seq<u16>, d: seq<nat>, p: nat, v: nat, u: nat)
    requires PassState(b, a, d, p, v, u) && u < |b|
    ensures b[u] == INVALID || b[u] < Q
    ensures b[u] != INVALID <==> v < |d| && At(d[v], p, v) == u
    ensures b[u] != INVALID ==> b[u] == a[v]
  {
    hide At;
    if v < |d| {
      assert b[Spot(d, p, v, v)] == a[v];
    }
    if b[u] != INVALID {
      assert Occupied(u, d, p, v);
      var i :| 0 <= i < |d| && Spot(d, p, v, i) == u;
      if i < v {
        AtShrinks(d[i], p, i);
        assert false;
      }
      if i > v {
        AtAscends(d[v], d[i], p, v, i);
        assert false;
      }
    }
  }

  /** An invalid slot: nothing happens. */
  lemma StepSkip(b: seq<u16>, a: seq<u16>, d: seq<nat>, p: nat, v: nat, u: nat)
    requires PassState(b, a, d, p, v, u) && u < |b| && b[u] == INVALID
    ensures PassState(b, a, d, p, v, u + 1)
  {
    hide At, Spread;
    ValueAtSlot(b, a, d, p, v, u);
    SpreadShape(b, a, d, p, v);
    forall i | v <= i < |d|
      ensures At(d[i], p, i) >= u + 1
    {
      if i > v {
        AtAscends(d[v], d[i], p, v, i);
      }
    }
  }

  lemma Handled(d: seq<nat>, p: nat, v: nat, u: nat)
    requires p > 0 && Ascending(d) && v < |d| && At(d[v], p, v) == u
    requires forall i :: 0 <= i < v ==> At(d[i], p, i) < u
    ensures forall i :: 0 <= i < v + 1 ==> At(d[i], p, i) < u + 1
    ensures forall i :: v + 1 <= i < |d| ==> At(d[i], p, i) >= u + 1
  {
    hide At;
    forall i | v + 1 <= i < |d|
      ensures At(d[i], p, i) >= u + 1
    {
      AtAscends(d[v], d[i], p, v, i);
    }
  }

  /** A valid slot whose jump has bit p clear stays. */
  lemma StepStay(b: seq<u16>, a: seq<u16>, d: seq<nat>, p: nat, v: nat, u: nat)
    requires PassState(b, a, d, p, v, u) && u < |b| && v < |d| && At(d[v], p, v) == u
    requires ((u - v) / p) % 2 == 0
    ensures PassState(b, a, d, p, v + 1, u + 1)
  {
    hide At, Multiple, Spread;
    SpreadShape(b, a, d, p, v);
    Handled(d, p, v, u);
    AtJump(d[v], p, v);
    AtDoubles(d[v], p, v);
    assert Spread(b, a, d, p, v + 1) by { SameSpots(b, a, d, p, v); }
  }

  lemma SameSpots(b: seq<u16>, a: seq<u16>, d: seq<nat>, p: nat, v: nat)
    requires Spread(b, a, d, p, v) && v < |d| && At(d[v], 2 * p, v) == At(d[v], p, v)
    ensures Spread(b, a, d, p, v + 1)
  {
    hide At, Ascending;
    forall i | 0 <= i < |d|
      ensures Spot(d, p, v + 1, i) == Spot(d, p, v, i)
    {
    }
    forall i | 0 <= i < |a|
      ensures a[i] < Q && Spot(d, p, v + 1, i) < |b| && b[Spot(d, p, v + 1, i)] == a[i]
    {
      assert b[Spot(d, p, v, i)] == a[i];
    }
    forall k | 0 <= k < |b| && b[k] != INVALID
      ensures Occupied(k, d, p, v + 1)
    {
      assert Occupied(k, d, p, v);
      var i :| 0 <= i < |d| && Spot(d, p, v, i) == k;
      assert Spot(d, p, v + 1, i) == k;
    }
  }

  lemma AtJump(d: nat, p: nat, i: nat)
    requires p > 0
    ensures At(d, p, i) - i == Multiple(d, p)
  {
  }

  /** A valid slot whose jump has bit p set: the slot p below is free, and takes the value. */
  lemma StepMove(b: seq<u16>, a: seq<u16>, d: seq<nat>, p: nat, v: nat, u: nat)
    requires PassState(b, a, d, p, v, u) && u < |b| && v < |d| && At(d[v], p, v) == u
    requires ((u - v) / p) % 2 == 1
    ensures u >= p && b[u - p] == INVALID
    ensures PassState(b[u - p := b[u]][u := b[u - p]], a, d, p, v + 1, u + 1)
  {
    hide At, Multiple, Ascending;
    Handled(d, p, v, u);
    AtJump(d[v], p, v);
    AtDoubles(d[v], p, v);
    assert Spot(d, p, v + 1, v) == u - p;
    DestinationFree(b, a, d, p, v, u);
    Relocate(b, a, d, p, v, u);
  }

  lemma DestinationFree(b: seq<u16>, a: seq<u16>, d: seq<nat>, p: nat, v: nat, u: nat)
    requires Spread(b, a, d, p, v) && v < |d| && u < |b|
    requires Spot(d, p, v, v) == u && u >= p && Spot(d, p, v + 1, v) == u - p
    ensures b[u - p] == INVALID
  {
    hide At, Ascending;
    if b[u - p] != INVALID {
      assert Occupied(u - p, d, p, v);
      var i :| 0 <= i < |d| && Spot(d, p, v, i) == u - p;
      if i < v {
        SpotsDiffer(d, p, v + 1, i, v);
        assert false;
      }
      if i > v {
        SpotsDiffer(d, p, v, v, i);
        assert false;
      }
      assert false;
    }
  }

  lemma Relocate(b: seq<u16>, a: seq<u16>, d: seq<nat>, p: nat, v: nat, u: nat)
    requires Spread(b, a, d, p, v) && v < |d| && u < |b|
    requires Spot(d, p, v, v) == u && u >= p && Spot(d, p, v + 1, v) == u - p && b[u - p] == INVALID
    ensures Spread(b[u - p := b[u]][u := b[u - p]], a, d, p, v + 1)
  {
    hide At, Ascending;
    var c := b[u - p := b[u]][u := b[u - p]];
    assert b[u] == a[v];
    forall i | 0 <= i < |a|
      ensures a[i] < Q && Spot(d, p, v + 1, i) < |c| && c[Spot(d, p, v + 1, i)] == a[i]
    {
      assert b[Spot(d, p, v, i)] == a[i];
      if i == v {
        assert c[u - p] == b[u];
      } else {
        OtherSpot(d, p, v, i);
      }
    }
    forall k | 0 <= k < |c| && c[k] != INVALID
      ensures Occupied(k, d, p, v + 1)
    {
      if k == u - p {
        assert Spot(d, p, v + 1, v) == k;
      } else {
        assert c[k] == b[k] && k != u;
        assert Occupied(k, d, p, v);
        var i :| 0 <= i < |d| && Spot(d, p, v, i) == k;
        OtherSpot(d, p, v, i);
        assert Spot(d, p, v + 1, i) == k;
      }
    }
  }

  /** A value other than v does not move, and is at neither of the two slots of v. */
  lemma OtherSpot(d: seq<nat>, p: nat, v: nat, i: nat)
    requires p > 0 && Ascending(d) && v < |d| && i < |d|
    ensures i != v ==> Spot(d, p, v + 1, i) == Spot(d, p, v, i) != Spot(d, p, v, v) && Spot(d, p, v + 1, i) != Spot(d, p, v + 1, v)
  {
    hide At, Ascending;
    if i < v {
      SpotsDiffer(d, p, v, i, v);
      SpotsDiffer(d, p, v + 1, i, v);
    } else if i > v {
      SpotsDiffer(d, p, v, v, i);
      SpotsDiffer(d, p, v + 1, v, i);
    }
  }

  // ---------------------------------------------------------------------
  // Before the first pass and after the last
  // ---------------------------------------------------------------------

  /** What the sampling loop stores. */
  function Marked(w: u16): (r: u16)
    ensures r == if w < LIMIT then w % Q else INVALID
  {
    if w < LIMIT then w % Q else INVALID
  }

  ghost function MarkedAll(s: seq<u16>): (r: seq<u16>)
    ensures |r| == |s|
  {
    seq(|s|, i requires 0 <= i < |s| => Marked(s[i]))
  }

  lemma {:induction false} StartsSpread(s: seq<u16>)
    ensures Spread(MarkedAll(s), Accepted(s), Distances(s), 1, 0)
  {
    DistancesGrow(s);
    if |s| > 0 {
      var t, w := s[..|s| - 1], s[|s| - 1];
      StartsSpread(t);
      assert MarkedAll(s) == MarkedAll(t) + [Marked(w)];
      SpreadAppend(MarkedAll(t), Accepted(t), Distances(t), Marked(w));
    }
  }

  lemma SpreadAppend(b: seq<u16>, a: seq<u16>, d: seq<nat>, w: u16)
    requires Spread(b, a, d, 1, 0) && (w == INVALID || w < Q) && |d| <= |b|
    requires Ascending(d + if w < Q then [|b| - |d|] else [])
    ensures w < Q ==> Spread(b + [w], a + [w], d + [|b| - |d|], 1, 0)
    ensures w == INVALID ==> Spread(b + [w], a, d, 1, 0)
  {
    hide Ascending;
    var e := d + if w < Q then [|b| - |d|] else [];
    forall i | 0 <= i < |e|
      ensures Spot(e, 1, 0, i) == i + e[i]
    {
    }
    forall i | 0 <= i < |d|
      ensures Spot(d, 1, 0, i) == i + d[i]
    {
    }
    forall k | 0 <= k < |b| + 1 && (b + [w])[k] != INVALID
      ensures Occupied(k, e, 1, 0)
    {
      if k == |b| {
        assert Spot(e, 1, 0, |d|) == k;
      } else {
        assert Occupied(k, d, 1, 0);
        var i :| 0 <= i < |d| && Spot(d, 1, 0, i) == k;
        assert Spot(e, 1, 0, i) == k;
      }
    }
  }

  /** When no distance reaches p, the values are at the front. */
  lemma EndsAtFront(b: seq<u16>, s: seq<u16>, p: nat, n: nat)
    requires |b| == |s| && Spread(b, Accepted(s), Distances(s), p, 0)
    requires n <= |Accepted(s)| && |s| - n < p
    ensures b[..n] == Accepted(s)[..n]
  {
    hide Accepted;
    DistancesGrow(s);
    var d := Distances(s);
    forall i | 0 <= i < n
      ensures b[i] == Accepted(s)[i]
    {
      assert Spot(d, p, 0, i) == i by {
        Nearer(d[i], p);
      }
    }
  }

  lemma Nearer(d: nat, p: nat)
    requires d < p
    ensures Multiple(d, p) == 0
  {
  }

  /** If the first n slots are all valid, then n samples were accepted. */
  lemma {:induction false} FrontFilled(b: seq<u16>, a: seq<u16>, d: seq<nat>, p: nat, n: nat)
    requires Spread(b, a, d, p, 0) && n <= |b| && forall i :: 0 <= i < n ==> b[i] != INVALID
    ensures n <= |d| && forall i :: 0 <= i < n ==> Spot(d, p, 0, i) == i
  {
    hide Multiple;
    if n > 0 {
      FrontFilled(b, a, d, p, n - 1);
      assert Occupied(n - 1, d, p, 0);
      var i :| 0 <= i < |d| && Spot(d, p, 0, i) == n - 1;
      assert i <= n - 1;
    }
  }

  // ---------------------------------------------------------------------
  // hash_to_point_ct
  // ---------------------------------------------------------------------

  /** w -= c & (((w - c) >> 31) - 1): subtract c unless that would go below zero. */
  function SubtractOnce(w: u32, c: u32): (r: u32)
    requires w < 0x1_0000 && c < 0x1_0000
    ensures r == if w < c then w else w - c
  {
    W32(w - if W32(W32(w - c) / B31 - 1) == 0 then 0 else c)
  }

  /** The branch-free reduction and the 0xFFFF mark. */
  function Mark(w: u16): (r: u16)
    ensures r == Marked(w)
  {
    var a := SubtractOnce(w, 24578);
    var b := SubtractOnce(a, 24578);
    var wr := SubtractOnce(b, 12289);
    ReducedSample(w, a, b, wr);
    LimitBit(w);
    if W32(W32(w - LIMIT) / B31 - 1) == 0 then wr else 0xFFFF
  }

  lemma LimitBit(w: int)
    requires 0 <= w < 0x1_0000
    ensures W32(W32(w - LIMIT) / B31 - 1) == 0 <==> w < LIMIT
  {
  }

  lemma ReducedSample(w: int, a: int, b: int, r: int)
    requires 0 <= w < 0x1_0000
    requires a == (if w < 24578 then w else w - 24578) && b == (if a < 24578 then a else a - 24578)
    requires r == if b < 12289 then b else b - 12289
    ensures 0 <= r < 0x1_0000 && (w < LIMIT ==> r == w % Q)
  {
  }

  /** The three buffers, one after the other. */
  ghost function Whole(x: array<u16>, tt1: array<u16>, tt2: array<u16>): (s: seq<u16>)
    reads x, tt1, tt2
    ensures |s| == x.Length + tt1.Length + tt2.Length
  {
    x[..] + tt1[..] + tt2[..]
  }

  method Load(x: array<u16>, tt1: array<u16>, tt2: array<u16>, n: nat, u: nat) returns (w: u16)
    requires x.Length == tt1.Length == n && u < 2 * n + tt2.Length
    ensures w == Whole(x, tt1, tt2)[u]
  {
    if u < n {
      w := x[u];
    } else if u < 2 * n {
      w := tt1[u - n];
    } else {
      w := tt2[u - 2 * n];
    }
  }

  method Store(x: array<u16>, tt1: array<u16>, tt2: array<u16>, n: nat, u: nat, w: u16)
    requires x.Length == tt1.Length == n && u < 2 * n + tt2.Length && x != tt1 && x != tt2 && tt1 != tt2
    modifies x, tt1, tt2
    ensures Whole(x, tt1, tt2) == old(Whole(x, tt1, tt2))[u := w]
  {
    if u < n {
      x[u] := w;
    } else if u < 2 * n {
      tt1[u - n] := w;
    } else {
      tt2[u - 2 * n] := w;
    }
    assert Whole(x, tt1, tt2) == old(Whole(x, tt1, tt2))[u := w];
  }

  /** j & p for a power of two p. */
  function BitOf(j: nat, p: nat): (r: nat)
    requires p > 0
  {
    if (j / p) % 2 == 1 then p else 0
  }

  /** ((j & p) + 0x1FF) >> 9 is 1 exactly when the bit is set. */
  lemma BitMask(j: nat, p: nat)
    requires 0 < p <= 512
    ensures (BitOf(j, p) + 0x1FF) / 0x200 == if (j / p) % 2 == 1 then 1 else 0
  {
  }

  /** The buffer sizes suffice for every degree. */
  lemma BuffersSuffice(logn: nat)
    requires 1 <= logn <= 10
    ensures Pow2(logn) + Over(logn) <= 2 * Pow2(logn) + 63 && Over(logn) < 512
  {
    assert Pow2(1) == 2 && Pow2(2) == 4 && Pow2(3) == 8 && Pow2(4) == 16 && Pow2(5) == 32;
    assert Pow2(6) == 64 && Pow2(7) == 128 && Pow2(8) == 256 && Pow2(9) == 512 && Pow2(10) == 1024;
  }

  /** One pass: every value whose jump has bit p set moves down by p slots. */
  method Pass(x: array<u16>, tt1: array<u16>, tt2: array<u16>, n: nat, m: nat, p: nat, ghost a: seq<u16>, ghost d: seq<nat>)
    requires x.Length == tt1.Length == n && m <= 2 * n + tt2.Length && x != tt1 && x != tt2 && tt1 != tt2
    requires 0 < p <= 512 && Spread(Whole(x, tt1, tt2)[..m], a, d, p, 0)
    modifies x, tt1, tt2
    ensures Spread(Whole(x, tt1, tt2)[..m], a, d, 2 * p, 0)
  {
    hide Whole, PassState, Spread, At;
    PassStart(Whole(x, tt1, tt2)[..m], a, d, p);
    var v := 0;
    for u := 0 to m
      invariant PassState(Whole(x, tt1, tt2)[..m], a, d, p, v, u)
    {
      ghost var b := Whole(x, tt1, tt2)[..m];
      var sv := Load(x, tt1, tt2, n, u);
      PassStep(b, a, d, p, v, u);
      var j := u - v;
      var valid := sv / 0x8000 == 0;
      if valid {
        v := v + 1;
      }
      if u < p {
        continue;
      }
      var dv := Load(x, tt1, tt2, n, u - p);
      BitMask(j, p);
      if valid && (BitOf(j, p) + 0x1FF) / 0x200 == 1 {
        Store(x, tt1, tt2, n, u, dv);
        Store(x, tt1, tt2, n, u - p, sv);
        assert Whole(x, tt1, tt2)[..m] == b[u - p := b[u]][u := b[u - p]];
      }
    }
    PassEnd(Whole(x, tt1, tt2)[..m], a, d, p, v);
  }

  /** What the code decides at slot u is right. */
  lemma PassStep(b: seq<u16>, a: seq<u16>, d: seq<nat>, p: nat, v: nat, u: nat)
    requires PassState(b, a, d, p, v, u) && u < |b|
    ensures p > 0 && v <= u
    ensures b[u] / 0x8000 != 0 ==> PassState(b, a, d, p, v, u + 1)
    ensures b[u] / 0x8000 == 0 && (u < p || ((u - v) / p) % 2 == 0) ==> PassState(b, a, d, p, v + 1, u + 1)
    ensures b[u] / 0x8000 == 0 && u >= p && ((u - v) / p) % 2 == 1 ==>
      PassState(b[u - p := b[u]][u := b[u - p]], a, d, p, v + 1, u + 1)
  {
    hide PassState, At, Spread;
    CountBelow(b, a, d, p, v, u);
    ValueAtSlot(b, a, d, p, v, u);
    if b[u] == INVALID {
      StepSkip(b, a, d, p, v, u);
    } else if ((u - v) / p) % 2 == 0 {
      StepStay(b, a, d, p, v, u);
    } else {
      StepMove(b, a, d, p, v, u);
    }
  }

  lemma CountBelow(b: seq<u16>, a: seq<u16>, d: seq<nat>, p: nat, v: nat, u: nat)
    requires PassState(b, a, d, p, v, u)
    ensures p > 0 && v <= u
  {
    hide Multiple;
    if v > 0 {
      assert At(d[v - 1], p, v - 1) < u;
    }
  }

  /**
   * The constant-time version, on the first n + over samples. Every coefficient comes out valid
   * exactly when at least n of these samples are acceptable, and the coefficients are then the
   * first n accepted values in order.
   */
  method HashToPointCt(stream: seq<u8>, x: array<u16>, logn: nat, tmp: array<u16>)
    requires 1 <= logn <= 10 && x.Length == tmp.Length == Pow2(logn) && x != tmp
    requires |stream| / 2 >= Pow2(logn) + Over(logn)
    modifies x, tmp
    ensures (forall i :: 0 <= i < x.Length ==> x[i] < Q) <==>
      |Accepted(Samples(stream)[..Pow2(logn) + Over(logn)])| >= Pow2(logn)
    ensures |Accepted(Samples(stream)[..Pow2(logn) + Over(logn)])| >= Pow2(logn) ==>
      x[..] == Accepted(Samples(stream)[..Pow2(logn) + Over(logn)])[..Pow2(logn)]
  {
    hide Accepted, Whole, Spread, Distances, Pow2, MarkedAll;
    var n := Pow2(logn);
    var over := Over(logn);
    var m := n + over;
    BuffersSuffice(logn);
    var tt2 := new u16[63];
    ghost var s := Samples(stream)[..m];
    for u := 0 to m
      invariant Whole(x, tmp, tt2)[..u] == MarkedAll(s[..u])
    {
      var w: u16 := Sample(stream, u);
      ghost var b := Whole(x, tmp, tt2);
      Store(x, tmp, tt2, n, u, Mark(w));
      assert w == s[u];
      MarkedStep(b, Whole(x, tmp, tt2), s, u);
    }
    assert s[..m] == s;
    ghost var a, d := Accepted(s), Distances(s);
    StartsSpread(s);
    var p := 1;
    while p <= over
      invariant 0 < p <= 2 * over && Spread(Whole(x, tmp, tt2)[..m], a, d, p, 0)
      decreases 2 * over - p
    {
      Pass(x, tmp, tt2, n, m, p, a, d);
      p := 2 * p;
    }
    WholeFront(x, tmp, tt2);
    Conclusion(Whole(x, tmp, tt2)[..m], s, p, n, x[..]);
  }

  lemma WholeFront(x: array<u16>, tt1: array<u16>, tt2: array<u16>)
    ensures |Whole(x, tt1, tt2)| >= x.Length && Whole(x, tt1, tt2)[..x.Length] == x[..]
  {
  }

  lemma MarkedStep(b: seq<u16>, c: seq<u16>, s: seq<u16>, u: nat)
    requires u < |s| <= |b| && b[..u] == MarkedAll(s[..u]) && c == b[u := Marked(s[u])]
    ensures c[..u + 1] == MarkedAll(s[..u + 1])
  {
    assert c[..u + 1] == b[..u] + [Marked(s[u])];
    assert MarkedAll(s[..u + 1]) == MarkedAll(s[..u]) + [Marked(s[u])];
  }

  lemma Conclusion(b: seq<u16>, s: seq<u16>, p: nat, n: nat, x: seq<u16>)
    requires |b| == |s| && Spread(b, Accepted(s), Distances(s), p, 0) && n <= |s| && |s| - n < p && x == b[..n]
    ensures (forall i :: 0 <= i < n ==> x[i] < Q) <==> |Accepted(s)| >= n
    ensures |Accepted(s)| >= n ==> x == Accepted(s)[..n]
  {
    hide Accepted, Spread, Distances;
    if |Accepted(s)| >= n {
      EndsAtFront(b, s, p, n);
    } else if forall i :: 0 <= i < n ==> x[i] < Q {
      forall i | 0 <= i < n
        ensures b[i] != INVALID
      {
        assert x[i] < Q;
      }
      FrontFilled(b, Accepted(s), Distances(s), p, n);
      assert false;
    }
  }

  /** Both functions give the same point whenever the oversampled buffer holds enough values. */
  lemma SamePoint(s: seq<u16>, m: nat, n: nat)
    requires m <= |s| && |Accepted(s[..m])| >= n
    ensures |Accepted(s)| >= n && Accepted(s)[..n] == Accepted(s[..m])[..n]
  {
    hide Accepted;
    AcceptedPrefix(s, m);
    assert Accepted(s)[..n] == Accepted(s)[..|Accepted(s[..m])|][..n];
  }
}
