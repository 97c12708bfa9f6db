/** Machine words, as the C code uses them, and powers. */
module Words {

  const B31: nat := 0x8000_0000
  const B32: nat := 0x1_0000_0000
  const B63: nat := 0x8000_0000_0000_0000
  const B64: nat := 0x1_0000_0000_0000_0000

  /** A value of type uint32_t. */
  type u32 = x: int | 0 <= x < B32 witness 0

  /** A value of type uint8_t. */
  type u8 = x: int | 0 <= x < 0x100 witness 0

  /** A value of type uint16_t. */
  type u16 = x: int | 0 <= x < 0x1_0000 witness 0

  /** A value of type uint64_t. */
  type u64 = x: int | 0 <= x < B64 witness 0

  /** Reduction to 32 bits, which every uint32_t operation performs. */
  function W32(x: int): u32 {
    x % B32
  }

  /** Reduction to 64 bits, which every uint64_t operation performs. */
  function W64(x: int): u64 {
    x % B64
  }

  /** *(int32_t *)&x */
  function S32(x: u32): int {
    if x < B31 then x else x - B32
  }

  /** The idiom "x & -bit": x when the bit is 1, zero when it is 0. */
  function Mask(bit: int, x: int): int {
    if bit == 0 then 0 else x
  }

  function Quo(e: nat, m: nat): (q: nat)
    requires m > 0
    ensures q == e / m
  {
    e / m
  }

  function Pow(b: int, e: nat): int {
    if e == 0 then 1 else b * Pow(b, e - 1)
  }

  /** 2^l. */
  function Pow2(l: nat): (n: nat)
    ensures n > 0
  {
    if l == 0 then 1 else 2 * Pow2(l - 1)
  }

  lemma {:induction false} Pow2IsPow(l: nat)
    ensures Pow2(l) == Pow(2, l)
  {
    if l > 0 {
      Pow2IsPow(l - 1);
    }
  }

  lemma {:induction false} Pow2Add(l: nat, k: nat)
    ensures Pow2(l + k) == Pow2(l) * Pow2(k)
  {
    if l > 0 {
      Pow2Add(l - 1, k);
      MulAssoc(2, Pow2(l - 1), Pow2(k));
    }
  }

  lemma PowSucc(b: int, n: nat)
    ensures Pow(b, n + 1) == Pow(b, n) * b
  {
  }

  lemma {:induction false} PowAdd(b: int, m: nat, n: nat)
    ensures Pow(b, m + n) == Pow(b, m) * Pow(b, n)
  {
    if m > 0 {
      PowAdd(b, m - 1, n);
      assert Pow(b, m + n) == b * (Pow(b, m - 1) * Pow(b, n));
      MulAssoc(b, Pow(b, m - 1), Pow(b, n));
    }
  }

  lemma {:induction false} PowMul(b: int, m: nat, n: nat)
    ensures m * n >= 0 && Pow(b, m * n) == Pow(Pow(b, m), n)
  {
    if n == 0 {
      assert m * n == 0;
    } else {
      PowMul(b, m, n - 1);
      assert m * n == m + m * (n - 1);
      PowAdd(b, m, m * (n - 1));
    }
  }

  lemma {:induction false} PowOne(n: nat)
    ensures Pow(1, n) == 1
  {
    if n > 0 {
      PowOne(n - 1);
    }
  }

  lemma {:induction false} PowPos(b: int, n: nat)
    requires b > 0
    ensures Pow(b, n) > 0
  {
    if n > 0 {
      PowPos(b, n - 1);
      MulPos(b, Pow(b, n - 1));
    }
  }

  lemma {:induction false} PowProduct(a: int, b: int, n: nat)
    ensures Pow(a * b, n) == Pow(a, n) * Pow(b, n)
  {
    if n > 0 {
      PowProduct(a, b, n - 1);
      var x, y := Pow(a, n - 1), Pow(b, n - 1);
      assert (a * b) * (x * y) == (a * x) * (b * y) by {
        MulSwap(a, b, x, y);
      }
    }
  }

  lemma MulAssoc(a: int, b: int, c: int)
    ensures a * (b * c) == (a * b) * c
  {
  }

  lemma MulSwap(a: int, b: int, c: int, d: int)
    ensures (a * b) * (c * d) == (a * c) * (b * d)
  {
    calc {
      (a * b) * (c * d);
      a * (b * (c * d));
      a * (c * (b * d));
      (a * c) * (b * d);
    }
  }

  lemma MulPos(a: int, b: int)
    requires a > 0 && b > 0
    ensures a * b > 0
  {
  }

  lemma MulMono(a: int, b: int, c: int)
    requires a <= b && 0 <= c
    ensures a * c <= b * c
  {
  }

  lemma UniqueQuotient(d: int, m: int, h: int, r: int)
    requires m > 0 && d == m * h + r && 0 <= r < m
    ensures d / m == h && d % m == r
  {
    var k := d / m;
    assert d == m * k + d % m;
    if k > h {
      MulMono(h + 1, k, m);
    } else if k < h {
      MulMono(k + 1, h, m);
    }
  }
}
