/** Fermat's little theorem, and what it makes of modp_div for a prime modulus. */
module Fermat {
  import opened Words
  import opened Congruence
  import opened Modp
  import opened ModpPowers

  predicate Prime(p: int) {
    p > 1 && forall d :: 1 < d < p ==> p % d != 0
  }

  /** Every nonzero residue has an inverse: p mod b is smaller and nonzero, and is -(p/b)*b. */
  lemma {:induction false} Inverse(b: int, p: int) returns (i: int)
    requires Prime(p) && 0 < b < p
    ensures Cong(b * i, 1, p)
    decreases b
  {
    if b == 1 {
      i := 1;
      CongRefl(1, p);
    } else {
      var q, r := p / b, p % b;
      assert r != 0;
      var j := Inverse(r, p);
      i := 0 - q * j;
      assert p == b * q + r;
      var k := Quotient(r * j, 1, p);
      InverseAlgebra(p, b, q, r, j, k);
      ByQuotient(b * i, 1, p, k - j);
    }
  }

  lemma InverseAlgebra(p: int, b: int, q: int, r: int, j: int, k: int)
    requires p == b * q + r && r * j - 1 == p * k
    ensures b * (0 - q * j) - 1 == p * (k - j)
  {
    assert b * (0 - q * j) == 0 - (b * q) * j by { MulAssoc(b, q, j); }
    assert (b * q + r) * j == (b * q) * j + r * j;
    assert p * (k - j) == p * k - p * j;
  }

  // ---------------------------------------------------------------------
  // Products of distinct numbers
  // ---------------------------------------------------------------------

  ghost function Product(s: seq<int>): int {
    if |s| == 0 then 1 else s[0] * Product(s[1..])
  }

  ghost function Factorial(n: nat): int {
    if n == 0 then 1 else n * Factorial(n - 1)
  }

  /** The values are 1..n, each at most once. */
  ghost predicate Permutes(s: seq<int>) {
    (forall i :: 0 <= i < |s| ==> 1 <= s[i] <= |s|) && forall i, j :: 0 <= i < j < |s| ==> s[i] != s[j]
  }

  lemma {:induction false} ProductWithout(s: seq<int>, k: nat)
    requires k < |s|
    ensures Product(s) == s[k] * Product(s[..k] + s[k + 1..])
  {
    if k == 0 {
      assert s[..0] + s[1..] == s[1..];
    } else {
      ProductWithout(s[1..], k - 1);
      var t := s[..k] + s[k + 1..];
      assert t[1..] == s[1..][..k - 1] + s[1..][k..];
      var x := Product(t[1..]);
      assert s[0] * (s[k] * x) == s[k] * (s[0] * x) by { MulAssoc(s[0], s[k], x); MulAssoc(s[k], s[0], x); }
    }
  }

  ghost function Values(s: seq<int>): set<int> {
    set i | 0 <= i < |s| :: s[i]
  }

  lemma {:induction false} ValuesCount(s: seq<int>)
    requires forall i, j :: 0 <= i < j < |s| ==> s[i] != s[j]
    ensures |Values(s)| == |s|
  {
    if |s| > 0 {
      var n := |s| - 1;
      ValuesCount(s[..n]);
      assert Values(s) == Values(s[..n]) + {s[n]};
    }
  }

  ghost function UpTo(n: nat): (r: set<int>)
    ensures forall i :: i in r <==> 1 <= i <= n
  {
    if n == 0 then {} else UpTo(n - 1) + {n}
  }

  lemma {:induction false} UpToCount(n: nat)
    ensures |UpTo(n)| == n
  {
    if n > 0 {
      UpToCount(n - 1);
    }
  }

  /** The largest value is taken. */
  lemma TakesTop(s: seq<int>) returns (k: nat)
    requires Permutes(s) && |s| > 0
    ensures k < |s| && s[k] == |s|
  {
    if |s| !in Values(s) {
      ValuesCount(s);
      BelowTop(s);
      UpToCount(|s| - 1);
      SubsetCount(Values(s), UpTo(|s| - 1));
      assert false;
    }
    k :| 0 <= k < |s| && s[k] == |s|;
  }

  lemma BelowTop(s: seq<int>)
    requires Permutes(s) && |s| > 0 && |s| !in Values(s)
    ensures Values(s) <= UpTo(|s| - 1)
  {
    forall x | x in Values(s)
      ensures x in UpTo(|s| - 1)
    {
      var i :| 0 <= i < |s| && x == s[i];
    }
  }

  lemma SubsetCount(a: set<int>, b: set<int>)
    requires a <= b
    ensures |a| <= |b|
  {
    assert b == a + (b - a);
    assert |a + (b - a)| == |a| + |b - a|;
  }

  lemma {:induction false} PermutedProduct(s: seq<int>)
    requires Permutes(s)
    ensures Product(s) == Factorial(|s|)
    decreases |s|
  {
    if |s| > 0 {
      var k := TakesTop(s);
      ProductWithout(s, k);
      var t := s[..k] + s[k + 1..];
      assert forall i :: 0 <= i < |t| ==> t[i] == s[if i < k then i else i + 1];
      PermutedProduct(t);
    }
  }

  // ---------------------------------------------------------------------
  // The theorem
  // ---------------------------------------------------------------------

  /** b, 2b, ..., nb modulo p. */
  ghost function Multiples(b: int, n: nat, p: int): (r: seq<int>)
    requires p > 0
    ensures |r| == n
  {
    seq(n, i requires 0 <= i < n => ((i + 1) * b) % p)
  }

  lemma MultiplesPermute(b: int, p: int)
    requires Prime(p) && 0 < b < p
    ensures Permutes(Multiples(b, p - 1, p))
  {
    hide Cong, Prime;
    var s := Multiples(b, p - 1, p);
    var inv := Inverse(b, p);
    forall i | 0 <= i < |s|
      ensures 1 <= s[i] <= |s|
    {
      MultipleRange(i + 1, b, inv, p);
    }
    forall i, j | 0 <= i < j < |s|
      ensures s[i] != s[j]
    {
      if s[i] == s[j] {
        CancelMultiple(i + 1, j + 1, b, inv, p);
      }
    }
  }

  lemma MultipleRange(i: int, b: int, inv: int, p: int)
    requires 0 < i < p && Cong(b * inv, 1, p)
    ensures 1 <= (i * b) % p < p
  {
    hide Cong;
    if (i * b) % p == 0 {
      SmallMod(0, p);
      assert 0 * b == 0;
      CancelMultiple(i, 0, b, inv, p);
    }
  }

  /** Multiples of an invertible number are distinct. */
  lemma CancelMultiple(i: int, j: int, b: int, inv: int, p: int)
    requires p > 0 && 0 <= i < p && 0 <= j < p && Cong(b * inv, 1, p) && (i * b) % p == (j * b) % p
    ensures i == j
  {
    hide Cong;
    CongMod(i * b, p);
    CongMod(j * b, p);
    CongTrans(i * b, (i * b) % p, j * b, p);
    CongCancel(i, j, b, inv, p);
    CongUnique(i, j, p);
  }

  lemma {:induction false} ProductSnoc(s: seq<int>, x: int)
    ensures Product(s + [x]) == Product(s) * x
  {
    if |s| == 0 {
      assert s + [x] == [x];
      assert Product([x]) == x * Product([]);
    } else {
      assert (s + [x])[1..] == s[1..] + [x];
      ProductSnoc(s[1..], x);
      MulAssoc(s[0], Product(s[1..]), x);
    }
  }

  lemma {:induction false} MultiplesProduct(b: int, n: nat, p: int)
    requires p > 0
    ensures Cong(Product(Multiples(b, n, p)), Pow(b, n) * Factorial(n), p)
  {
    hide Cong;
    if n == 0 {
      CongRefl(1, p);
    } else {
      var s := Multiples(b, n - 1, p);
      var x := (n * b) % p;
      MultiplesProduct(b, n - 1, p);
      assert Multiples(b, n, p) == s + [x];
      ProductSnoc(s, x);
      CongMod(n * b, p);
      var e, f := Pow(b, n - 1), Factorial(n - 1);
      CongMul(Product(s), e * f, x, n * b, p);
      assert (e * f) * (n * b) == (b * e) * (n * f) by { MulSwap(e, f, b, n); assert n * b == b * n && e * b == b * e && f * n == n * f; }
    }
  }

  lemma {:induction false} FactorialInverse(n: nat, p: int) returns (i: int)
    requires Prime(p) && n < p
    ensures Cong(Factorial(n) * i, 1, p)
  {
    hide Cong, Prime;
    if n == 0 {
      i := 1;
      assert p > 0 by { PrimePositive(p); }
      CongRefl(1, p);
    } else {
      var j := FactorialInverse(n - 1, p);
      var k := Inverse(n, p);
      i := k * j;
      CongMul(n * k, 1, Factorial(n - 1) * j, 1, p);
      MulSwap(n, k, Factorial(n - 1), j);
    }
  }

  lemma PrimePositive(p: int)
    requires Prime(p)
    ensures p > 1
  {
  }

  /** Fermat's little theorem. */
  lemma LittleFermat(b: int, p: int)
    requires Prime(p) && 0 < b < p
    ensures Cong(Pow(b, p - 1), 1, p)
  {
    hide Cong, Prime, Pow;
    MultiplesPermute(b, p);
    PermutedProduct(Multiples(b, p - 1, p));
    MultiplesProduct(b, p - 1, p);
    var f := Factorial(p - 1);
    var i := FactorialInverse(p - 1, p);
    CongSym(f, Pow(b, p - 1) * f, p);
    CongCancel(Pow(b, p - 1), 1, f, i, p);
  }

  /** For a prime modulus, modp_div(a, b) is a/b: its product with b is a, for every nonzero b. */
  method DivPrime(a: u32, b: u32, p: u32, p0i: u32) returns (d: u32)
    requires Field(p, p0i) && Prime(p) && a < p && 0 < b < p
    ensures d < p && (d * b) % p == a
  {
    hide Cong, Plain, RInv, NegInverse, Prime, R, Pow;
    d := Div(a, b, p, p0i, R(p));
    PrimeDivides(a, b, d, p, p0i);
  }

  lemma PrimeDivides(a: u32, b: u32, d: int, p: u32, p0i: u32)
    requires Field(p, p0i) && Prime(p) && a < p && 0 < b < p
    requires Cong(d, a * Pow(Plain(b, p, p0i), p - 2) * RInv(p, p0i), p)
    ensures (d * b) % p == a
  {
    hide Cong, Plain, RInv, NegInverse, Prime, Pow;
    PlainSpec(b, p, p0i);
    var c: int := Plain(b, p, p0i);
    if c == 0 {
      NothingPlain(b, p);
      assert false;
    }
    LittleFermat(c, p);
    DivInverts(a, b, d, p, p0i);
    CongModEq(d * b, a, p);
    SmallMod(a, p);
  }

  lemma NothingPlain(b: u32, p: u32)
    requires b < p && Rep(b, 0, p)
    ensures b == 0
  {
    hide Cong;
    assert 0 * B31 == 0;
    CongUnique(b, 0, p);
  }
}
