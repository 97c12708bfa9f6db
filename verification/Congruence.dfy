/** Congruence of integers modulo a positive integer. */
module Congruence {
  import opened Words

  ghost predicate Cong(a: int, b: int, m: int)
  {
    m > 0 && (a - b) % m == 0
  }

  /** An explicit quotient establishes a congruence ... */
  lemma ByQuotient(a: int, b: int, m: int, k: int)
    requires m > 0
    requires a - b == m * k
    ensures Cong(a, b, m)
  {
    MultipleMod(m, k);
  }

  /** ... and every congruence has one. */
  lemma Quotient(a: int, b: int, m: int) returns (k: int)
    requires Cong(a, b, m)
    ensures m > 0 && a - b == m * k
  {
    k := (a - b) / m;
  }

  lemma MultipleMod(m: int, k: int)
    requires m > 0
    ensures (m * k) % m == 0
  {
    var q, r := (m * k) / m, (m * k) % m;
    assert m * (k - q) == r;
    if k - q >= 1 {
      MulMono(1, k - q, m);
    } else if k - q <= -1 {
      MulMono(k - q, -1, m);
    }
  }

  lemma CongRefl(a: int, m: int)
    requires m > 0
    ensures Cong(a, a, m)
  {
    ByQuotient(a, a, m, 0);
  }

  lemma CongSym(a: int, b: int, m: int)
    requires Cong(a, b, m)
    ensures Cong(b, a, m)
  {
    var k := Quotient(a, b, m);
    assert m * -k == -(m * k);
    ByQuotient(b, a, m, -k);
  }

  lemma CongTrans(a: int, b: int, c: int, m: int)
    requires Cong(a, b, m) && Cong(b, c, m)
    ensures Cong(a, c, m)
  {
    var k := Quotient(a, b, m);
    var l := Quotient(b, c, m);
    assert m * (k + l) == m * k + m * l;
    ByQuotient(a, c, m, k + l);
  }

  lemma CongAdd(a: int, b: int, c: int, d: int, m: int)
    requires Cong(a, b, m) && Cong(c, d, m)
    ensures Cong(a + c, b + d, m)
  {
    var k := Quotient(a, b, m);
    var l := Quotient(c, d, m);
    assert m * (k + l) == m * k + m * l;
    ByQuotient(a + c, b + d, m, k + l);
  }

  lemma CongSub(a: int, b: int, c: int, d: int, m: int)
    requires Cong(a, b, m) && Cong(c, d, m)
    ensures Cong(a - c, b - d, m)
  {
    var k := Quotient(a, b, m);
    var l := Quotient(c, d, m);
    assert m * (k - l) == m * k - m * l;
    ByQuotient(a - c, b - d, m, k - l);
  }

  lemma CongScale(a: int, b: int, c: int, m: int)
    requires Cong(a, b, m)
    ensures Cong(a * c, b * c, m) && Cong(c * a, c * b, m)
  {
    var k := Quotient(a, b, m);
    calc {
      a * c - b * c;
      (a - b) * c;
      (m * k) * c;
      { MulAssoc(m, k, c); }
      m * (k * c);
    }
    ByQuotient(a * c, b * c, m, k * c);
    ByQuotient(c * a, c * b, m, k * c);
  }

  lemma CongMul(a: int, b: int, c: int, d: int, m: int)
    requires Cong(a, b, m) && Cong(c, d, m)
    ensures Cong(a * c, b * d, m)
  {
    CongScale(a, b, c, m);
    CongScale(c, d, b, m);
    CongTrans(a * c, b * c, b * d, m);
  }

  lemma {:induction false} CongPow(a: int, b: int, e: nat, m: int)
    requires Cong(a, b, m)
    ensures Cong(Pow(a, e), Pow(b, e), m)
  {
    if e == 0 {
      CongRefl(1, m);
    } else {
      CongPow(a, b, e - 1, m);
      CongMul(a, b, Pow(a, e - 1), Pow(b, e - 1), m);
    }
  }

  lemma CongMod(a: int, m: int)
    requires m > 0
    ensures Cong(a % m, a, m) && Cong(a, a % m, m)
  {
    ByQuotient(a, a % m, m, a / m);
    CongSym(a, a % m, m);
  }

  /** Reduced representatives are unique. */
  lemma CongUnique(a: int, b: int, m: int)
    requires Cong(a, b, m)
    requires -m < a - b < m
    ensures a == b
  {
    var k := Quotient(a, b, m);
    if k >= 1 {
      MulMono(1, k, m);
    } else if k <= -1 {
      MulMono(k, -1, m);
    }
  }

  lemma CongModEq(a: int, b: int, m: int)
    requires Cong(a, b, m)
    ensures a % m == b % m
  {
    CongMod(a, m);
    CongMod(b, m);
    CongTrans(a % m, a, b, m);
    CongTrans(a % m, b, b % m, m);
    CongUnique(a % m, b % m, m);
  }

  /** A factor with an inverse can be cancelled. */
  lemma CongCancel(a: int, b: int, c: int, inv: int, m: int)
    requires Cong(c * inv, 1, m) && Cong(a * c, b * c, m)
    ensures Cong(a, b, m)
  {
    CongScale(a * c, b * c, inv, m);
    MulAssoc(a, c, inv);
    MulAssoc(b, c, inv);
    CongScale(c * inv, 1, a, m);
    CongScale(c * inv, 1, b, m);
    CongSym(a * (c * inv), a, m);
    CongTrans(a, a * (c * inv), b * (c * inv), m);
    CongTrans(a, b * (c * inv), b, m);
  }
}
