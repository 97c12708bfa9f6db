/** The binary GCD on exact integers: what zint_bezout follows when its top words hold the whole numbers. */
module BinaryGcd {
  import opened Words
  import opened Congruence

  /** One step: halve a if it is even, else b if it is even, else the halved difference replaces the larger. */
  ghost function GcdStep(a: nat, b: nat): (nat, nat) {
    if a % 2 == 0 then (a / 2, b)
    else if b % 2 == 0 then (a, b / 2)
    else if a > b then ((a - b) / 2, b)
    else (a, (b - a) / 2)
  }

  ghost function Steps(a: nat, b: nat, n: nat): (nat, nat) {
    if n == 0 then (a, b) else
    var r := Steps(a, b, n - 1);
    GcdStep(r.0, r.1)
  }

  lemma {:induction false} StepsAdd(a: nat, b: nat, m: nat, n: nat)
    ensures var r := Steps(a, b, m); Steps(a, b, m + n) == Steps(r.0, r.1, n)
  {
    hide GcdStep;
    if n > 0 {
      StepsAdd(a, b, m, n - 1);
      assert m + n - 1 == m + (n - 1);
    }
  }

  // ---------------------------------------------------------------------
  // Common divisors
  // ---------------------------------------------------------------------

  ghost predicate Common(d: nat, a: int, b: int) {
    d > 0 && a % d == 0 && b % d == 0
  }

  /** No number above one divides both. */
  ghost predicate Coprime(a: int, b: int) {
    forall d: nat :: d > 1 ==> !Common(d, a, b)
  }

  /** An odd divisor of 2a divides a. */
  lemma HalfDivides(d: nat, a: int)
    requires d % 2 == 1 && (2 * a) % d == 0
    ensures a % d == 0
  {
    var q := 2 * a / d;
    assert 2 * a == d * q;
    OddFactor(d, q, a);
    var h := q / 2;
    assert d * (2 * h) == 2 * (d * h);
    MultipleMod(d, h);
  }

  lemma OddFactor(d: int, q: int, a: int)
    requires d % 2 == 1 && d * q == 2 * a
    ensures q % 2 == 0
  {
    var k, h := d / 2, q / 2;
    assert d * q == 2 * (k * q + h) + q % 2 by {
      assert (2 * k + 1) * q == 2 * (k * q) + q;
    }
  }

  lemma DivideSum(d: nat, a: int, b: int)
    requires d > 0 && a % d == 0 && b % d == 0
    ensures (a + b) % d == 0 && (a - b) % d == 0
  {
    var p, q := a / d, b / d;
    assert a == d * p && b == d * q;
    assert d * (p + q) == d * p + d * q && d * (p - q) == d * p - d * q;
    MultipleMod(d, p + q);
    MultipleMod(d, p - q);
  }

  lemma TwiceDivides(d: nat, a: int)
    requires d > 0 && a % d == 0
    ensures (2 * a) % d == 0
  {
    DivideSum(d, a, a);
  }

  lemma StepDivisors(d: nat, a: nat, b: nat)
    requires d % 2 == 1
    ensures var r := GcdStep(a, b); Common(d, a, b) <==> Common(d, r.0, r.1)
  {
    if a % 2 == 0 {
      HalfStep(d, a / 2);
    } else if b % 2 == 0 {
      HalfStep(d, b / 2);
    } else if a > b {
      DifferenceStep(d, a, b);
    } else {
      DifferenceStep(d, b, a);
    }
  }

  lemma HalfStep(d: nat, h: int)
    requires d % 2 == 1
    ensures (2 * h) % d == 0 <==> h % d == 0
  {
    if h % d == 0 {
      TwiceDivides(d, h);
    }
    if (2 * h) % d == 0 {
      HalfDivides(d, h);
    }
  }

  /** With b also divisible. */
  lemma DifferenceStep(d: nat, a: nat, b: nat)
    requires d % 2 == 1 && a % 2 == 1 && b % 2 == 1
    ensures b % d == 0 ==> (a % d == 0 <==> ((a - b) / 2) % d == 0)
  {
    var h := (a - b) / 2;
    assert 2 * h == a - b;
    HalfStep(d, h);
    if b % d == 0 && a % d == 0 {
      DivideSum(d, a, b);
    }
    if b % d == 0 && (2 * h) % d == 0 {
      DivideSum(d, 2 * h, b);
    }
  }

  lemma {:induction false} StepsDivisors(d: nat, a: nat, b: nat, n: nat)
    requires d % 2 == 1
    ensures var r := Steps(a, b, n); Common(d, a, b) <==> Common(d, r.0, r.1)
  {
    hide GcdStep, Common;
    if n > 0 {
      StepsDivisors(d, a, b, n - 1);
      var r := Steps(a, b, n - 1);
      StepDivisors(d, r.0, r.1);
    }
  }

  // ---------------------------------------------------------------------
  // Progress
  // ---------------------------------------------------------------------

  /** a stays positive, one of the two stays odd, and their product at least halves. */
  lemma StepShrinks(a: nat, b: nat)
    requires a > 0 && (a % 2 == 1 || b % 2 == 1)
    ensures var r := GcdStep(a, b); r.0 > 0 && (r.0 % 2 == 1 || r.1 % 2 == 1) && 2 * (r.0 * r.1) <= a * b
    ensures GcdStep(a, b).0 <= a && GcdStep(a, b).1 <= b
  {
    if a % 2 == 0 {
      HalvedFactor(a / 2, a, b);
    } else if b % 2 == 0 {
      HalvedFactor(b / 2, b, a);
    } else if a > b {
      HalvedFactor((a - b) / 2, a, b);
    } else {
      HalvedFactor((b - a) / 2, b, a);
    }
  }

  lemma HalvedFactor(h: nat, a: nat, b: nat)
    requires 2 * h <= a
    ensures 2 * (h * b) <= a * b && 2 * (b * h) <= b * a
  {
    MulMono(2 * h, a, b);
    assert (2 * h) * b == 2 * (h * b);
  }

  lemma {:induction false} StepsShrink(a: nat, b: nat, n: nat)
    requires a > 0 && (a % 2 == 1 || b % 2 == 1)
    ensures var r := Steps(a, b, n); r.0 > 0 && (r.0 % 2 == 1 || r.1 % 2 == 1) && Pow2(n) * (r.0 * r.1) <= a * b
    ensures Steps(a, b, n).0 <= a && Steps(a, b, n).1 <= b
  {
    hide GcdStep;
    if n > 0 {
      StepsShrink(a, b, n - 1);
      var r := Steps(a, b, n - 1);
      StepShrinks(r.0, r.1);
      var t := Steps(a, b, n);
      var m := Pow2(n - 1);
      MulMono(2 * (t.0 * t.1), r.0 * r.1, m);
      assert Pow2(n) * (t.0 * t.1) == m * (2 * (t.0 * t.1)) by { MulAssoc(m, 2, t.0 * t.1); }
    }
  }

  /** After enough steps b is zero, and a is one exactly when the numbers are coprime. */
  lemma StepsEnd(a: nat, b: nat, n: nat)
    requires a % 2 == 1 && b % 2 == 1 && a * b < Pow2(n)
    ensures Steps(a, b, n).1 == 0 && (Steps(a, b, n).0 == 1 <==> Coprime(a, b))
  {
    hide Steps;
    StepsShrink(a, b, n);
    var g, z := Steps(a, b, n).0, Steps(a, b, n).1;
    if z > 0 {
      MulPos(g, z);
      MulMono(1, g * z, Pow2(n));
      assert false;
    }
    EndsCoprime(a, b, n, g);
  }

  lemma EndsCoprime(a: nat, b: nat, n: nat, g: nat)
    requires a % 2 == 1 && Steps(a, b, n) == (g, 0) && g % 2 == 1
    ensures g == 1 <==> Coprime(a, b)
  {
    hide Steps;
    if g == 1 {
      forall d: nat | d > 1
        ensures !Common(d, a, b)
      {
        if d % 2 == 1 {
          StepsDivisors(d, a, b, n);
          assert 1 % d == 1;
        } else {
          EvenDivisor(d, a);
        }
      }
    } else {
      StepsDivisors(g, a, b, n);
      assert Common(g, g, 0);
      assert Common(g, a, b) && g > 1;
    }
  }

  lemma EvenDivisor(d: nat, a: nat)
    requires d > 0 && d % 2 == 0 && a % 2 == 1
    ensures a % d != 0
  {
    var q, h := a / d, d / 2;
    assert a == d * q + a % d;
    assert (2 * h) * q == 2 * (h * q);
  }
}
