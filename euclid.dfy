/**
 * The greatest-common-divisor fixture: both operands are made non-negative,
 * then the pair (a, b) is replaced by (b, a % b) until b is zero, and a is
 * the result.
 *
 * The specification side is the divisibility definition of the greatest
 * common divisor (IsGcd); Gcd is the pure recursive Euclidean function and
 * the lemmas below prove that it meets IsGcd.
 */
module Euclid {

  /** Absolute value: the sign normalisation negates a negative operand. */
  function Abs(x: int): (r: nat)
    ensures r == x || r == -x
  {
    if x < 0 then -x else x
  }

  /** d divides x. Zero divides only zero; every d divides zero. */
  predicate Divides(d: nat, x: nat) {
    if d == 0 then x == 0 else x % d == 0
  }

  /**
   * g is the greatest common divisor of a and b: a common divisor that
   * every common divisor divides. This makes the gcd of 0 and 0 equal to 0.
   */
  ghost predicate IsGcd(g: nat, a: nat, b: nat) {
    && Divides(g, a)
    && Divides(g, b)
    && forall d: nat :: Divides(d, a) && Divides(d, b) ==> Divides(d, g)
  }

  /** Euclid's algorithm as a recursive function on naturals. */
  function Gcd(a: nat, b: nat): nat
    decreases b
  {
    if b == 0 then a else Gcd(b, a % b)
  }

  /** A multiple of a positive d leaves no remainder. */
  lemma MultipleModZero(d: nat, k: int)
    requires d > 0
    ensures (d * k) % d == 0
  {
    var m := d * k;
    var t := k - m / d;
    assert m % d == d * t by {
      assert m == d * (m / d) + m % d;
      assert d * k - d * (m / d) == d * (k - m / d);
    }
    if t >= 1 {
      assert false;
    } else if t <= -1 {
      assert false;
    }
  }

  /** A value divisible by a positive d is d times its quotient. */
  lemma DividesQuotient(d: nat, x: nat)
    requires d > 0 && Divides(d, x)
    ensures x == d * (x / d)
  {
  }

  /**
   * One Euclidean step keeps the set of common divisors: for b > 0,
   * d divides a and b exactly when d divides b and a % b.
   */
  lemma {:induction false} CommonDivisorsStep(a: nat, b: nat, d: nat)
    requires b > 0
    ensures Divides(d, a) && Divides(d, b) <==> Divides(d, b) && Divides(d, a % b)
  {
    var q, r := a / b, a % b;
    assert a == q * b + r;
    if d > 0 && Divides(d, b) {
      DividesQuotient(d, b);
      var kb := b / d;
      if Divides(d, a) {
        DividesQuotient(d, a);
        var ka := a / d;
        assert r == d * (ka - q * kb) by {
          assert r == a - q * b;
          assert q * b == q * (d * kb) == d * (q * kb);
        }
        MultipleModZero(d, ka - q * kb);
      }
      if Divides(d, r) {
        DividesQuotient(d, r);
        var kr := r / d;
        assert a == d * (q * kb + kr) by {
          assert q * b == q * (d * kb) == d * (q * kb);
        }
        MultipleModZero(d, q * kb + kr);
      }
    }
  }

  /** Every number divides itself. */
  lemma DividesSelf(a: nat)
    ensures Divides(a, a)
  {
    if a > 0 {
      MultipleModZero(a, 1);
    }
  }

  /** Gcd(a, b) divides both a and b. */
  lemma {:induction false} GcdDividesBoth(a: nat, b: nat)
    ensures Divides(Gcd(a, b), a) && Divides(Gcd(a, b), b)
    decreases b
  {
    if b == 0 {
      DividesSelf(a);
    } else {
      GcdDividesBoth(b, a % b);
      CommonDivisorsStep(a, b, Gcd(a, b));
    }
  }

  /** Every common divisor of a and b divides Gcd(a, b). */
  lemma {:induction false} CommonDivisorDividesGcd(a: nat, b: nat, d: nat)
    requires Divides(d, a) && Divides(d, b)
    ensures Divides(d, Gcd(a, b))
    decreases b
  {
    if b > 0 {
      CommonDivisorsStep(a, b, d);
      CommonDivisorDividesGcd(b, a % b, d);
    }
  }

  /** Gcd meets the divisibility definition of the greatest common divisor. */
  lemma GcdIsGcd(a: nat, b: nat)
    ensures IsGcd(Gcd(a, b), a, b)
  {
    GcdDividesBoth(a, b);
    forall d: nat | Divides(d, a) && Divides(d, b)
      ensures Divides(d, Gcd(a, b))
    {
      CommonDivisorDividesGcd(a, b, d);
    }
  }

  /** A positive number is at least as large as each of its divisors. */
  lemma DivisorIsSmaller(d: nat, x: nat)
    requires x > 0 && Divides(d, x)
    ensures d <= x
  {
    DividesQuotient(d, x);
    var k := x / d;
    assert k >= 1;
    assert d * k == d * (k - 1) + d;
    assert d * (k - 1) >= 0;
  }

  /**
   * Unless both operands are zero, no common divisor exceeds Gcd(a, b):
   * it is the greatest one in the order of the integers too.
   */
  lemma GcdIsGreatest(a: nat, b: nat, d: nat)
    requires a != 0 || b != 0
    requires Divides(d, a) && Divides(d, b)
    ensures 0 < Gcd(a, b) && d <= Gcd(a, b)
  {
    GcdDividesBoth(a, b);
    CommonDivisorDividesGcd(a, b, d);
    DivisorIsSmaller(d, Gcd(a, b));
  }

  /** The divisibility definition determines the gcd uniquely. */
  lemma IsGcdUnique(g1: nat, g2: nat, a: nat, b: nat)
    requires IsGcd(g1, a, b) && IsGcd(g2, a, b)
    ensures g1 == g2
  {
    assert Divides(g1, g2) && Divides(g2, g1);
    if g1 > 0 && g2 > 0 {
      DivisorIsSmaller(g1, g2);
      DivisorIsSmaller(g2, g1);
    }
  }

  /**
   * The fixture's body: sign normalisation, then the remainder loop.
   * The result is the gcd of |div1| and |div2|, so it does not depend on
   * the signs of the inputs.
   */
  method EuclidGcd(div1: int, div2: int) returns (r: int)
    ensures r >= 0
    ensures r == Gcd(Abs(div1), Abs(div2))
    ensures IsGcd(r, Abs(div1), Abs(div2))
    ensures div2 == 0 ==> r == Abs(div1)
  {
    var a := div1;
    var b := div2;
    if a < 0 { a := -a; }
    if b < 0 { b := -b; }
    while b != 0
      invariant a >= 0 && b >= 0
      invariant Gcd(a, b) == Gcd(Abs(div1), Abs(div2))
      decreases b
    {
      var t := a % b;
      a := b;
      b := t;
    }
    r := a;
    GcdIsGcd(Abs(div1), Abs(div2));
  }
}
