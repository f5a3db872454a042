/**
 * The greatest-common-divisor fixture on 32-bit two's-complement `int`, as
 * the C code is written: negation is taken as a wrapping two's-complement
 * target computes it (the most negative value maps to itself), and `%`
 * truncates toward zero (the remainder takes the sign of the dividend).
 * This shows where the 32-bit program departs from Euclid.EuclidGcd.
 */
module EuclidInt32 {
  import Euclid

  const IntMin: int := -0x8000_0000

  /** The values of a 32-bit `int`. */
  predicate IsInt32(x: int) {
    IntMin <= x < 0x8000_0000
  }

  /**
   * `-x` on a 32-bit `int` as a wrapping two's-complement target computes
   * it: the 32-bit value congruent to -x modulo 2^32.
   */
  function WrapNeg(x: int): (r: int)
    requires IsInt32(x)
    ensures IsInt32(r)
    ensures (x + r) % 0x1_0000_0000 == 0
    ensures x != IntMin ==> r == -x
    ensures x == IntMin ==> r == IntMin
  {
    if x == IntMin then IntMin else -x
  }

  /**
   * Two's-complement negation is determined by its congruence: no other
   * 32-bit value is congruent to -x modulo 2^32, and it keeps the absolute
   * value (|IntMin| = 2^31 too).
   */
  lemma WrapNegUnique(x: int, r: int)
    requires IsInt32(x) && IsInt32(r)
    requires (x + r) % 0x1_0000_0000 == 0
    ensures r == WrapNeg(x)
    ensures Euclid.Abs(r) == Euclid.Abs(x)
  {
  }

  /**
   * C's `x % y`: the remainder of the quotient truncated toward zero, so it
   * has the sign of x and is smaller than y in absolute value.
   */
  function CRem(x: int, y: int): (r: int)
    requires y != 0
    ensures Euclid.Abs(r) < Euclid.Abs(y)
    ensures Euclid.Abs(r) == Euclid.Abs(x) % Euclid.Abs(y)
    ensures x >= 0 ==> r == x % Euclid.Abs(y)
    ensures x < 0 ==> r <= 0
  {
    var m := Euclid.Abs(x) % Euclid.Abs(y);
    if x < 0 then -m else m
  }

  /** x and C's x % y differ by a multiple of y, as for a true remainder. */
  lemma CRemIsRemainder(x: int, y: int)
    requires y != 0
    ensures (x - CRem(x, y)) % Euclid.Abs(y) == 0
  {
    var ay := Euclid.Abs(y);
    var q := Euclid.Abs(x) / ay;
    assert Euclid.Abs(x) == ay * q + Euclid.Abs(x) % ay;
    if x < 0 {
      assert x - CRem(x, y) == ay * -q;
      Euclid.MultipleModZero(ay, -q);
    } else {
      assert x - CRem(x, y) == ay * q;
      Euclid.MultipleModZero(ay, q);
    }
  }

  /**
   * The remainder loop: while b is not zero, (a, b) becomes (b, a % b).
   * Whatever the signs of the operands, the result is the gcd of their
   * absolute values up to sign, and on 32-bit operands every value the
   * loop computes fits in 32 bits.
   */
  function RemainderLoop(a: int, b: int): (r: int)
    ensures IsInt32(a) && IsInt32(b) ==> IsInt32(r)
    ensures Euclid.Abs(r) == Euclid.Gcd(Euclid.Abs(a), Euclid.Abs(b))
    decreases Euclid.Abs(b)
  {
    if b == 0 then a else RemainderLoop(b, CRem(a, b))
  }

  /**
   * The fixture as written, on 32-bit inputs. On every input its absolute
   * value is the gcd of |div1| and |div2|: the program can go wrong only in
   * the sign of the stored value.
   */
  function GcdAsWritten(div1: int, div2: int): (r: int)
    requires IsInt32(div1) && IsInt32(div2)
    ensures IsInt32(r)
    ensures Euclid.Abs(r) == Euclid.Gcd(Euclid.Abs(div1), Euclid.Abs(div2))
  {
    var a := if div1 < 0 then WrapNeg(div1) else div1;
    var b := if div2 < 0 then WrapNeg(div2) else div2;
    RemainderLoop(a, b)
  }

  /**
   * Without the most negative value the sign normalisation works, the loop
   * sees only non-negative operands, C's `%` agrees with Dafny's, and the
   * program computes the mathematical gcd.
   */
  lemma {:induction false} AsWrittenAgreesAwayFromIntMin(div1: int, div2: int)
    requires IsInt32(div1) && IsInt32(div2)
    requires div1 != IntMin && div2 != IntMin
    ensures GcdAsWritten(div1, div2) == Euclid.Gcd(Euclid.Abs(div1), Euclid.Abs(div2))
  {
    RemainderLoopOnNaturals(Euclid.Abs(div1), Euclid.Abs(div2));
  }

  /** On non-negative operands the loop is Euclid's recursion. */
  lemma {:induction false} RemainderLoopOnNaturals(a: nat, b: nat)
    ensures RemainderLoop(a, b) == Euclid.Gcd(a, b)
    decreases b
  {
    if b != 0 {
      RemainderLoopOnNaturals(b, a % b);
    }
  }

  /**
   * With either operand the most negative `int`, its negation stays
   * negative and so can the result: -2^31 for (IntMin, 0), -2 for
   * (IntMin, 6) and for (6, IntMin), where the greatest common divisors are
   * 2^31 and 2.
   */
  lemma AsWrittenNegativeAtIntMin()
    ensures GcdAsWritten(IntMin, 0) == IntMin
    ensures GcdAsWritten(IntMin, 6) == -2
    ensures GcdAsWritten(6, IntMin) == -2
    ensures Euclid.Gcd(Euclid.Abs(IntMin), 6) == 2
  {
    assert CRem(IntMin, 6) == -2;
    assert CRem(6, -2) == 0;
    assert RemainderLoop(IntMin, 6) == RemainderLoop(6, -2) == RemainderLoop(-2, 0) == -2;
    assert CRem(6, IntMin) == 6;
    assert RemainderLoop(6, IntMin) == RemainderLoop(IntMin, 6);
  }
}
