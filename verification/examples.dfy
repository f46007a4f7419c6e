/** Concrete cases of `Rational`, worked through the model. */
module RationalExamples {
  import opened JavaInt
  import opened GcdLcm
  import opened Decimal
  import opened Rationals

  /** `new Rational(3, -4)` moves the sign to the numerator; the signed `gcd`
      on the way is `-1`. */
  lemma NegativeDenominator()
    ensures Construct(3, -4) == Ok(Rational(-3, 4))
  {
    assert Gcd(3, -4) == -1;
    assert Quot(3, -1) == -3 && Quot(-4, -1) == 4;
  }

  /** `new Rational(6, 8)` is reduced to `3/4`. */
  lemma Reduced()
    ensures Construct(6, 8) == Ok(Rational(3, 4))
  {
    assert Gcd(6, 8) == 2;
    assert Quot(6, 2) == 3 && Quot(8, 2) == 4;
  }

  /** A zero numerator keeps its denominator, even a negative one. */
  lemma ZeroKeepsDenominator()
    ensures Construct(0, -10) == Ok(Rational(0, -10))
  {
  }

  /** `new Rational(1, 0)` throws. */
  lemma ZeroDenominator()
    ensures Construct(1, 0) == IllegalArgument
  {
  }

  /** `1/2 + 1/3` is `5/6`, over the common denominator `lcm(2, 3) == 6`. */
  lemma AddHalfAndThird()
    ensures Plus(Rational(1, 2), Rational(1, 3)) == Ok(Rational(5, 6))
  {
    assert Gcd(2, 3) == 1;
    assert Lcm(2, 3) == 6;
    assert Quot(6, 2) == 3 && Quot(6, 3) == 2;
    assert Gcd(5, 6) == 1;
    assert Quot(5, 1) == 5 && Quot(6, 1) == 6;
  }

  /** `0` has no reciprocal. */
  lemma ReciprocalOfZero()
    ensures ReciprocalOf(Rational(0, 5)) == Arithmetic
  {
  }

  /** The two shapes of `toString`. */
  lemma Printing()
    ensures ToString(Rational(2, 1)) == "2"
    ensures ToString(Rational(0, 7)) == "0"
    ensures ToString(Rational(-2, 3)) == "-2/3"
  {
    assert NatToString(2) == "2";
    assert NatToString(3) == "3";
    assert NatToString(0) == "0";
  }
}
