# Rational: a verified model of a fraction class

This project models `Rational`, the fraction class of a small rational-number
calculator. An object holds an `int` numerator and a non-zero `int` denominator.
The constructor divides both by their `gcd` and moves any sign onto the
numerator. The arithmetic methods `times`, `plus`, `minus`, `reciprocalOf`
and `dividedBy`, with their static twins `product`, `sum`, `difference` and
`quotient`, build every result through that constructor. `toString` prints
`num/den`, or the bare numerator.

Modules:

- `JavaInt`: Java's truncating `/` and `%` (`Quot`, `Rem`). They are defined on
  top of Dafny's Euclidean operators and characterised uniquely.
- `Divisibility`: divisibility and the greatest common divisor, used as the
  reference definitions.
- `GcdLcm`: `Rational.gcd` and `Rational.lcm` exactly as written, signed
  arguments included.
- `Decimal`: the decimal rendering `"" + n` and a parser that reads it back.
- `Rationals`: the class itself.
  - The fields `num` and `den` stand for the getters.
  - Exceptions become the `Result` values `IllegalArgument` and `Arithmetic`.
  - `Valid` is the invariant every constructed object keeps.
- `RationalLaws`: properties that relate several calls. These are uniqueness of
  the reduced form, inverse pairs of operations and reading `toString` back.
- `RationalExamples`: worked concrete cases.

The value of an object is compared by cross-multiplication (`Denotes`,
`SameValue`), so no second representation of fractions is needed.

A zero numerator is stored with its denominator unreduced and with its sign
kept: `new Rational(0, -10)` holds `(0, -10)`. The model keeps this behaviour.
For that reason `Valid` asks for a positive, coprime denominator only when the
numerator is non-zero. The uniqueness laws (`CanonicalUnique`, `ConstructDependsOnValue`, and the
equal-fields halves of the inverse laws) need a non-zero value.

## Model

| member | source | states |
|---|---|---|
| `JavaInt.Quot` | src/main/java/edu/ucsb/cs56/ratcalc/model/Rational.java:42-43 | Java's `/`: the quotient's magnitude is the largest multiple of the divisor's that fits, and it is negative exactly when the operand signs differ |
| `JavaInt.Rem` | src/main/java/edu/ucsb/cs56/ratcalc/model/Rational.java:26 | Java's `%`: dividend = quotient * divisor + remainder; the remainder is smaller than the divisor in magnitude and never has the opposite sign to the dividend |
| `JavaInt.QuotRemUnique` | src/main/java/edu/ucsb/cs56/ratcalc/model/Rational.java:26 | any decomposition with such a remainder is the one `/` and `%` compute |
| `GcdLcm.Gcd` | src/main/java/edu/ucsb/cs56/ratcalc/model/Rational.java:20-27 | `gcd(a, b)` terminates on all inputs, divides both arguments, and is zero exactly when both are |
| `GcdLcm.GcdZeroArguments` | src/main/java/edu/ucsb/cs56/ratcalc/model/Rational.java:21-24 | the base cases: `gcd(0, b) == b` and `gcd(a, 0) == a` |
| `GcdLcm.GcdGreatest` | src/main/java/edu/ucsb/cs56/ratcalc/model/Rational.java:20-27 | every common divisor of the arguments divides the result |
| `GcdLcm.GcdIsGcd` | src/main/java/edu/ucsb/cs56/ratcalc/model/Rational.java:14-27 | the magnitude of the result is the greatest common divisor, whatever the signs |
| `GcdLcm.GcdNonNegative` | src/main/java/edu/ucsb/cs56/ratcalc/model/Rational.java:20-27 | on non-negative arguments the result is non-negative |
| `GcdLcm.GcdCanBeNegative` | src/main/java/edu/ucsb/cs56/ratcalc/model/Rational.java:20-27 | with signed arguments the result can be negative: `gcd(3, -4) == -1` |
| `GcdLcm.GcdScale` | src/main/java/edu/ucsb/cs56/ratcalc/model/Rational.java:20-27 | multiplying both arguments by `c` multiplies the result by `c` |
| `GcdLcm.GcdOfCofactors` | src/main/java/edu/ucsb/cs56/ratcalc/model/Rational.java:41-43 | dividing both arguments by their `gcd` leaves two numbers whose `gcd` is 1 |
| `GcdLcm.Lcm` | src/main/java/edu/ucsb/cs56/ratcalc/model/Rational.java:103-105 | `lcm(a, b) * gcd(a, b) == a * b`; the result is a multiple of both and zero exactly when one argument is |
| `GcdLcm.LcmLeast` | src/main/java/edu/ucsb/cs56/ratcalc/model/Rational.java:97-105 | for non-zero arguments the result divides every common multiple, so its magnitude is the least one |
| `Rationals.Default` | src/main/java/edu/ucsb/cs56/ratcalc/model/Rational.java:29-32 | `new Rational()` is `1/1` and satisfies the invariant |
| `Rationals.Construct` | src/main/java/edu/ucsb/cs56/ratcalc/model/Rational.java:34-50 | throws `IllegalArgumentException` exactly when the denominator is 0 and never throws otherwise; the object has the value `num/denom`; for a non-zero numerator the denominator is positive and coprime to the numerator; a zero numerator is stored as `(0, denom)` |
| `Rationals.Reduce` | src/main/java/edu/ucsb/cs56/ratcalc/model/Rational.java:40-49 | dividing by the signed `gcd` and then flipping a negative denominator gives a positive, coprime denominator of the same value |
| `Rationals.Times` | src/main/java/edu/ucsb/cs56/ratcalc/model/Rational.java:79-82 | `times` gives a valid object worth the product of the two values |
| `Rationals.Product` | src/main/java/edu/ucsb/cs56/ratcalc/model/Rational.java:91-94 | `product(a, b)` gives the same numerator and denominator as `a.times(b)` |
| `Rationals.Plus` | src/main/java/edu/ucsb/cs56/ratcalc/model/Rational.java:112-114 | `plus` over the `lcm` of the denominators gives a valid object worth `a.num/a.den + b.num/b.den` |
| `Rationals.Sum` | src/main/java/edu/ucsb/cs56/ratcalc/model/Rational.java:122-124 | `sum(a, b)` gives the same numerator and denominator as `a.plus(b)` |
| `Rationals.Minus` | src/main/java/edu/ucsb/cs56/ratcalc/model/Rational.java:131-133 | `minus` gives a valid object worth `a.num/a.den - b.num/b.den` |
| `Rationals.Difference` | src/main/java/edu/ucsb/cs56/ratcalc/model/Rational.java:141-143 | `difference(a, b)` gives the same numerator and denominator as `a.minus(b)` |
| `Rationals.ReciprocalOf` | src/main/java/edu/ucsb/cs56/ratcalc/model/Rational.java:149-155 | throws `ArithmeticException` exactly when the numerator is 0, and otherwise gives a valid object worth `den/num` |
| `Rationals.DividedBy` | src/main/java/edu/ucsb/cs56/ratcalc/model/Rational.java:162-168 | throws `ArithmeticException` exactly when the divisor's numerator is 0, and otherwise gives a valid object worth the quotient of the values |
| `Rationals.Quotient` | src/main/java/edu/ucsb/cs56/ratcalc/model/Rational.java:176-182 | `quotient(a, b)` returns or throws exactly as `a.dividedBy(b)` does |
| `Rationals.ToString` | src/main/java/edu/ucsb/cs56/ratcalc/model/Rational.java:56-60 | the text contains '/' exactly when the denominator is not 1 and the numerator is not 0; otherwise it is the numerator alone |
| `Decimal.IntToString` | src/main/java/edu/ucsb/cs56/ratcalc/model/Rational.java:58-59 | Java's decimal text of an `int`: non-empty, starts with '-' exactly for negatives, and contains no '/' |
| `Decimal.IntRoundTrip` | src/main/java/edu/ucsb/cs56/ratcalc/model/Rational.java:58 | the decimal text of an `int` reads back as that number |
| `RationalLaws.ToStringReadBack` | src/main/java/edu/ucsb/cs56/ratcalc/model/Rational.java:56-60 | reading the printed text back gives the numerator alone, or both the numerator and the denominator |
| `RationalLaws.CanonicalUnique` | src/main/java/edu/ucsb/cs56/ratcalc/model/Rational.java:34-50 | two constructed objects with the same non-zero value have the same numerator and denominator |
| `RationalLaws.ConstructOfValid` | src/main/java/edu/ucsb/cs56/ratcalc/model/Rational.java:34-50 | constructing from an object's own fields gives the same numerator and denominator back, a zero numerator included |
| `RationalLaws.ConstructDependsOnValue` | src/main/java/edu/ucsb/cs56/ratcalc/model/Rational.java:34-50 | for a non-zero numerator, fractions of equal value construct objects with the same numerator and denominator |
| `RationalLaws.TimesIdentity` | src/main/java/edu/ucsb/cs56/ratcalc/model/Rational.java:79-82 | multiplying by `new Rational()` keeps the numerator and denominator, a zero's unreduced denominator included |
| `RationalLaws.MinusSelf` | src/main/java/edu/ucsb/cs56/ratcalc/model/Rational.java:131-133 | `a.minus(a)` has numerator 0 |
| `RationalLaws.PlusThenMinus` | src/main/java/edu/ucsb/cs56/ratcalc/model/Rational.java:112-133 | `a.plus(b).minus(b)` has the value of `a`, and the same numerator and denominator as `a` when `a` is non-zero |
| `RationalLaws.TimesThenDividedBy` | src/main/java/edu/ucsb/cs56/ratcalc/model/Rational.java:162-168 | `a.times(b).dividedBy(b)` has the value of `a`, and the same numerator and denominator as `a` when `a` is non-zero |
| `RationalLaws.ReciprocalInvolution` | src/main/java/edu/ucsb/cs56/ratcalc/model/Rational.java:149-155 | the reciprocal of the reciprocal of a non-zero object has that object's numerator and denominator |
| `RationalLaws.DividedByIsTimesReciprocal` | src/main/java/edu/ucsb/cs56/ratcalc/model/Rational.java:162-168 | `a.dividedBy(b)` has the value of `a.times(b.reciprocalOf())`, and the same numerator and denominator when `a` is non-zero |
| `RationalExamples.NegativeDenominator` | src/main/java/edu/ucsb/cs56/ratcalc/model/Rational.java:40-48 | `new Rational(3, -4)` holds `(-3, 4)` |
| `RationalExamples.Reduced` | src/main/java/edu/ucsb/cs56/ratcalc/model/Rational.java:40-48 | `new Rational(6, 8)` holds `(3, 4)` |
| `RationalExamples.ZeroKeepsDenominator` | src/main/java/edu/ucsb/cs56/ratcalc/model/Rational.java:38-40 | `new Rational(0, -10)` holds `(0, -10)` |
| `RationalExamples.ZeroDenominator` | src/main/java/edu/ucsb/cs56/ratcalc/model/Rational.java:35-37 | `new Rational(1, 0)` throws |
| `RationalExamples.AddHalfAndThird` | src/main/java/edu/ucsb/cs56/ratcalc/model/Rational.java:112-114 | `1/2 plus 1/3` is `5/6` |
| `RationalExamples.ReciprocalOfZero` | src/main/java/edu/ucsb/cs56/ratcalc/model/Rational.java:149-153 | the reciprocal of `0/5` throws |
| `RationalExamples.Printing` | src/main/java/edu/ucsb/cs56/ratcalc/model/Rational.java:56-60 | `2/1` prints as `2`, `0/7` as `0`, `-2/3` as `-2/3` |

## Left out

- Integer width: Java `int` arithmetic wraps at 32 bits. Products such as `this.num * r.num` and `lcm` of large denominators can overflow. So can the division by `gcd` at lines 42-43 and the sign flip at lines 46-47: in Java, `new Rational(1, Integer.MIN_VALUE)` ends as `(-1, Integer.MIN_VALUE)`, because `-Integer.MIN_VALUE` wraps, and its denominator stays negative. Here integers are unbounded, so every result is the mathematically exact one and that case is not reproduced.
- `GcdLcm.Lcm`: requires one argument to be non-zero. `lcm(0, 0)` divides by `gcd(0, 0) == 0` and throws `ArithmeticException`, which is not modelled. The class only calls `lcm` on denominators, which are never 0.
- The operations `Times`, `Plus`, `Minus`, `ReciprocalOf`, `DividedBy` and their twins require non-zero denominators of their operands. That is part of the invariant every constructed object has.
- `main` (lines 189-193): it only prints two getters to the console.
- Exception messages are not modelled; only which exception is thrown.
- `getNumerator` and `getDenominator` are the datatype fields `num` and `den`.
- Object identity and the inherited `Object.equals` are not modelled: every operation returns a fresh object, and `Rational` does not override `equals`. Datatype `==` here stands for equal `getNumerator` and `getDenominator`.
