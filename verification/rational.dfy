/** The immutable value class `Rational`
    (src/main/java/edu/ucsb/cs56/ratcalc/model/Rational.java): a numerator and
    a denominator, a normalising constructor, and arithmetic that builds every
    result through that constructor. Integers are unbounded here; the 32-bit
    overflow of the Java fields is not modelled. */
module Rationals {
  import opened JavaInt
  import opened Divisibility
  import opened GcdLcm
  import opened Decimal

  /** A `Rational` object: its two `int` fields. The getters `getNumerator`
      and `getDenominator` are the fields `num` and `den`, and `==` on this
      datatype means equal numerators and denominators, not the same object. */
  datatype Rational = Rational(num: int, den: int)

  /** What a call gives back: the value returned, or the exception thrown
      (`IllegalArgumentException` or `ArithmeticException`). */
  datatype Result = Ok(value: Rational) | IllegalArgument | Arithmetic

  /** What every constructed object satisfies. A non-zero value is fully
      reduced with a positive denominator; a zero numerator keeps whatever
      non-zero denominator it was built with. */
  predicate Valid(r: Rational) {
    r.den != 0 && (r.num != 0 ==> r.den > 0 && Gcd(Abs(r.num), r.den) == 1)
  }

  /** `r` stands for the fraction `n / d`: equal by cross-multiplication. */
  ghost predicate Denotes(r: Rational, n: int, d: int) {
    r.num * d == n * r.den
  }

  /** `x` and `y` stand for the same fraction. */
  ghost predicate SameValue(x: Rational, y: Rational) {
    Denotes(x, y.num, y.den)
  }

  /** `new Rational()`: the value 1. */
  function Default(): (r: Rational)
    ensures Valid(r) && r.num == 1 && r.den == 1
  {
    Rational(1, 1)
  }

  /** `new Rational(num, denom)`. A zero denominator throws; a zero numerator
      is stored as given; anything else is divided by the signed `gcd` and then
      has a negative sign moved from the denominator to the numerator. */
  function Construct(num: int, denom: int): (r: Result)
    ensures r.IllegalArgument? <==> denom == 0
    ensures !r.Arithmetic?
    ensures r.Ok? ==> Valid(r.value) && Denotes(r.value, num, denom)
    ensures num != 0 && denom != 0 ==>
      r.value.den > 0 && Gcd(Abs(r.value.num), r.value.den) == 1
    ensures num == 0 && denom != 0 ==> r == Ok(Rational(0, denom))
  {
    if denom == 0 then IllegalArgument
    else if num == 0 then Ok(Rational(0, denom))
    else Ok(Reduce(num, denom))
  }

  /** The reduction step of the constructor for a non-zero numerator. The
      `gcd` of signed arguments may be negative, so the quotients may leave the
      denominator negative; only the final sign flip makes it positive. */
  function Reduce(num: int, denom: int): (r: Rational)
    requires num != 0 && denom != 0
    ensures r.den > 0 && r.num != 0 && Gcd(Abs(r.num), r.den) == 1
    ensures Denotes(r, num, denom)
  {
    var g := Gcd(num, denom);
    var n, d := Quot(num, g), Quot(denom, g);
    ReduceFacts(num, denom, g, n, d);
    SignFix(num, denom, n, d);
    if d < 0 then Rational(-n, -d) else Rational(n, d)
  }

  /** Moving a negative sign from the denominator to the numerator keeps the
      value and the reduced form. */
  lemma SignFix(num: int, denom: int, n: int, d: int)
    requires n != 0 && d != 0 && n * denom == num * d
    requires Gcd(Abs(n), Abs(d)) == 1
    ensures var r := if d < 0 then Rational(-n, -d) else Rational(n, d);
      r.den > 0 && r.num != 0 && Gcd(Abs(r.num), r.den) == 1 && Denotes(r, num, denom)
  {
    NegateBoth(num, denom, n, d);
    if d < 0 {
      assert Abs(-n) == Abs(n) && -d == Abs(d);
    } else {
      assert d == Abs(d);
    }
  }

  lemma NegateBoth(num: int, denom: int, n: int, d: int)
    requires n * denom == num * d
    ensures (-n) * denom == num * (-d)
  {
  }

  lemma ReduceFacts(num: int, denom: int, g: int, n: int, d: int)
    requires num != 0 && denom != 0
    requires g == Gcd(num, denom) && g != 0
    requires n == Quot(num, g) && d == Quot(denom, g)
    ensures n != 0 && d != 0
    ensures n * denom == num * d
    ensures Gcd(Abs(n), Abs(d)) == 1
  {
    ExactQuot(num, g, Cofactor(g, num));
    ExactQuot(denom, g, Cofactor(g, denom));
    GcdOfCofactors(num, denom);
    assert Gcd(n, d) == 1;
    CrossOfCofactors(num, denom, g, n, d);
    var h := Gcd(Abs(n), Abs(d));
    GcdNonNegative(Abs(n), Abs(d));
    DividesAbs(h, n);
    DividesAbs(h, d);
    GcdGreatest(n, d, h);
    DividesBound(h, 1);
  }

  lemma CrossOfCofactors(num: int, denom: int, g: int, n: int, d: int)
    requires num == g * n && denom == g * d && num != 0 && denom != 0
    ensures n != 0 && d != 0
    ensures n * denom == num * d
  {
    MulSign(g, n);
    MulSign(g, d);
  }

  /** `a.times(b)`: the product of the numerators over the product of the
      denominators, through the constructor. */
  function Times(a: Rational, b: Rational): (r: Result)
    requires a.den != 0 && b.den != 0
    ensures r.Ok? && Valid(r.value)
    ensures Denotes(r.value, a.num * b.num, a.den * b.den)
  {
    MulSign(a.den, b.den);
    Construct(a.num * b.num, a.den * b.den)
  }

  /** `Rational.product(a, b)`: the static twin of `times`. */
  function Product(a: Rational, b: Rational): (r: Result)
    requires a.den != 0 && b.den != 0
    ensures r == Times(a, b)
  {
    Construct(a.num * b.num, a.den * b.den)
  }

  /** `a.plus(b)`: both fractions brought to the denominator `lcm(a.den, b.den)`
      and their numerators added, through the constructor. */
  function Plus(a: Rational, b: Rational): (r: Result)
    requires a.den != 0 && b.den != 0
    ensures r.Ok? && Valid(r.value)
    ensures Denotes(r.value, a.num * b.den + b.num * a.den, a.den * b.den)
  {
    var l := Lcm(a.den, b.den);
    var k1, k2 := Quot(l, a.den), Quot(l, b.den);
    var r := Construct(k1 * a.num + k2 * b.num, l);
    ScaledFacts(a.den, b.den, l, k1, k2);
    CommonDenominator(a.num, a.den, b.num, b.den, l, k1, k2, r.value.num, r.value.den);
    r
  }

  /** `Rational.sum(a, b)`: the static twin of `plus`. */
  function Sum(a: Rational, b: Rational): (r: Result)
    requires a.den != 0 && b.den != 0
    ensures r == Plus(a, b)
  {
    Construct(Quot(Lcm(a.den, b.den), a.den) * a.num + Quot(Lcm(a.den, b.den), b.den) * b.num,
              Lcm(a.den, b.den))
  }

  /** `a.minus(b)`: as `plus`, subtracting the second scaled numerator. */
  function Minus(a: Rational, b: Rational): (r: Result)
    requires a.den != 0 && b.den != 0
    ensures r.Ok? && Valid(r.value)
    ensures Denotes(r.value, a.num * b.den - b.num * a.den, a.den * b.den)
  {
    var l := Lcm(a.den, b.den);
    var k1, k2 := Quot(l, a.den), Quot(l, b.den);
    var r := Construct(k1 * a.num - k2 * b.num, l);
    ScaledFacts(a.den, b.den, l, k1, k2);
    NegateSecond(k1, a.num, k2, b.num, a.den);
    CommonDenominator(a.num, a.den, -b.num, b.den, l, k1, k2, r.value.num, r.value.den);
    r
  }

  /** `Rational.difference(a, b)`: the static twin of `minus`. */
  function Difference(a: Rational, b: Rational): (r: Result)
    requires a.den != 0 && b.den != 0
    ensures r == Minus(a, b)
  {
    Construct(Quot(Lcm(a.den, b.den), a.den) * a.num - Quot(Lcm(a.den, b.den), b.den) * b.num,
              Lcm(a.den, b.den))
  }

  lemma NegateSecond(k1: int, n1: int, k2: int, n2: int, d1: int)
    ensures k1 * n1 - k2 * n2 == k1 * n1 + k2 * -n2
    ensures -n2 * d1 == -(n2 * d1)
  {
  }

  /** The common denominator is a non-zero multiple of both denominators. */
  lemma ScaledFacts(d1: int, d2: int, l: int, k1: int, k2: int)
    requires d1 != 0 && d2 != 0 && l == Lcm(d1, d2)
    requires k1 == Quot(l, d1) && k2 == Quot(l, d2)
    ensures l != 0 && l == d1 * k1 && l == d2 * k2
  {
    ExactQuot(l, d1, Cofactor(d1, l));
    ExactQuot(l, d2, Cofactor(d2, l));
  }

  /** Adding over a common denominator `l` gives the same fraction as adding
      over the product of the denominators. */
  lemma CommonDenominator(n1: int, d1: int, n2: int, d2: int, l: int, k1: int, k2: int, x: int, y: int)
    requires l != 0 && l == d1 * k1 && l == d2 * k2
    requires x * l == (k1 * n1 + k2 * n2) * y
    ensures x * (d1 * d2) == (n1 * d2 + n2 * d1) * y
  {
    var m := n1 * d2 + n2 * d1;
    ScaleTerm(k1, n1, d1, d2, l);
    ScaleTerm(k2, n2, d2, d1, l);
    assert (k1 * n1 + k2 * n2) * (d1 * d2) == l * m by {
      assert d2 * d1 == d1 * d2;
    }
    SwapScale(x, l, k1 * n1 + k2 * n2, y, d1 * d2, m);
    MulCancel(l, x * (d1 * d2), m * y);
  }

  lemma ScaleTerm(k: int, n: int, d: int, e: int, l: int)
    requires l == d * k
    ensures k * n * (d * e) == l * (n * e)
  {
  }

  lemma SwapScale(x: int, l: int, s: int, y: int, p: int, m: int)
    requires x * l == s * y && s * p == l * m
    ensures l * (x * p) == l * (m * y)
  {
    assert l * (x * p) == (x * l) * p;
    assert (s * y) * p == (s * p) * y;
  }

  /** `a.reciprocalOf()`: throws on a zero numerator, otherwise constructs
      `den / num`. */
  function ReciprocalOf(a: Rational): (r: Result)
    requires a.den != 0
    ensures r.Arithmetic? <==> a.num == 0
    ensures a.num != 0 ==> r.Ok? && Valid(r.value) && Denotes(r.value, a.den, a.num)
  {
    if a.num == 0 then Arithmetic else Construct(a.den, a.num)
  }

  /** `a.dividedBy(b)`: throws when `b` is zero, otherwise multiplies by `b`
      turned upside down. */
  function DividedBy(a: Rational, b: Rational): (r: Result)
    requires a.den != 0 && b.den != 0
    ensures r.Arithmetic? <==> b.num == 0
    ensures b.num != 0 ==> r.Ok? && Valid(r.value) && Denotes(r.value, a.num * b.den, a.den * b.num)
  {
    if b.num == 0 then Arithmetic
    else
      MulSign(a.den, b.num);
      Construct(a.num * b.den, a.den * b.num)
  }

  /** `Rational.quotient(a, b)`: the static twin of `dividedBy`. */
  function Quotient(a: Rational, b: Rational): (r: Result)
    requires a.den != 0 && b.den != 0
    ensures r == DividedBy(a, b)
  {
    if b.num == 0 then Arithmetic else Construct(a.num * b.den, a.den * b.num)
  }

  /** Whether `toString` prints the numerator alone. */
  predicate PrintsBare(r: Rational) {
    r.den == 1 || r.num == 0
  }

  /** `r.toString()`: the numerator alone when the denominator is 1 or the
      numerator is 0, otherwise `num/den`. */
  function ToString(r: Rational): (s: string)
    ensures ('/' in s) <==> !PrintsBare(r)
    ensures PrintsBare(r) ==> s == IntToString(r.num)
  {
    if PrintsBare(r) then IntToString(r.num)
    else IntToString(r.num) + "/" + IntToString(r.den)
  }
}
