/** The static helpers `Rational.gcd` and `Rational.lcm`
    (src/main/java/edu/ucsb/cs56/ratcalc/model/Rational.java). */
module GcdLcm {
  import opened JavaInt
  import opened Divisibility

  /** `Rational.gcd` as written: Euclid's algorithm with Java's truncating
      remainder, applied to signed arguments. The result is a common divisor,
      and is zero only when both arguments are; its sign is whatever the
      recursion leaves, so it can be negative (`Gcd(3, -4) == -1`). The
      recursion ends on every input because the first argument shrinks in
      magnitude at each step. */
  function Gcd(a: int, b: int): (g: int)
    ensures Divides(g, a) && Divides(g, b)
    ensures g == 0 <==> a == 0 && b == 0
    decreases Abs(a)
  {
    if a == 0 then
      DividesZeroAndSelf(b);
      b
    else if b == 0 then
      DividesZeroAndSelf(a);
      a
    else
      var q, r := Quot(b, a), Rem(b, a);
      var g := Gcd(r, a);
      DividesCombination(g, a, r, q, 1, b);
      g
  }

  lemma DividesZeroAndSelf(d: int)
    ensures Divides(d, 0) && Divides(d, d)
  {
    DividesByWitness(d, 0, 0);
    DividesByWitness(d, d, 1);
  }

  /** The two base cases of the recursion. */
  lemma GcdZeroArguments(a: int, b: int)
    ensures Gcd(0, b) == b
    ensures Gcd(a, 0) == a
  {
  }

  /** Every common divisor of `a` and `b` divides `Gcd(a, b)`. */
  lemma {:induction false} GcdGreatest(a: int, b: int, d: int)
    requires Divides(d, a) && Divides(d, b)
    ensures Divides(d, Gcd(a, b))
    decreases Abs(a)
  {
    if a != 0 && b != 0 {
      DividesCombination(d, b, a, 1, -Quot(b, a), Rem(b, a));
      GcdGreatest(Rem(b, a), a, d);
    }
  }

  /** Whatever the signs of the arguments, the magnitude of `Gcd(a, b)` is
      their greatest common divisor. */
  lemma GcdIsGcd(a: int, b: int)
    ensures IsGcd(Abs(Gcd(a, b)), a, b)
  {
    var g := Gcd(a, b);
    DividesNegate(g, a);
    DividesNegate(g, b);
    forall d | Divides(d, a) && Divides(d, b)
      ensures Divides(d, Abs(g))
    {
      GcdGreatest(a, b, d);
      DividesAbs(d, g);
    }
  }

  /** On non-negative arguments the remainders stay non-negative, and so does
      the result. */
  lemma {:induction false} GcdNonNegative(a: int, b: int)
    requires a >= 0 && b >= 0
    ensures Gcd(a, b) >= 0
    decreases a
  {
    if a != 0 && b != 0 {
      GcdNonNegative(Rem(b, a), a);
    }
  }

  /** The one example where the sign shows: `gcd(3, -4)` is `-1`. */
  lemma GcdCanBeNegative()
    ensures Gcd(3, -4) == -1
  {
  }

  /** Scaling both arguments scales the result, sign included. */
  lemma {:induction false} GcdScale(a: int, b: int, c: int)
    ensures Gcd(a * c, b * c) == Gcd(a, b) * c
    decreases Abs(a)
  {
    MulSign(a, c);
    MulSign(b, c);
    if c != 0 && a != 0 && b != 0 {
      RemScale(b, a, c);
      GcdScale(Rem(b, a), a, c);
    }
  }

  /** `GcdScale` for arguments already known to be multiples. */
  lemma GcdOfMultiples(a: int, b: int, a1: int, b1: int, c: int)
    requires a == a1 * c && b == b1 * c
    ensures Gcd(a, b) == Gcd(a1, b1) * c
  {
    GcdScale(a1, b1, c);
  }

  /** Dividing out `Gcd(a, b)` leaves two numbers whose `Gcd` is 1. */
  lemma GcdOfCofactors(a: int, b: int)
    requires a != 0 || b != 0
    ensures Gcd(Cofactor(Gcd(a, b), a), Cofactor(Gcd(a, b), b)) == 1
  {
    var g := Gcd(a, b);
    var a1, b1 := Cofactor(g, a), Cofactor(g, b);
    GcdOfMultiples(a, b, a1, b1, g);
    UnitFactor(g, Gcd(a1, b1));
  }

  lemma UnitFactor(g: int, h: int)
    requires g != 0 && g == h * g
    ensures h == 1
  {
    MulCancel(g, 1, h);
  }

  lemma MulCancel(g: int, u: int, v: int)
    requires g != 0 && g * u == g * v
    ensures u == v
  {
    assert g * (u - v) == 0;
    MulSign(g, u - v);
  }

  /** Euclid's lemma: a divisor of `p * x` that shares no factor with `p`
      divides `x`. */
  lemma EuclidLemma(c: int, p: int, x: int)
    requires Divides(c, p * x) && Abs(Gcd(p, c)) == 1
    ensures Divides(c, x)
  {
    DividesZeroAndSelf(c);
    DividesMultiple(c, c, x);
    GcdGreatest(p * x, c * x, c);
    GcdOfMultiples(p * x, c * x, p, c, x);
    DividesUnitMultiple(c, Gcd(p * x, c * x), Gcd(p, c), x);
  }

  lemma DividesUnitMultiple(c: int, n: int, h: int, x: int)
    requires Divides(c, n) && n == h * x && (h == 1 || h == -1)
    ensures Divides(c, x)
  {
    if h == -1 {
      assert n == -x;
      DividesNegate(c, x);
    }
  }

  /** `Rational.lcm` as written: `a * (b / gcd(a, b))` with Java's division.
      The source divides by zero when both arguments are zero. */
  function Lcm(a: int, b: int): (l: int)
    requires a != 0 || b != 0
    ensures l * Gcd(a, b) == a * b
    ensures Divides(a, l) && Divides(b, l)
    ensures l == 0 <==> a == 0 || b == 0
  {
    LcmFacts(a, b, Gcd(a, b));
    a * Quot(b, Gcd(a, b))
  }

  lemma LcmFacts(a: int, b: int, g: int)
    requires g == Gcd(a, b) && g != 0
    ensures var l := a * Quot(b, g);
      && l * g == a * b
      && Divides(a, l) && Divides(b, l)
      && (l == 0 <==> a == 0 || b == 0)
  {
    var j, k := Cofactor(g, a), Cofactor(g, b);
    ExactQuot(b, g, k);
    LcmAlgebra(a, b, g, j, k);
    DividesByWitness(a, a * k, k);
    DividesByWitness(b, a * k, j);
    MulSign(a, k);
  }

  lemma LcmAlgebra(a: int, b: int, g: int, j: int, k: int)
    requires a == g * j && b == g * k
    ensures a * k * g == a * b
    ensures a * k == b * j
    ensures b == 0 <==> g == 0 || k == 0
  {
    MulSign(g, k);
  }

  /** `Lcm(a, b)` divides every common multiple of `a` and `b`, so its
      magnitude is the least common multiple. */
  lemma LcmLeast(a: int, b: int, m: int)
    requires a != 0 && b != 0
    requires Divides(a, m) && Divides(b, m)
    ensures Divides(Lcm(a, b), m)
    ensures m != 0 ==> Abs(Lcm(a, b)) <= Abs(m)
  {
    var g := Gcd(a, b);
    var a1, b1 := Cofactor(g, a), Cofactor(g, b);
    GcdOfCofactors(a, b);
    var x := Cofactor(a, m);
    // b1 * g divides (a1 * x) * g, so b1 divides a1 * x, hence x.
    LeastAlgebra1(a, g, a1, m, x);
    assert b == b1 * g;
    DividesCancel(g, b1, a1 * x);
    EuclidLemma(b1, a1, x);
    var y := Cofactor(b1, x);
    ExactQuot(b, g, b1);
    var l := Lcm(a, b);
    assert l == a * b1;
    LeastAlgebra2(a, b1, x, y, m);
    DividesByWitness(l, m, y);
    if m != 0 {
      DividesBound(l, m);
    }
  }

  lemma LeastAlgebra1(a: int, g: int, a1: int, m: int, x: int)
    requires a == g * a1 && m == a * x
    ensures m == (a1 * x) * g
  {
  }

  lemma LeastAlgebra2(a: int, b1: int, x: int, y: int, m: int)
    requires m == a * x && x == b1 * y
    ensures m == (a * b1) * y
  {
  }
}
