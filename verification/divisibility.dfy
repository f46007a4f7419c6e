/** Divisibility over signed integers, the vocabulary in which the results of
    `gcd` and `lcm` are stated. */
module Divisibility {
  import opened JavaInt

  function Mul(x: int, y: int): int {
    x * y
  }

  /** `d` divides `n`: `n` is `d` times some integer (zero divides only zero). */
  ghost predicate Divides(d: int, n: int) {
    exists k :: n == Mul(d, k)
  }

  /** A factor `k` with `n == d * k`, when `d` divides `n`. */
  ghost function Cofactor(d: int, n: int): (k: int)
    requires Divides(d, n)
    ensures n == d * k
  {
    var k :| n == Mul(d, k); k
  }

  /** `g` is the greatest common divisor of `a` and `b`: non-negative, a
      common divisor, and a multiple of every common divisor. */
  ghost predicate IsGcd(g: int, a: int, b: int) {
    && g >= 0
    && Divides(g, a)
    && Divides(g, b)
    && forall d :: Divides(d, a) && Divides(d, b) ==> Divides(d, g)
  }

  lemma DividesByWitness(d: int, n: int, k: int)
    requires n == d * k
    ensures Divides(d, n)
  {
    assert n == Mul(d, k);
  }

  /** A common divisor of `a` and `b` divides every `n == a * x + b * y`. */
  lemma DividesCombination(d: int, a: int, b: int, x: int, y: int, n: int)
    requires Divides(d, a) && Divides(d, b)
    requires n == a * x + b * y
    ensures Divides(d, n)
  {
    var i, j := Cofactor(d, a), Cofactor(d, b);
    CombineAlgebra(d, a, b, i, j, x, y);
    DividesByWitness(d, n, i * x + j * y);
  }

  lemma DividesMultiple(d: int, n: int, x: int)
    requires Divides(d, n)
    ensures Divides(d, n * x)
  {
    var i := Cofactor(d, n);
    assert n * x == d * (i * x);
    DividesByWitness(d, n * x, i * x);
  }

  lemma DividesTransitive(d: int, e: int, n: int)
    requires Divides(d, e) && Divides(e, n)
    ensures Divides(d, n)
  {
    var i, j := Cofactor(d, e), Cofactor(e, n);
    ComposeAlgebra(d, e, n, i, j);
    DividesByWitness(d, n, i * j);
  }

  lemma DividesNegate(d: int, n: int)
    ensures Divides(d, n) <==> Divides(d, -n)
    ensures Divides(d, n) <==> Divides(-d, n)
  {
    if Divides(d, n) {
      var k := Cofactor(d, n);
      NegateAlgebra(d, n, k);
      DividesByWitness(d, -n, -k);
      DividesByWitness(-d, n, -k);
    }
    if Divides(d, -n) {
      var k := Cofactor(d, -n);
      NegateAlgebra(d, -n, k);
      DividesByWitness(d, n, -k);
    }
    if Divides(-d, n) {
      var k := Cofactor(-d, n);
      NegateAlgebra(-d, n, k);
      DividesByWitness(d, n, -k);
    }
  }

  lemma DividesAbs(d: int, n: int)
    ensures Divides(d, n) <==> Divides(d, Abs(n))
  {
    DividesNegate(d, n);
  }

  /** A divisor of a non-zero number is no larger than it in magnitude. */
  lemma DividesBound(d: int, n: int)
    requires Divides(d, n) && n != 0
    ensures d != 0 && Abs(d) <= Abs(n)
  {
    var k := Cofactor(d, n);
    AbsMul(d, k);
    MulSign(d, k);
    MulAtLeast(Abs(k), Abs(d));
  }

  /** Two non-negative numbers that divide each other are equal. */
  lemma DividesAntisymmetric(x: int, y: int)
    requires x >= 0 && y >= 0
    requires Divides(x, y) && Divides(y, x)
    ensures x == y
  {
    if x != 0 && y != 0 {
      DividesBound(x, y);
      DividesBound(y, x);
    }
  }

  /** Cancelling a common non-zero factor keeps divisibility. */
  lemma DividesCancel(g: int, d: int, n: int)
    requires g != 0 && Divides(d * g, n * g)
    ensures Divides(d, n)
  {
    var k := Cofactor(d * g, n * g);
    assert (n - d * k) * g == 0;
    MulSign(n - d * k, g);
    DividesByWitness(d, n, k);
  }

  lemma CombineAlgebra(d: int, a: int, b: int, i: int, j: int, x: int, y: int)
    requires a == d * i && b == d * j
    ensures a * x + b * y == d * (i * x + j * y)
  {
  }

  lemma ComposeAlgebra(d: int, e: int, n: int, i: int, j: int)
    requires e == d * i && n == e * j
    ensures n == d * (i * j)
  {
  }

  lemma NegateAlgebra(d: int, n: int, k: int)
    requires n == d * k
    ensures -n == d * -k && n == -d * -k && -n == -d * k
  {
  }
}
