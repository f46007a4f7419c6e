/** Java's `int` division and remainder. Java rounds the quotient toward zero
    and gives the remainder the sign of the dividend; Dafny's own `/` and `%`
    are Euclidean, so here they are applied to non-negative operands only.
    Integers are unbounded: 32-bit overflow is not modelled. */
module JavaInt {

  function Abs(x: int): nat {
    if x < 0 then -x else x
  }

  /** Java's `a / b`: the multiple of `b` of largest magnitude not exceeding
      `|a|`, signed by the signs of the operands. */
  function Quot(a: int, b: int): (q: int)
    requires b != 0
    ensures Abs(q) * Abs(b) <= Abs(a) < (Abs(q) + 1) * Abs(b)
    ensures q == 0 || ((q < 0) <==> ((a < 0) != (b < 0)))
  {
    var m := Abs(a) / Abs(b);
    EuclidBounds(Abs(a), Abs(b));
    if (a < 0) == (b < 0) then m else -m
  }

  lemma EuclidBounds(x: int, y: int)
    requires x >= 0 && y > 0
    ensures (x / y) * y <= x < (x / y + 1) * y
  {
    var m := x / y;
    assert x == m * y + x % y;
    assert (m + 1) * y == m * y + y;
  }

  /** Java's `a % b`: what is left of `a` after taking away `Quot(a, b)` copies
      of `b`; smaller than `b` in magnitude and never of the opposite sign to `a`. */
  function Rem(a: int, b: int): (r: int)
    requires b != 0
    ensures a == Quot(a, b) * b + r
    ensures Abs(r) < Abs(b)
    ensures r == 0 || ((r < 0) <==> (a < 0))
  {
    RemFacts(a, b);
    a - Quot(a, b) * b
  }

  lemma RemFacts(a: int, b: int)
    requires b != 0
    ensures var r := a - Quot(a, b) * b;
      Abs(r) < Abs(b) && (r == 0 || ((r < 0) <==> (a < 0)))
  {
    var x: int, y: int := Abs(a), Abs(b);
    var m: int := x / y;
    EuclidBounds(x, y);
    QuotTimesDivisor(a, b, m, Quot(a, b));
  }

  /** `Quot(a, b) * b` is the multiple of `|b|` taken away, signed like `a`. */
  lemma QuotTimesDivisor(a: int, b: int, m: int, q: int)
    requires b != 0
    requires q == if (a < 0) == (b < 0) then m else -m
    ensures q * b == if a < 0 then -(m * Abs(b)) else m * Abs(b)
  {
    if b < 0 {
      assert q * b == (-q) * Abs(b);
    }
  }

  lemma MulAtLeast(t: int, y: int)
    requires t >= 1 && y > 0
    ensures t * y >= y
  {
    assert t * y == (t - 1) * y + y;
  }

  /** Euclidean division of a non-negative number by a positive one has
      exactly one quotient and remainder. */
  lemma DivModUnique(x: int, y: int, q: int, r: int)
    requires 0 < y && 0 <= r < y && x == q * y + r
    ensures x / y == q && x % y == r
  {
    var q0, r0 := x / y, x % y;
    assert x == q0 * y + r0;
    if q0 < q {
      assert (q - q0) * y == r0 - r;
      MulAtLeast(q - q0, y);
    } else if q < q0 {
      assert (q0 - q) * y == r - r0;
      MulAtLeast(q0 - q, y);
    }
  }

  /** Java's division is the only one that writes `a` as `q * b + r` with a
      remainder smaller than `b` and not of the opposite sign to `a`. */
  lemma QuotRemUnique(a: int, b: int, q: int, r: int)
    requires b != 0 && a == q * b + r
    requires Abs(r) < Abs(b)
    requires r == 0 || ((r < 0) <==> (a < 0))
    ensures Quot(a, b) == q && Rem(a, b) == r
  {
    var p := q * b;
    AbsMul(q, b);
    MulSign(q, b);
    if q != 0 {
      MulAtLeast(Abs(q), Abs(b));
    }
    // p has the sign of a, or is zero, so the magnitudes add up.
    assert p == 0 || ((p < 0) <==> (a < 0));
    assert Abs(a) == Abs(q) * Abs(b) + Abs(r);
    DivModUnique(Abs(a), Abs(b), Abs(q), Abs(r));
  }

  lemma MulSign(x: int, y: int)
    ensures x * y == 0 <==> (x == 0 || y == 0)
    ensures x * y > 0 <==> ((x > 0 && y > 0) || (x < 0 && y < 0))
  {
    if x > 0 && y > 0 { MulAtLeast(x, y); }
    else if x < 0 && y < 0 { MulAtLeast(-x, -y); assert x * y == (-x) * (-y); }
    else if x > 0 && y < 0 { MulAtLeast(x, -y); assert x * y == -(x * (-y)); }
    else if x < 0 && y > 0 { MulAtLeast(-x, y); assert x * y == -((-x) * y); }
  }

  /** Dividing an exact multiple recovers the factor. */
  lemma ExactQuot(a: int, b: int, k: int)
    requires b != 0 && a == k * b
    ensures Quot(a, b) == k && Rem(a, b) == 0
  {
    QuotRemUnique(a, b, k, 0);
  }

  /** On non-negative operands Java's and Dafny's division agree. */
  lemma QuotOfNonNegative(a: int, b: int)
    requires a >= 0 && b > 0
    ensures Quot(a, b) == a / b && Rem(a, b) == a % b
  {
  }

  /** Scaling both operands by the same non-zero factor keeps the quotient
      and scales the remainder. */
  lemma {:induction false} RemScale(a: int, b: int, c: int)
    requires b != 0 && c != 0
    ensures Quot(a * c, b * c) == Quot(a, b)
    ensures Rem(a * c, b * c) == Rem(a, b) * c
  {
    var q, r := Quot(a, b), Rem(a, b);
    Distribute(a, b, q, r, c);
    AbsMul(r, c);
    AbsMul(b, c);
    MulStrict(Abs(r), Abs(b), Abs(c));
    MulSign(r, c);
    MulSign(a, c);
    QuotRemUnique(a * c, b * c, q, r * c);
  }

  lemma Distribute(a: int, b: int, q: int, r: int, c: int)
    requires a == q * b + r
    ensures a * c == q * (b * c) + r * c
  {
  }

  lemma AbsMul(x: int, y: int)
    ensures Abs(x * y) == Abs(x) * Abs(y)
  {
    if x < 0 && y < 0 { assert x * y == Abs(x) * Abs(y); }
    else if x < 0 { assert x * y == -(Abs(x) * Abs(y)); }
    else if y < 0 { assert x * y == -(Abs(x) * Abs(y)); }
  }

  lemma MulStrict(x: int, y: int, z: int)
    requires 0 <= x < y && z > 0
    ensures x * z < y * z
  {
    MulAtLeast(z, y - x);
    assert y * z - x * z == (y - x) * z;
  }
}
