/** Properties that relate several calls on `Rational`: uniqueness of the
    reduced form, the identities the arithmetic satisfies, and how the printed
    form reads back. */
module RationalLaws {
  import opened JavaInt
  import opened Divisibility
  import opened GcdLcm
  import opened Decimal
  import opened Rationals

  /** Fractions with non-zero denominators that are equal by
      cross-multiplication form a chain: equality is transitive. */
  lemma SameFraction(p1: int, q1: int, p2: int, q2: int, p3: int, q3: int)
    requires q1 != 0 && q2 != 0 && q3 != 0
    requires p1 * q2 == p2 * q1 && p2 * q3 == p3 * q2
    ensures p1 * q3 == p3 * q1
  {
    assert q2 * (p1 * q3) == (p1 * q2) * q3;
    assert (p1 * q2) * q3 == (p2 * q1) * q3;
    assert (p2 * q1) * q3 == (p2 * q3) * q1;
    assert (p2 * q3) * q1 == q2 * (p3 * q1);
    MulCancel(q2, p1 * q3, p3 * q1);
  }

  /** In two reduced non-zero fractions of equal value, the denominator of
      the first divides that of the second. */
  lemma DenominatorDivides(x: Rational, y: Rational)
    requires x.num != 0 && x.den > 0 && y.den > 0
    requires Gcd(Abs(x.num), x.den) == 1
    requires SameValue(x, y)
    ensures Divides(x.den, y.den)
  {
    DividesByWitness(x.den, x.num * y.den, y.num);
    DividesAbs(x.den, x.num * y.den);
    AbsMul(x.num, y.den);
    assert Abs(x.num * y.den) == Abs(x.num) * y.den;
    EuclidLemma(x.den, Abs(x.num), y.den);
  }

  /** A non-zero value has exactly one reduced form with a positive
      denominator: two valid values of it have equal fields. */
  lemma CanonicalUnique(x: Rational, y: Rational)
    requires Valid(x) && Valid(y) && x.num != 0
    requires SameValue(x, y)
    ensures x == y
  {
    CrossNonZero(x.num, x.den, y.num, y.den);
    DenominatorDivides(x, y);
    DenominatorDivides(y, x);
    DividesAntisymmetric(x.den, y.den);
    CrossSameDenominator(x.num, y.num, x.den, y.den);
  }

  lemma CrossNonZero(n1: int, d1: int, n2: int, d2: int)
    requires n1 != 0 && d1 != 0 && d2 != 0 && n1 * d2 == n2 * d1
    ensures n2 != 0 && n2 * d1 == n1 * d2
  {
    MulSign(n1, d2);
    MulSign(n2, d1);
  }

  lemma CrossSameDenominator(n1: int, n2: int, d1: int, d2: int)
    requires d1 != 0 && d1 == d2 && n1 * d2 == n2 * d1
    ensures n1 == n2
  {
    MulCancel(d1, n1, n2);
  }

  /** Constructing from the fields of a constructed object gives the same
      fields back: normalisation is idempotent. */
  lemma ConstructOfValid(a: Rational)
    requires Valid(a)
    ensures Construct(a.num, a.den) == Ok(a)
  {
    if a.num != 0 {
      CanonicalUnique(Construct(a.num, a.den).value, a);
    }
  }

  /** For a non-zero numerator the constructor depends only on the value of
      the fraction: equal fractions give the same numerator and denominator. */
  lemma ConstructDependsOnValue(n1: int, d1: int, n2: int, d2: int)
    requires n1 != 0 && d1 != 0 && d2 != 0
    requires n1 * d2 == n2 * d1
    ensures Construct(n1, d1) == Construct(n2, d2)
  {
    MulSign(n1, d2);
    MulSign(n2, d1);
    var r1, r2 := Construct(n1, d1).value, Construct(n2, d2).value;
    SameFraction(r1.num, r1.den, n1, d1, n2, d2);
    SameFraction(r1.num, r1.den, n2, d2, r2.num, r2.den);
    MulSign(r1.num, d1);
    CanonicalUnique(r1, r2);
  }

  /** Multiplying by `new Rational()` keeps the numerator and denominator,
      even the stored denominator of a zero. */
  lemma TimesIdentity(a: Rational)
    requires Valid(a)
    ensures Times(a, Default()) == Ok(a)
  {
    ConstructOfValid(a);
  }

  /** Subtracting a value from itself gives a zero numerator. */
  lemma MinusSelf(a: Rational)
    requires a.den != 0
    ensures Minus(a, a).value.num == 0
  {
    var r := Minus(a, a).value;
    assert r.num * (a.den * a.den) == 0;
    MulSign(r.num, a.den * a.den);
    MulSign(a.den, a.den);
  }

  /** Adding `b` and then subtracting it returns the value started from, and
      the same numerator and denominator as `a` when that value is non-zero. */
  lemma PlusThenMinus(a: Rational, b: Rational)
    requires Valid(a) && b.den != 0
    ensures var m := Minus(Plus(a, b).value, b).value;
      SameValue(m, a) && (a.num != 0 ==> m == a)
  {
    var s := Plus(a, b).value;
    var m := Minus(s, b).value;
    MulSign(a.den, b.den);
    MulSign(s.den, b.den);
    UndoSum(a.num, a.den, b.num, b.den, s.num, s.den);
    SameFraction(m.num, m.den, s.num * b.den - b.num * s.den, s.den * b.den, a.num, a.den);
    if a.num != 0 {
      MulSign(a.num, m.den);
      CanonicalUnique(a, m);
    }
  }

  lemma UndoSum(na: int, da: int, nb: int, db: int, sn: int, sd: int)
    requires sn * (da * db) == (na * db + nb * da) * sd
    ensures (sn * db - nb * sd) * da == na * (sd * db)
  {
    assert (sn * db - nb * sd) * da == sn * (da * db) - nb * sd * da;
    assert na * (sd * db) == (na * db + nb * da) * sd - nb * da * sd;
  }

  /** Multiplying by `b` and then dividing by it returns the value started
      from, and the same numerator and denominator as `a` when that value is
      non-zero. */
  lemma TimesThenDividedBy(a: Rational, b: Rational)
    requires Valid(a) && b.den != 0 && b.num != 0
    ensures var q := DividedBy(Times(a, b).value, b).value;
      SameValue(q, a) && (a.num != 0 ==> q == a)
  {
    var t := Times(a, b).value;
    var q := DividedBy(t, b).value;
    MulSign(a.den, b.den);
    MulSign(t.den, b.num);
    UndoProduct(a.num, a.den, b.num, b.den, t.num, t.den);
    SameFraction(q.num, q.den, t.num * b.den, t.den * b.num, a.num, a.den);
    if a.num != 0 {
      MulSign(a.num, q.den);
      CanonicalUnique(a, q);
    }
  }

  lemma UndoProduct(na: int, da: int, nb: int, db: int, tn: int, td: int)
    requires nb != 0 && db != 0
    requires tn * (da * db) == (na * nb) * td
    ensures (tn * db) * da == na * (td * nb)
  {
    assert nb * ((tn * db) * da) == (tn * (da * db)) * nb;
    assert (tn * (da * db)) * nb == nb * (na * (td * nb)) by {
      assert (na * nb) * td * nb == nb * (na * (td * nb));
    }
    MulCancel(nb, (tn * db) * da, na * (td * nb));
  }

  /** Taking the reciprocal twice gives back the numerator and denominator
      started from. */
  lemma ReciprocalInvolution(a: Rational)
    requires Valid(a) && a.num != 0
    ensures ReciprocalOf(a).Ok?
    ensures ReciprocalOf(ReciprocalOf(a).value) == Ok(a)
  {
    var r := ReciprocalOf(a).value;
    CrossNonZero(a.den, a.num, r.num, r.den);
    var s := ReciprocalOf(r).value;
    SameFraction(a.num, a.den, r.den, r.num, s.num, s.den);
    CanonicalUnique(a, s);
  }

  /** Dividing by `b` has the value of multiplying by the reciprocal of `b`;
      the two have the same numerator and denominator unless the dividend is
      zero, where they keep different unreduced denominators. */
  lemma DividedByIsTimesReciprocal(a: Rational, b: Rational)
    requires a.den != 0 && Valid(b) && b.num != 0
    ensures var q := DividedBy(a, b).value;
      var t := Times(a, ReciprocalOf(b).value).value;
      SameValue(q, t) && (a.num != 0 ==> q == t)
  {
    var r := ReciprocalOf(b).value;
    var q := DividedBy(a, b).value;
    var t := Times(a, r).value;
    MulSign(a.den, b.num);
    MulSign(a.den, r.den);
    MulSign(r.num, b.num);
    MulSign(b.den, r.den);
    TimesReciprocalAlgebra(a.num, a.den, b.num, b.den, r.num, r.den);
    SameFraction(q.num, q.den, a.num * b.den, a.den * b.num, a.num * r.num, a.den * r.den);
    SameFraction(q.num, q.den, a.num * r.num, a.den * r.den, t.num, t.den);
    if a.num != 0 {
      MulSign(a.num, b.den);
      MulSign(q.num, a.den * b.num);
      CanonicalUnique(q, t);
    }
  }

  lemma TimesReciprocalAlgebra(na: int, da: int, nb: int, db: int, rn: int, rd: int)
    requires rn * nb == db * rd
    ensures (na * db) * (da * rd) == (na * rn) * (da * nb)
  {
    assert (na * db) * (da * rd) == na * da * (db * rd);
    assert (na * rn) * (da * nb) == na * da * (rn * nb);
  }

  /** The two shapes of `toString`, as read back from the text. */
  datatype Rendering = Whole(n: int) | Fraction(n: int, d: int)

  /** Position of the first '/' in `s`, or `|s|` when there is none. */
  function SlashIndex(s: string): (i: nat)
    ensures i <= |s|
    ensures forall j :: 0 <= j < i ==> s[j] != '/'
    ensures i < |s| ==> s[i] == '/'
  {
    if |s| == 0 || s[0] == '/' then 0 else 1 + SlashIndex(s[1..])
  }

  /** Reads a printed `Rational`: text without '/' is a bare number, otherwise
      a numerator and a denominator either side of the first '/'. */
  function ReadBack(s: string): Rendering {
    var i := SlashIndex(s);
    if i == |s| then Whole(ParseInt(s)) else Fraction(ParseInt(s[..i]), ParseInt(s[i + 1..]))
  }

  /** `toString` prints the bare numerator exactly when the denominator is 1
      or the numerator is 0, and `num/den` otherwise; both fields read back. */
  lemma ToStringReadBack(r: Rational)
    ensures ReadBack(ToString(r)) ==
      if PrintsBare(r) then Whole(r.num) else Fraction(r.num, r.den)
  {
    var s := ToString(r);
    var a := IntToString(r.num);
    IntRoundTrip(r.num);
    if PrintsBare(r) {
    } else {
      var b := IntToString(r.den);
      IntRoundTrip(r.den);
      assert s == a + "/" + b;
      var i := SlashIndex(s);
      assert s[|a|] == '/';
      assert i == |a|;
      assert s[..i] == a;
      assert s[i + 1..] == b;
    }
  }
}
