/** Fractions in lowest terms: the values boost::rational computes, defined the simple way. */
module RationalTheory {
  import opened NumberTheory
  import opened CommonFactor

  datatype Fraction = Fraction(num: int, den: int)

  /** test_invariant. */
  predicate Reduced(f: Fraction) {
    f.den > 0 && Gcd(f.num, f.den) == 1
  }

  /** The reduced fraction equal to n/d; ReducedUnique says that there is only one. */
  ghost function Canonical(n: int, d: int): (f: Fraction)
    requires d != 0
    ensures Reduced(f)
    ensures f.num * d == n * f.den
  {
    CanonicalExists(n, d);
    var f :| Reduced(f) && f.num * d == n * f.den;
    f
  }

  lemma CanonicalExists(n: int, d: int)
    requires d != 0
    ensures exists f :: Reduced(f) && f.num * d == n * f.den
  {
    var f := DividedByGcd(n, d);
    assert Reduced(f);
  }

  /** n/d divided by the gcd, with the sign moved to the numerator. */
  lemma DividedByGcd(n: int, d: int) returns (f: Fraction)
    requires d != 0
    ensures Gcd(n, d) > 0
    ensures f == if TruncDiv(d, Gcd(n, d)) < 0 then Fraction(-TruncDiv(n, Gcd(n, d)), -TruncDiv(d, Gcd(n, d)))
                 else Fraction(TruncDiv(n, Gcd(n, d)), TruncDiv(d, Gcd(n, d)))
    ensures Reduced(f) && f.num * d == n * f.den
  {
    CanonicalFacts(n, d);
    var p, q := TruncDiv(n, Gcd(n, d)), TruncDiv(d, Gcd(n, d));
    if q < 0 {
      f := Fraction(-p, -q);
      NegateFactors(p, d, n, q);
    } else {
      f := Fraction(p, q);
    }
  }

  lemma NegateFactors(p: int, d: int, n: int, q: int)
    requires p * d == n * q
    ensures (-p) * d == n * (-q)
  {
  }

  lemma CanonicalFacts(n: int, d: int)
    requires d != 0
    ensures Gcd(n, d) > 0
    ensures var p, q := TruncDiv(n, Gcd(n, d)), TruncDiv(d, Gcd(n, d));
            && Gcd(p, q) == 1 && Gcd(-p, -q) == 1
            && n == p * Gcd(n, d) && d == q * Gcd(n, d)
            && p * d == n * q
            && (d > 0 ==> q > 0) && (d < 0 ==> q < 0)
  {
    GcdPositive(n, d);
    var g := Gcd(n, d);
    var p, q := CoprimeQuotients(n, d);
    TruncMultiple(p, g);
    TruncMultiple(q, g);
    GcdNegate(p, q);
    GcdNegate(p, -q);
    QuotientFacts(p, q, g);
  }

  lemma QuotientFacts(p: int, q: int, g: int)
    requires g > 0
    ensures p * (q * g) == (p * g) * q
    ensures (q * g > 0 ==> q > 0) && (q * g < 0 ==> q < 0)
  {
    if q <= 0 { MulMono(q, 0, g); }
    if q >= 0 { MulMono(0, q, g); }
  }

  /** A value has only one reduced form. */
  lemma ReducedUnique(x: Fraction, y: Fraction)
    requires Reduced(x) && Reduced(y)
    requires x.num * y.den == y.num * x.den
    ensures x == y
  {
    GcdSymmetric(x.num, x.den);
    GcdSymmetric(y.num, y.den);
    var j := CoprimeDivides(x.den, x.num, y.den, y.num);
    var k := CoprimeDivides(y.den, y.num, x.den, x.num);
    MutualDivisors(y.den, x.den, j, k);
    MulCancel(x.num, y.num, x.den);
  }

  // ----- the four operations, defined by cross multiplication and a final reduction

  ghost function Sum(x: Fraction, y: Fraction): (f: Fraction)
    requires x.den != 0 && y.den != 0
    ensures Reduced(f)
  {
    Canonical(x.num * y.den + y.num * x.den, x.den * y.den)
  }

  ghost function Difference(x: Fraction, y: Fraction): (f: Fraction)
    requires x.den != 0 && y.den != 0
    ensures Reduced(f)
  {
    Canonical(x.num * y.den - y.num * x.den, x.den * y.den)
  }

  ghost function Times(x: Fraction, y: Fraction): (f: Fraction)
    requires x.den != 0 && y.den != 0
    ensures Reduced(f)
  {
    Canonical(x.num * y.num, x.den * y.den)
  }

  ghost function Quotient(x: Fraction, y: Fraction): (f: Fraction)
    requires x.den != 0 && y.den != 0 && y.num != 0
    ensures Reduced(f)
  {
    Canonical(x.num * y.den, x.den * y.num)
  }

  /** A reduced fraction equal in value to n/d is Canonical(n, d). */
  lemma IsCanonical(f: Fraction, n: int, d: int)
    requires d != 0 && Reduced(f)
    requires f.num * d == n * f.den
    ensures f == Canonical(n, d)
  {
    var c := Canonical(n, d);
    CrossTransitive(f.num, f.den, n, d, c.num, c.den);
    ReducedUnique(f, c);
  }

  /** a/b == n/d == p/q, cross-multiplied. */
  lemma CrossTransitive(a: int, b: int, n: int, d: int, p: int, q: int)
    requires d != 0
    requires a * d == n * b && p * d == n * q
    ensures a * q == p * b
  {
    assert a * q * d == (a * d) * q;
    assert p * b * d == (p * d) * b;
    assert n * b * q == n * q * b;
    MulCancel(a * q, p * b, d);
  }

  // ----- why += needs only one small gcd

  lemma SumCoprime(a: int, d1: int, c: int, b1: int)
    requires Gcd(a, b1) == 1 && Gcd(d1, b1) == 1
    ensures Gcd(a * d1 + c * b1, b1) == 1
  {
    GcdSymmetric(a, b1);
    GcdSymmetric(d1, b1);
    CoprimeProduct(b1, a, d1);
    GcdSymmetric(b1, a * d1);
    GcdShift(a * d1, b1, c);
  }

  /** With b = b1 g and d = d1 g, the numerator a d1 + c b1 shares with b1 d1 g only what it shares with g. */
  lemma SumGcd(a: int, b1: int, c: int, d1: int, g: int)
    requires Gcd(a, b1) == 1 && Gcd(c, d1) == 1 && Gcd(b1, d1) == 1
    ensures Gcd(a * d1 + c * b1, b1 * d1 * g) == Gcd(a * d1 + c * b1, g)
  {
    var n := a * d1 + c * b1;
    GcdSymmetric(b1, d1);
    SumCoprime(a, d1, c, b1);
    SumCoprime(c, b1, a, d1);
    assert c * b1 + a * d1 == n;
    CoprimeProduct(n, b1, d1);
    GcdAbsorb(n, b1 * d1, g);
  }

  /** The algorithm of operator+= in terms of its intermediate quotients. */
  lemma SumReduced(a: int, b1: int, c: int, d1: int, g: int, n2: int, g3: int, g2: int)
    requires b1 > 0 && d1 > 0 && g > 0 && g2 > 0
    requires Gcd(a, b1 * g) == 1 && Gcd(c, d1 * g) == 1 && Gcd(b1, d1) == 1
    requires g2 == Gcd(a * d1 + c * b1, g)
    requires a * d1 + c * b1 == n2 * g2 && g == g3 * g2
    ensures Reduced(Fraction(n2, b1 * (d1 * g3)))
    ensures n2 * ((b1 * g) * (d1 * g)) == (a * (d1 * g) + c * (b1 * g)) * (b1 * (d1 * g3))
  {
    CoprimeFactor(a, b1, g);
    CoprimeFactor(c, d1, g);
    SumGcd(a, b1, c, d1, g);
    var den := b1 * (d1 * g3);
    assert g3 > 0 by { if g3 <= 0 { MulMono(g3, 0, g2); } }
    MulPos(d1, g3);
    MulPos(b1, d1 * g3);
    assert b1 * d1 * g == den * g2 by {
      Associate(b1 * d1, g3, g2);
      Associate(b1, d1, g3);
    }
    GcdScale(n2, den, g2);
    MulCancel(Gcd(n2, den), 1, g2);
    SumExact(a, b1, c, d1, g, n2, g3, g2);
  }

  lemma SumExact(a: int, b1: int, c: int, d1: int, g: int, n2: int, g3: int, g2: int)
    requires a * d1 + c * b1 == n2 * g2 && g == g3 * g2
    ensures n2 * ((b1 * g) * (d1 * g)) == (a * (d1 * g) + c * (b1 * g)) * (b1 * (d1 * g3))
  {
    var k := b1 * d1;
    calc {
      n2 * ((b1 * g) * (d1 * g));
      { assert (b1 * g) * (d1 * g) == k * g * g; Associate(n2, k * g, g); Associate(n2, k, g); }
      n2 * k * g * g;
    }
    calc {
      (a * (d1 * g) + c * (b1 * g)) * (b1 * (d1 * g3));
      { Combine(a, d1, c, b1, g); Associate(b1, d1, g3); }
      (n2 * g2) * g * (k * g3);
      { Shuffle(n2, g2, g, k, g3); }
      n2 * k * g * (g3 * g2);
    }
  }

  lemma Shuffle(n2: int, g2: int, g: int, k: int, g3: int)
    ensures (n2 * g2) * g * (k * g3) == n2 * k * g * (g3 * g2)
  {
    var p := n2 * g;
    assert (n2 * g2) * g == p * g2;
    assert p * g2 * (k * g3) == p * k * (g3 * g2) by {
      Associate(p, g2, k * g3);
      assert g2 * (k * g3) == k * (g3 * g2) by { Associate(k, g3, g2); }
      Associate(p, k, g3 * g2);
    }
    assert n2 * k * g == p * k;
  }

  // ----- why *= and /= need no final gcd

  lemma CrossReduced(a: int, b: int, c: int, d: int)
    requires Gcd(a, b) == 1 && Gcd(a, d) == 1 && Gcd(c, b) == 1 && Gcd(c, d) == 1
    ensures Gcd(a * c, b * d) == 1
  {
    GcdSymmetric(a, b);
    GcdSymmetric(c, b);
    CoprimeProduct(b, a, c);
    GcdSymmetric(a, d);
    GcdSymmetric(c, d);
    CoprimeProduct(d, a, c);
    GcdSymmetric(b, a * c);
    GcdSymmetric(d, a * c);
    CoprimeProduct(a * c, b, d);
  }

  /** (a1 g1 / b1 g2) * (c1 g2 / d1 g1), with g1 and g2 already cancelled crosswise. */
  lemma ProductReduced(a1: int, b1: int, c1: int, d1: int, g1: int, g2: int)
    requires Gcd(a1 * g1, b1 * g2) == 1 && Gcd(c1 * g2, d1 * g1) == 1
    requires Gcd(a1, d1) == 1 && Gcd(c1, b1) == 1
    ensures Gcd(a1 * c1, b1 * d1) == 1
    ensures (a1 * c1) * ((b1 * g2) * (d1 * g1)) == ((a1 * g1) * (c1 * g2)) * (b1 * d1)
  {
    CoprimeFactors(a1, g1, b1, g2);
    CoprimeFactors(c1, g2, d1, g1);
    CrossReduced(a1, b1, c1, d1);
    ProductExact(a1, b1, c1, d1, g1, g2);
  }

  lemma ProductExact(a1: int, b1: int, c1: int, d1: int, g1: int, g2: int)
    ensures (a1 * c1) * ((b1 * g2) * (d1 * g1)) == ((a1 * g1) * (c1 * g2)) * (b1 * d1)
  {
    var g := g1 * g2;
    FourFactors(b1, g2, d1, g1);
    FourFactors(a1, g1, c1, g2);
    assert g2 * g1 == g;
    Associate(a1 * c1, b1 * d1, g);
    assert (a1 * c1) * g * (b1 * d1) == (a1 * c1) * (b1 * d1) * g;
  }

  lemma FourFactors(a: int, b: int, c: int, d: int)
    ensures (a * b) * (c * d) == (a * c) * (b * d)
  {
    Associate(a * b, c, d);
    Associate(a * c, b, d);
    assert a * b * c == a * c * b;
  }

  // ----- values

  function Value(f: Fraction): (v: real)
    requires f.den != 0
  {
    f.num as real / f.den as real
  }

  lemma CastProduct(a: int, b: int)
    ensures (a * b) as real == a as real * b as real
  {
  }

  lemma ValueTimesDen(f: Fraction)
    requires f.den != 0
    ensures Value(f) * f.den as real == f.num as real
  {
  }

  lemma ValueIs(f: Fraction, v: real)
    requires f.den != 0
    requires f.num as real == v * f.den as real
    ensures Value(f) == v
  {
  }

  /** If num * e == n * den over the integers and n == v * e over the reals, the fraction is v. */
  lemma ValueFromRatio(f: Fraction, n: int, e: int, v: real)
    requires f.den != 0 && e != 0
    requires f.num * e == n * f.den
    requires n as real == v * e as real
    ensures Value(f) == v
  {
    CastProduct(f.num, e);
    CastProduct(n, f.den);
    CancelReal(f.num as real, v, f.den as real, e as real);
    ValueIs(f, v);
  }

  lemma CancelReal(fn: real, v: real, fd: real, e: real)
    requires e != 0.0
    requires fn * e == (v * e) * fd
    ensures fn == v * fd
  {
    assert (v * e) * fd == (v * fd) * e;
  }

  /** p == a/b and q == c/d, combined over the common denominator. */
  lemma CrossCast(a: int, b: int, c: int, d: int, p: real, q: real)
    requires p * b as real == a as real && q * d as real == c as real
    ensures (a * d + c * b) as real == (p + q) * (b * d) as real
    ensures (a * d - c * b) as real == (p - q) * (b * d) as real
    ensures (a * c) as real == (p * q) * (b * d) as real
  {
    CastProduct(a, d);
    CastProduct(c, b);
    CastProduct(a, c);
    CastProduct(b, d);
    RealCross(p, b as real, q, d as real);
  }

  lemma RealCross(p: real, b: real, q: real, d: real)
    ensures (p * b) * d + (q * d) * b == (p + q) * (b * d)
    ensures (p * b) * d - (q * d) * b == (p - q) * (b * d)
    ensures (p * b) * (q * d) == (p * q) * (b * d)
  {
  }

  /** The reference operations are exact on the values. */
  lemma SumValue(x: Fraction, y: Fraction)
    requires x.den != 0 && y.den != 0
    ensures Value(Sum(x, y)) == Value(x) + Value(y)
  {
    var p, q := Value(x), Value(y);
    ValueTimesDen(x);
    ValueTimesDen(y);
    CrossCast(x.num, x.den, y.num, y.den, p, q);
    ValueFromRatio(Sum(x, y), x.num * y.den + y.num * x.den, x.den * y.den, p + q);
  }

  lemma DifferenceValue(x: Fraction, y: Fraction)
    requires x.den != 0 && y.den != 0
    ensures Value(Difference(x, y)) == Value(x) - Value(y)
  {
    var p, q := Value(x), Value(y);
    ValueTimesDen(x);
    ValueTimesDen(y);
    CrossCast(x.num, x.den, y.num, y.den, p, q);
    ValueFromRatio(Difference(x, y), x.num * y.den - y.num * x.den, x.den * y.den, p - q);
  }

  lemma ProductValue(x: Fraction, y: Fraction)
    requires x.den != 0 && y.den != 0
    ensures Value(Times(x, y)) == Value(x) * Value(y)
  {
    var p, q := Value(x), Value(y);
    ValueTimesDen(x);
    ValueTimesDen(y);
    CrossCast(x.num, x.den, y.num, y.den, p, q);
    ValueFromRatio(Times(x, y), x.num * y.num, x.den * y.den, p * q);
  }

  lemma QuotientValue(x: Fraction, y: Fraction)
    requires x.den != 0 && y.den != 0 && y.num != 0
    ensures Value(y) != 0.0
    ensures Value(Quotient(x, y)) == Value(x) / Value(y)
  {
    var p, q := Value(x), Value(y);
    ValueTimesDen(x);
    ValueTimesDen(y);
    QuotientCast(x.num, x.den, y.num, y.den, p, q);
    ValueFromRatio(Quotient(x, y), x.num * y.den, x.den * y.num, p / q);
  }

  lemma QuotientCast(a: int, b: int, c: int, d: int, p: real, q: real)
    requires c != 0
    requires p * b as real == a as real && q * d as real == c as real
    ensures q != 0.0
    ensures (a * d) as real == (p / q) * (b * c) as real
  {
    CastProduct(a, d);
    CastProduct(b, c);
    RealQuotient(p, b as real, q, d as real);
  }

  lemma RealQuotient(p: real, b: real, q: real, d: real)
    requires q * d != 0.0
    ensures q != 0.0
    ensures (p * b) * d == (p / q) * (b * (q * d))
  {
    var s := p / q;
    assert p == s * q;
    assert s * q * b * d == s * (b * (q * d));
  }

  /** Fieldwise == decides equality of values. */
  lemma EqualityDecides(x: Fraction, y: Fraction)
    requires Reduced(x) && Reduced(y)
    ensures x == y <==> Value(x) == Value(y)
  {
    if Value(x) == Value(y) {
      ValueTimesDen(x);
      ValueTimesDen(y);
      CrossCast(x.num, x.den, y.num, y.den, Value(x), Value(y));
      ReducedUnique(x, y);
    }
  }
}
