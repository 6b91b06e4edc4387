/**
 boost/rational.hpp on a signed built-in type: when the operators +=, -=, *= and /= stay in
 range. Every operation is checked for leaving the type; None says that one did.
 */
module RationalOverflow {
  import opened Wrappers
  import opened NumberTheory
  import opened MachineInt
  import opened RationalTheory
  import opened Rationals
  import opened RationalRange

  predicate Representable(t: IntType, f: Fraction) {
    t.Has(f.num) && t.Has(f.den)
  }

  lemma DivideInRange(t: IntType, n: int, g: int)
    requires t.Signed() && t.Has(n) && g > 0
    ensures t.Has(TruncDiv(n, g))
  {
    TruncDivFacts(n, g);
  }

  // ----- *= and /=

  /** The fields of the product after cross cancellation. */
  lemma ProductFields(x: Fraction, y: Fraction)
    requires Reduced(x) && Reduced(y)
    ensures Gcd(x.num, y.den) > 0 && Gcd(y.num, x.den) > 0
    ensures var g1, g2 := Gcd(x.num, y.den), Gcd(y.num, x.den);
            Times(x, y) == Fraction(TruncDiv(x.num, g1) * TruncDiv(y.num, g2), TruncDiv(x.den, g2) * TruncDiv(y.den, g1))
  {
    var a1, d1 := GcdQuotients(x.num, y.den);
    var c1, b1 := GcdQuotients(y.num, x.den);
    ProductReduced(a1, b1, c1, d1, Gcd(x.num, y.den), Gcd(y.num, x.den));
    MulPos(b1, d1);
    IsCanonical(Fraction(a1 * c1, b1 * d1), x.num * y.num, x.den * y.den);
  }

  /** *= stays in range exactly if the reduced product is representable and no numerator is the minimum. */
  method CheckedProduct(t: IntType, x: Fraction, y: Fraction) returns (r: Option<Fraction>)
    requires t.Signed() && Reduced(x) && Reduced(y) && Representable(t, x) && Representable(t, y)
    ensures r.Some? <==> x.num != t.min && y.num != t.min && Representable(t, Times(x, y))
    ensures r.Some? ==> r.value == Times(x, y)
  {
    var gcd1 := CheckedGcd(t, x.num, y.den);
    var gcd2 := CheckedGcd(t, y.num, x.den);
    if gcd1.None? || gcd2.None? {
      return None;
    }
    var g1, g2 := gcd1.value, gcd2.value;
    ProductFields(x, y);
    DivideInRange(t, x.num, g1);
    DivideInRange(t, y.num, g2);
    DivideInRange(t, x.den, g2);
    DivideInRange(t, y.den, g1);
    var a, c, b, d := t.Div(x.num, g1), t.Div(y.num, g2), t.Div(x.den, g2), t.Div(y.den, g1);
    if !t.Has(a * c) || !t.Has(b * d) {
      return None;
    }
    r := Some(Fraction(t.Mul(a, c), t.Mul(b, d)));
  }

  /** The fields of the quotient after cross cancellation, before the sign moves to the numerator. */
  lemma QuotientFields(x: Fraction, y: Fraction)
    requires Reduced(x) && Reduced(y) && x.num != 0 && y.num != 0
    ensures Gcd(x.num, y.num) > 0 && Gcd(y.den, x.den) > 0
    ensures var g1, g2 := Gcd(x.num, y.num), Gcd(y.den, x.den);
            var n, d := TruncDiv(x.num, g1) * TruncDiv(y.den, g2), TruncDiv(x.den, g2) * TruncDiv(y.num, g1);
            Quotient(x, y) == (if d < 0 then Fraction(-n, -d) else Fraction(n, d)) && (d < 0 <==> y.num < 0)
  {
    var a1, c1 := GcdQuotients(x.num, y.num);
    var d1, b1 := GcdQuotients(y.den, x.den);
    GcdSymmetric(y.num, y.den);
    ProductReduced(a1, b1, d1, c1, Gcd(x.num, y.num), Gcd(y.den, x.den));
    var n, d := a1 * d1, b1 * c1;
    SignOfProduct(b1, c1);
    SignOfProduct(Gcd(x.num, y.num), c1);
    if d < 0 {
      GcdNegate(n, d);
      GcdNegate(n, -d);
      NegateBoth(n, x.den * y.num, x.num * y.den, d);
      IsCanonical(Fraction(-n, -d), x.num * y.den, x.den * y.num);
    } else {
      IsCanonical(Fraction(n, d), x.num * y.den, x.den * y.num);
    }
  }

  lemma SignOfProduct(a: int, b: int)
    requires a > 0
    ensures (a * b < 0 <==> b < 0) && (a * b == 0 <==> b == 0)
    ensures a * b == b * a
  {
    if b > 0 { MulPos(a, b); }
    if b < 0 { MulPos(a, -b); assert a * (-b) == -(a * b); }
  }

  /**
   /= stays in range exactly if the reduced quotient is representable, no numerator is the
   minimum, and the quotient is not the minimum with a negative divisor: its sign is moved last.
   */
  method CheckedQuotient(t: IntType, x: Fraction, y: Fraction) returns (r: Normalized)
    requires t.Signed() && Reduced(x) && Reduced(y) && Representable(t, x) && Representable(t, y)
    ensures r.BadRational? <==> y.num == 0
    ensures y.num != 0 ==>
      (r.Normal? <==> x.num == 0 || (&& x.num != t.min && y.num != t.min && Representable(t, Quotient(x, y))
                                     && !(y.num < 0 && Quotient(x, y).num == t.min)))
    ensures r.Normal? ==> r.f == Quotient(x, y)
  {
    if y.num == 0 {
      return BadRational;
    }
    if x.num == 0 {
      IsCanonical(x, x.num * y.den, x.den * y.num);
      return Normal(x);
    }
    var gcd1 := CheckedGcd(t, x.num, y.num);
    var gcd2 := CheckedGcd(t, y.den, x.den);
    if gcd1.None? || gcd2.None? {
      return OutOfRange;
    }
    var g1, g2 := gcd1.value, gcd2.value;
    QuotientFields(x, y);
    DivideInRange(t, x.num, g1);
    DivideInRange(t, y.den, g2);
    DivideInRange(t, x.den, g2);
    DivideInRange(t, y.num, g1);
    var a, b, c, d := t.Div(x.num, g1), t.Div(y.den, g2), t.Div(x.den, g2), t.Div(y.num, g1);
    r := MoveSign(t, a * b, c * d);
  }

  /** The last steps of /=, with the products n and d. */
  method MoveSign(t: IntType, n: int, d: int) returns (r: Normalized)
    requires t.Signed()
    ensures !r.BadRational?
    ensures var f := if d < 0 then Fraction(-n, -d) else Fraction(n, d);
            && (r.Normal? <==> Representable(t, f) && !(d < 0 && f.num == t.min))
            && (r.Normal? ==> r.f == f)
  {
    if !t.Has(n) || !t.Has(d) {
      return OutOfRange;
    }
    if d < 0 {
      if !t.Has(-n) || !t.Has(-d) {
        return OutOfRange;
      }
      return Normal(Fraction(-n, -d));
    }
    return Normal(Fraction(n, d));
  }

  // ----- += and -=

  /** The numerator of x over the least common denominator of x and y. */
  ghost function OverCommon(x: Fraction, y: Fraction): (n: int)
    requires x.den > 0 && y.den > 0
  {
    CanonicalFacts(x.den, y.den);
    x.num * TruncDiv(y.den, Gcd(x.den, y.den))
  }

  /** Both fractions over one denominator, with no common factor left in the two multipliers. */
  lemma OverCommonMeans(x: Fraction, y: Fraction) returns (c: int, i: int, j: int)
    requires x.den > 0 && y.den > 0
    ensures c == x.den * i == y.den * j && Gcd(i, j) == 1
    ensures OverCommon(x, y) * x.den == x.num * c && OverCommon(y, x) * y.den == y.num * c
  {
    GcdSymmetric(x.den, y.den);
    j, i := GcdQuotients(x.den, y.den);
    GcdSymmetric(i, j);
    c := x.den * i;
    var g := Gcd(x.den, y.den);
    Regroup(j, g, i);
    Regroup(i, g, j);
    Regroup(x.num, i, x.den);
    Regroup(y.num, j, y.den);
    assert i * j == j * i;
  }

  lemma Regroup(a: int, b: int, c: int)
    ensures (a * b) * c == (a * c) * b == a * (c * b)
  {
  }

  /** The fields of the sum: only the gcd with the denominators' gcd is divided out. */
  lemma SumFields(x: Fraction, y: Fraction)
    requires Reduced(x) && Reduced(y)
    ensures var g, s := Gcd(x.den, y.den), OverCommon(x, y) + OverCommon(y, x);
            && g > 0 && Gcd(s, g) > 0
            && OverCommon(y, x) == y.num * TruncDiv(x.den, g)
            && Sum(x, y) == Fraction(TruncDiv(s, Gcd(s, g)), TruncDiv(x.den, g) * TruncDiv(y.den, Gcd(s, g)))
  {
    GcdSymmetric(x.den, y.den);
    var g := Gcd(x.den, y.den);
    var b1, d1 := GcdQuotients(x.den, y.den);
    var s := x.num * d1 + y.num * b1;
    var n2, g3 := GcdQuotients(s, g);
    var g2 := Gcd(s, g);
    SumReduced(x.num, b1, y.num, d1, g, n2, g3, g2);
    Associate(d1, g3, g2);
    TruncMultiple(d1 * g3, g2);
    IsCanonical(Fraction(n2, b1 * (d1 * g3)), x.num * y.den + y.num * x.den, x.den * y.den);
  }

  /**
   += stays in range exactly if both numerators over the least common denominator and their sum
   are representable, that sum is not the minimum, and the reduced denominator is representable.
   */
  method CheckedSum(t: IntType, x: Fraction, y: Fraction) returns (r: Option<Fraction>)
    requires t.Signed() && Reduced(x) && Reduced(y) && Representable(t, x) && Representable(t, y)
    ensures r.Some? <==>
      && t.Has(OverCommon(x, y)) && t.Has(OverCommon(y, x))
      && t.min < OverCommon(x, y) + OverCommon(y, x) <= t.max
      && t.Has(Sum(x, y).den)
    ensures r.Some? ==> r.value == Sum(x, y)
  {
    SumFields(x, y);
    var gcd := CheckedGcd(t, x.den, y.den);
    var g := gcd.value;
    DivideInRange(t, x.den, g);
    DivideInRange(t, y.den, g);
    var b, d := t.Div(x.den, g), t.Div(y.den, g);
    if !t.Has(x.num * d) || !t.Has(y.num * b) || !t.Has(x.num * d + y.num * b) {
      return None;
    }
    r := FinishSum(t, t.Add(t.Mul(x.num, d), t.Mul(y.num, b)), g, b, y.den);
  }

  method CheckedDifference(t: IntType, x: Fraction, y: Fraction) returns (r: Option<Fraction>)
    requires t.Signed() && Reduced(x) && Reduced(y) && Representable(t, x) && Representable(t, y)
    ensures r.Some? <==>
      && t.Has(OverCommon(x, y)) && t.Has(OverCommon(y, x))
      && t.min < OverCommon(x, y) - OverCommon(y, x) <= t.max
      && t.Has(Difference(x, y).den)
    ensures r.Some? ==> r.value == Difference(x, y)
  {
    DifferenceIsSum(x, y);
    OverCommonNegated(x, y);
    GcdSymmetric(x.den, y.den);
    SumFields(x, Fraction(-y.num, y.den));
    var gcd := CheckedGcd(t, x.den, y.den);
    var g := gcd.value;
    DivideInRange(t, x.den, g);
    DivideInRange(t, y.den, g);
    var b, d := t.Div(x.den, g), t.Div(y.den, g);
    if !t.Has(x.num * d) || !t.Has(y.num * b) || !t.Has(x.num * d - y.num * b) {
      return None;
    }
    r := FinishSum(t, t.Sub(t.Mul(x.num, d), t.Mul(y.num, b)), g, b, y.den);
  }

  lemma DifferenceIsSum(x: Fraction, y: Fraction)
    requires Reduced(x) && Reduced(y)
    ensures Reduced(Fraction(-y.num, y.den))
    ensures Difference(x, y) == Sum(x, Fraction(-y.num, y.den))
  {
    GcdNegate(y.num, y.den);
    NegatedFactor(y.num, x.den);
  }

  lemma OverCommonNegated(x: Fraction, y: Fraction)
    requires x.den > 0 && y.den > 0
    ensures var z := Fraction(-y.num, y.den);
            OverCommon(x, z) == OverCommon(x, y) && OverCommon(z, x) == -OverCommon(y, x)
  {
    CanonicalFacts(y.den, x.den);
    NegatedFactor(y.num, TruncDiv(x.den, Gcd(y.den, x.den)));
  }

  lemma NegatedFactor(a: int, b: int)
    ensures (-a) * b == -(a * b)
  {
  }

  /** The steps += and -= share: the second gcd and the two quotients. */
  method FinishSum(t: IntType, s: int, g: int, b: int, yDen: int) returns (r: Option<Fraction>)
    requires t.Signed() && t.Has(s) && t.Has(g) && t.Has(yDen) && g > 0 && Gcd(s, g) > 0
    ensures r.Some? <==> s != t.min && t.Has(b * TruncDiv(yDen, Gcd(s, g)))
    ensures r.Some? ==> r.value == Fraction(TruncDiv(s, Gcd(s, g)), b * TruncDiv(yDen, Gcd(s, g)))
  {
    var gcd := CheckedGcd(t, s, g);
    if gcd.None? {
      return None;
    }
    DivideInRange(t, s, gcd.value);
    DivideInRange(t, yDen, gcd.value);
    var n, d := t.Div(s, gcd.value), t.Div(yDen, gcd.value);
    if !t.Has(b * d) {
      return None;
    }
    r := Some(Fraction(n, b * d));
  }

  // ----- results that are representable and still not computed

  /** INT_MAX/2 + INT_MAX/2 is INT_MAX/1, but the numerator before the last division is 2 * INT_MAX. */
  method SumFails(t: IntType) returns (r: Option<Fraction>)
    requires t == IntType(-0x8000_0000, 0x7fff_ffff)
    ensures Sum(Fraction(t.max, 2), Fraction(t.max, 2)) == Fraction(t.max, 1) && r == None
  {
    var x := Fraction(t.max, 2);
    CoprimeFromBezout(t.max, 2, 1, -0x3fff_ffff);
    CoprimeFromBezout(t.max, 1, 0, 1);
    IsCanonical(Fraction(t.max, 1), t.max * 2 + t.max * 2, 4);
    GcdUnique(2, 2, 2, 1, 0, 1, 1);
    assert OverCommon(x, x) == t.max;
    r := CheckedSum(t, x, x);
  }

  /** (2^30/1) / (-1/2) is INT_MIN/1, but the numerator before the sign is moved is 2^31. */
  method QuotientFails(t: IntType) returns (r: Normalized)
    requires t == IntType(-0x8000_0000, 0x7fff_ffff)
    ensures Quotient(Fraction(0x4000_0000, 1), Fraction(-1, 2)) == Fraction(t.min, 1) && r == OutOfRange
  {
    var x, y := Fraction(0x4000_0000, 1), Fraction(-1, 2);
    CoprimeFromBezout(x.num, 1, 0, 1);
    CoprimeFromBezout(-1, 2, 1, 1);
    CoprimeFromBezout(t.min, 1, 0, 1);
    IsCanonical(Fraction(t.min, 1), x.num * y.den, x.den * y.num);
    r := CheckedQuotient(t, x, y);
  }
}
