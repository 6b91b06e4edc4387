/** boost/rational.hpp. A throw of bad_rational is an out-parameter. */
module Rationals {
  import opened NumberTheory
  import opened CommonFactor
  import opened MachineInt
  import opened RationalTheory

  // ----- facts behind operator<

  /** Different whole parts decide the order of two fractions. */
  lemma QuotientsDecide(n1: int, d1: int, q1: int, r1: int, n2: int, d2: int, q2: int, r2: int)
    requires n1 == q1 * d1 + r1 && 0 <= r1 < d1
    requires n2 == q2 * d2 + r2 && 0 <= r2 < d2
    requires q1 < q2
    ensures n1 * d2 < n2 * d1
  {
    MulMono(q1 + 1, q2, d1);
    assert n1 < q2 * d1;
    assert n1 * d2 < (q2 * d1) * d2 by { MulPos(q2 * d1 - n1, d2); }
    assert n2 * d1 >= (q2 * d2) * d1 by { MulNonNeg(r2, d1); }
    assert (q2 * d1) * d2 == (q2 * d2) * d1;
  }

  /** With equal whole parts the order is that of the fractional parts. */
  lemma SameQuotient(n1: int, d1: int, r1: int, n2: int, d2: int, r2: int, q: int)
    requires n1 == q * d1 + r1 && n2 == q * d2 + r2
    ensures n1 * d2 - n2 * d1 == r1 * d2 - r2 * d1
  {
    assert (q * d1) * d2 == (q * d2) * d1;
  }

  /** Flooring never leaves the range between the numerator and zero. */
  lemma FloorBound(n: int, d: int, q: int, r: int)
    requires n == q * d + r && 0 <= r < d
    ensures n >= 0 ==> 0 <= q <= n
    ensures n < 0 ==> n <= q < 0
  {
    if q > n && n >= 0 {
      MulMono(1, d, q);
    }
    if q < 0 {
      MulMono(q, -1, d);
    } else {
      MulMono(0, q, d);
    }
    if n < 0 && q < n {
      MulMono(q, n - 1, d);
      assert (n - 1) * d == n * d - d;
      assert n * d <= n by { MulMono(1, d, -n); assert d * (-n) == -(n * d); }
    }
  }

  /** Adding the denominator to a negative remainder floors the quotient, within range. */
  lemma BorrowOne(t: IntType, n: int, d: int, q: int, r: int)
    requires t.Valid() && t.Has(n) && t.Has(d) && d > 0
    requires n == q * d + r && -d < r < 0
    ensures n == (q - 1) * d + (r + d) && 0 < r + d < d
    ensures t.Has(q - 1) && t.Has(r + d)
  {
    MinusOne(q, d);
    FloorBound(n, d, q - 1, r + d);
  }

  lemma MinusOne(q: int, d: int)
    ensures (q - 1) * d == q * d - d
  {
  }

  /** Quotient and remainder as C++ gives them. */
  method DivMod(t: IntType, n: int, d: int) returns (q: int, r: int)
    requires t.Valid() && t.Has(n) && t.Has(d) && d > 0
    ensures n == q * d + r && -d < r < d
    ensures t.Has(q) && t.Has(r)
  {
    TruncDivFacts(n, d);
    q, r := t.Div(n, d), t.Mod(n, d);
  }

  /** A value in mixed-fraction form with a non-negative remainder, as both operators < compute it. */
  method MixedFraction(t: IntType, n: int, d: int) returns (q: int, r: int)
    requires t.Valid() && t.Has(n) && t.Has(d) && d > 0
    ensures n == q * d + r && 0 <= r < d
    ensures t.Has(q) && t.Has(r)
  {
    q, r := DivMod(t, n, d);
    while r < 0
      invariant n == q * d + r && -d < r < d
      invariant t.Has(q) && t.Has(r)
      decreases d - r
    {
      BorrowOne(t, n, d, q, r);
      r := t.Add(r, d);
      q := t.Sub(q, 1);
    }
  }

  class Rational {
    var num: int
    var den: int

    ghost function Frac(): (f: Fraction)
      reads this
    {
      Fraction(num, den)
    }

    /** The class invariant: gcd(num, den) == 1 and den > 0. */
    ghost predicate Valid()
      reads this
    {
      Reduced(Frac())
    }

    constructor ()
      ensures Valid() && Frac() == Fraction(0, 1)
    {
      num, den := 0, 1;
      new;
      CoprimeFromBezout(0, 1, 0, 1);
    }

    constructor OfInt(n: int)
      ensures Valid() && Frac() == Fraction(n, 1)
    {
      num, den := n, 1;
      new;
      CoprimeFromBezout(n, 1, 0, 1);
    }

    method Normalize() returns (threw: bool)
      modifies this
      ensures threw <==> old(den) == 0
      ensures threw ==> Frac() == old(Frac())
      ensures !threw ==> Valid() && Frac() == Canonical(old(num), old(den))
    {
      if den == 0 {
        return true;
      }
      threw := false;
      if num == 0 {
        den := 1;
        CoprimeFromBezout(0, 1, 0, 1);
        IsCanonical(Fraction(0, 1), 0, old(den));
        return;
      }
      var g := MathGcd(num, den);
      ghost var f := DividedByGcd(num, den);
      num := TruncDiv(num, g);
      den := TruncDiv(den, g);
      if den < 0 {
        num, den := -num, -den;
      }
      IsCanonical(f, old(num), old(den));
    }

    /** The fields are written before normalize() can throw. */
    method Assign(n: int, d: int) returns (threw: bool)
      modifies this
      ensures threw <==> d == 0
      ensures threw ==> Frac() == Fraction(n, d)
      ensures !threw ==> Valid() && Frac() == Canonical(n, d)
    {
      num, den := n, d;
      threw := Normalize();
    }

    method AddAssign(r: Rational)
      requires Valid() && r.Valid()
      modifies this
      ensures Valid() && Frac() == Sum(old(Frac()), old(r.Frac()))
    {
      var rNum, rDen := r.num, r.den;
      num, den := ReducedSum(num, den, rNum, rDen);
      IsCanonical(Frac(), old(num) * rDen + rNum * old(den), old(den) * rDen);
    }

    method SubAssign(r: Rational)
      requires Valid() && r.Valid()
      modifies this
      ensures Valid() && Frac() == Difference(old(Frac()), old(r.Frac()))
    {
      var rNum, rDen := r.num, r.den;
      num, den := ReducedDifference(num, den, rNum, rDen);
      IsCanonical(Frac(), old(num) * rDen - rNum * old(den), old(den) * rDen);
    }

    method MulAssign(r: Rational)
      requires Valid() && r.Valid()
      modifies this
      ensures Valid() && Frac() == Times(old(Frac()), old(r.Frac()))
    {
      var rNum, rDen := r.num, r.den;
      num, den := ReducedProduct(num, den, rNum, rDen);
      IsCanonical(Frac(), old(num) * rNum, old(den) * rDen);
    }

    method DivAssign(r: Rational) returns (threw: bool)
      requires Valid() && r.Valid()
      modifies this
      ensures Valid()
      ensures threw <==> old(r.num) == 0
      ensures threw ==> Frac() == old(Frac())
      ensures !threw ==> Frac() == Quotient(old(Frac()), old(r.Frac()))
    {
      var rNum, rDen := r.num, r.den;
      if rNum == 0 {
        return true;
      }
      threw := false;
      if num == 0 {
        IsCanonical(Frac(), num * rDen, den * rNum);
        return;
      }
      num, den := ReducedQuotient(num, den, rNum, rDen);
      IsCanonical(Frac(), old(num) * rDen, old(den) * rNum);
    }

    method Increment()
      requires Valid()
      modifies this
      ensures Valid() && Frac() == Sum(old(Frac()), Fraction(1, 1))
    {
      GcdShift(num, den, 1);
      num := num + den;
      IsCanonical(Frac(), old(num) * 1 + 1 * den, den * 1);
    }

    method Decrement()
      requires Valid()
      modifies this
      ensures Valid() && Frac() == Difference(old(Frac()), Fraction(1, 1))
    {
      GcdShift(num, den, -1);
      num := num - den;
      IsCanonical(Frac(), old(num) * 1 - 1 * den, den * 1);
    }

    /** Compare two continued fractions in lockstep, never leaving the range of the integer type. */
    method Less(t: IntType, r: Rational) returns (b: bool)
      requires t.Valid() && t.Has(num) && t.Has(den) && t.Has(r.num) && t.Has(r.den)
      requires den > 0 && r.den > 0
      ensures b <==> num * r.den < r.num * den
    {
      var tn, td, rn, rd := num, den, r.num, r.den;
      var tq, tr := MixedFraction(t, tn, td);
      var rq, rr := MixedFraction(t, rn, rd);
      var reverse := false;
      ghost var answer := num * r.den < r.num * den;
      while true
        invariant tn == tq * td + tr && 0 <= tr < td
        invariant rn == rq * rd + rr && 0 <= rr < rd
        invariant t.Has(td) && t.Has(tq) && t.Has(tr) && t.Has(rd) && t.Has(rq) && t.Has(rr)
        invariant answer == Before(reverse, tn, td, rn, rd)
        decreases td
      {
        if tq != rq {
          if tq < rq {
            QuotientsDecide(tn, td, tq, tr, rn, rd, rq, rr);
          } else {
            QuotientsDecide(rn, rd, rq, rr, tn, td, tq, tr);
          }
          return if reverse then tq > rq else tq < rq;
        }
        SameQuotient(tn, td, tr, rn, rd, rr, tq);
        assert answer == Before(reverse, tr, td, rr, rd);
        reverse := !reverse;
        if tr == 0 || rr == 0 {
          break;
        }
        Reciprocal(!reverse, tr, td, rr, rd);
        tn, td, rn, rd := td, tr, rd, rr;
        TruncDivFacts(tn, td);
        TruncDivFacts(rn, rd);
        tq, tr := t.Div(tn, td), t.Mod(tn, td);
        rq, rr := t.Div(rn, rd), t.Mod(rn, rd);
      }
      EndOfExpansion(!reverse, tr, td, rr, rd);
      b := if tr == rr then false else (tr != 0) != reverse;
    }

    /** Comparison with an integer: the whole part decides. */
    method LessInt(t: IntType, i: int) returns (b: bool)
      requires t.Valid() && t.Has(num) && t.Has(den) && t.Has(i) && den > 0
      ensures b <==> num < i * den
    {
      var q, r := MixedFraction(t, num, den);
      if q < i {
        MulMono(q + 1, i, den);
      } else {
        MulMono(i, q, den);
      }
      b := q < i;
    }

    method GreaterInt(t: IntType, i: int) returns (b: bool)
      requires t.Valid() && t.Has(num) && t.Has(den) && t.Has(i) && Valid()
      ensures b <==> num > i * den
    {
      if num == i && den == 1 {
        return false;
      }
      var less := LessInt(t, i);
      if num == i * den {
        CoprimeFromBezout(i, 1, 0, 1);
        ReducedUnique(Frac(), Fraction(i, 1));
      }
      b := !less;
    }

    method Equal(r: Rational) returns (b: bool)
      requires Valid() && r.Valid()
      ensures b <==> Value(Frac()) == Value(r.Frac())
    {
      EqualityDecides(Frac(), r.Frac());
      b := num == r.num && den == r.den;
    }

    /** test_invariant() decides the class invariant in any state. */
    method TestInvariant() returns (b: bool)
      ensures b <==> Valid()
    {
      if den <= 0 {
        return false;
      }
      var g := MathGcd(num, den);
      b := g == 1;
    }
  }

  /** n1/d1 < n2/d2, or > when reversed. */
  ghost predicate Before(reverse: bool, n1: int, d1: int, n2: int, d2: int) {
    if reverse then n1 * d2 > n2 * d1 else n1 * d2 < n2 * d1
  }

  /** Taking reciprocals of positive fractions turns the order around. */
  lemma Reciprocal(reverse: bool, r1: int, d1: int, r2: int, d2: int)
    ensures Before(reverse, r1, d1, r2, d2) == Before(!reverse, d1, r1, d2, r2)
  {
    assert r1 * d2 == d2 * r1 && r2 * d1 == d1 * r2;
  }

  /** When at most one remainder is left, it decides. */
  lemma EndOfExpansion(reverse: bool, r1: int, d1: int, r2: int, d2: int)
    requires 0 <= r1 < d1 && 0 <= r2 < d2
    requires r1 == 0 || r2 == 0
    ensures Before(reverse, r1, d1, r2, d2) == (r1 != r2 && (r1 != 0) == reverse)
  {
    if r1 != 0 { MulPos(r1, d2); }
    if r2 != 0 { MulPos(r2, d1); }
  }

  // ----- the bodies of the arithmetic operators

  /** operator+=: one gcd of the denominators and one of the numerator with that. */
  method ReducedSum(num: int, den: int, rNum: int, rDen: int) returns (n: int, d: int)
    requires Reduced(Fraction(num, den)) && Reduced(Fraction(rNum, rDen))
    ensures Reduced(Fraction(n, d))
    ensures n * (den * rDen) == (num * rDen + rNum * den) * d
  {
    var g := MathGcd(den, rDen);
    ghost var b1, d1 := GcdQuotients(den, rDen);
    d := TruncDiv(den, g);
    n := num * TruncDiv(rDen, g) + rNum * d;
    assert n == num * d1 + rNum * b1;
    var g2 := MathGcd(n, g);
    ghost var n2, g3 := GcdQuotients(n, g);
    SumReduced(num, b1, rNum, d1, g, n2, g3, g2);
    Associate(d1, g3, g2);
    TruncMultiple(d1 * g3, g2);
    n := TruncDiv(n, g2);
    d := d * TruncDiv(rDen, g2);
  }

  method ReducedDifference(num: int, den: int, rNum: int, rDen: int) returns (n: int, d: int)
    requires Reduced(Fraction(num, den)) && Reduced(Fraction(rNum, rDen))
    ensures Reduced(Fraction(n, d))
    ensures n * (den * rDen) == (num * rDen - rNum * den) * d
  {
    var g := MathGcd(den, rDen);
    ghost var b1, d1 := GcdQuotients(den, rDen);
    d := TruncDiv(den, g);
    n := num * TruncDiv(rDen, g) - rNum * d;
    assert n == num * d1 + (-rNum) * b1;
    var g2 := MathGcd(n, g);
    ghost var n2, g3 := GcdQuotients(n, g);
    GcdNegate(rNum, rDen);
    SumReduced(num, b1, -rNum, d1, g, n2, g3, g2);
    Associate(d1, g3, g2);
    TruncMultiple(d1 * g3, g2);
    n := TruncDiv(n, g2);
    d := d * TruncDiv(rDen, g2);
    assert (-rNum) * (b1 * g) == -(rNum * den);
  }

  method ReducedProduct(num: int, den: int, rNum: int, rDen: int) returns (n: int, d: int)
    requires Reduced(Fraction(num, den)) && Reduced(Fraction(rNum, rDen))
    ensures Reduced(Fraction(n, d))
    ensures n * (den * rDen) == (num * rNum) * d
  {
    var gcd1 := MathGcd(num, rDen);
    var gcd2 := MathGcd(rNum, den);
    ghost var a1, d1 := GcdQuotients(num, rDen);
    ghost var c1, b1 := GcdQuotients(rNum, den);
    ProductReduced(a1, b1, c1, d1, gcd1, gcd2);
    MulPos(b1, d1);
    n := TruncDiv(num, gcd1) * TruncDiv(rNum, gcd2);
    d := TruncDiv(den, gcd2) * TruncDiv(rDen, gcd1);
  }

  method ReducedQuotient(num: int, den: int, rNum: int, rDen: int) returns (n: int, d: int)
    requires Reduced(Fraction(num, den)) && Reduced(Fraction(rNum, rDen))
    requires num != 0 && rNum != 0
    ensures Reduced(Fraction(n, d))
    ensures n * (den * rNum) == (num * rDen) * d
  {
    var gcd1 := MathGcd(num, rNum);
    var gcd2 := MathGcd(rDen, den);
    ghost var a1, c1 := GcdQuotients(num, rNum);
    ghost var d1, b1 := GcdQuotients(rDen, den);
    GcdSymmetric(rNum, rDen);
    ProductReduced(a1, b1, d1, c1, gcd1, gcd2);
    n := TruncDiv(num, gcd1) * TruncDiv(rDen, gcd2);
    d := TruncDiv(den, gcd2) * TruncDiv(rNum, gcd1);
    assert c1 != 0;
    NonZeroProduct(b1, c1);
    if d < 0 {
      GcdNegate(n, d);
      GcdNegate(n, -d);
      NegateBoth(n, den * rNum, num * rDen, d);
      n, d := -n, -d;
    }
  }

  lemma NonZeroProduct(a: int, b: int)
    requires a > 0 && b != 0
    ensures a * b != 0
  {
  }

  lemma NegateBoth(n: int, x: int, y: int, d: int)
    requires n * x == y * d
    ensures (-n) * x == y * (-d)
  {
  }

  /** The quotients the code obtains by dividing by a gcd. */
  lemma GcdQuotients(a: int, b: int) returns (a1: int, b1: int)
    requires b != 0
    ensures Gcd(a, b) > 0
    ensures a == a1 * Gcd(a, b) && b == b1 * Gcd(a, b)
    ensures TruncDiv(a, Gcd(a, b)) == a1 && TruncDiv(b, Gcd(a, b)) == b1
    ensures Gcd(a1, b1) == 1
    ensures a > 0 ==> a1 > 0
    ensures b > 0 ==> b1 > 0
  {
    CanonicalFacts(a, b);
    var g := Gcd(a, b);
    a1, b1 := TruncDiv(a, g), TruncDiv(b, g);
    if a1 <= 0 { MulMono(a1, 0, g); }
  }
}
