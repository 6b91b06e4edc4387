/**
 math::gcd and rational::normalize (hence assign and the two-argument constructor) on a signed
 built-in type: once with every operation checked for leaving the type, once in wrapping two's
 complement arithmetic.
 */
module RationalRange {
  import opened Wrappers
  import opened NumberTheory
  import opened CommonFactor
  import opened MachineInt
  import opened RationalTheory

  lemma FactorBound(a: int, k: int, g: nat)
    requires a == k * g && a != 0
    ensures 1 <= g <= Abs(a) && Abs(k) <= Abs(a)
    ensures g >= 2 ==> 2 * Abs(k) <= Abs(a)
  {
    var m := Abs(k);
    assert Abs(a) == m * g by { assert (-k) * g == -(k * g); }
    MulMono(1, m, g);
    MulMono(1, g, m);
    if g >= 2 {
      MulMono(2, g, m);
    }
    assert g * m == m * g;
  }

  lemma GcdBound(a: int, b: int)
    ensures a != 0 ==> 1 <= Gcd(a, b) <= Abs(a)
    ensures b != 0 ==> 1 <= Gcd(a, b) <= Abs(b)
  {
    var x, y, a1, b1 := Bezout(a, b);
    if a != 0 { FactorBound(a, a1, Gcd(a, b)); }
    if b != 0 { FactorBound(b, b1, Gcd(a, b)); }
  }

  /** A quotient by the gcd is representable; its negation fails only for the minimum itself. */
  lemma QuotientRange(t: IntType, n: int, p: int, g: nat)
    requires t.Signed() && t.Has(n) && n != 0 && n == p * g
    ensures g >= 1 && t.Has(p)
    ensures t.Has(-p) <==> !(n == t.min && g == 1)
  {
    FactorBound(n, p, g);
  }

  // ----- every operation checked

  /** math::gcd negates its negative arguments in the type itself. */
  method CheckedGcd(t: IntType, a: int, b: int) returns (g: Option<int>)
    requires t.Signed() && t.Has(a) && t.Has(b)
    ensures g.Some? <==> a != t.min && b != t.min
    ensures g.Some? ==> g.value == Gcd(a, b) && t.Has(g.value)
  {
    if (a < 0 && !t.Has(-a)) || (b < 0 && !t.Has(-b)) {
      return None;
    }
    var magnitude := GcdBinary(Abs(a), Abs(b));
    GcdBound(a, b);
    g := Some(magnitude);
  }

  datatype Normalized = BadRational | OutOfRange | Normal(f: Fraction)

  /** normalize() stays in range exactly if neither field of a non-zero value is the minimum. */
  method CheckedNormalize(t: IntType, num: int, den: int) returns (r: Normalized)
    requires t.Signed() && t.Has(num) && t.Has(den)
    ensures r.BadRational? <==> den == 0
    ensures r.OutOfRange? <==> num != 0 && den != 0 && (num == t.min || den == t.min)
    ensures r.Normal? ==> r.f == Canonical(num, den) && t.Has(r.f.num) && t.Has(r.f.den)
  {
    if den == 0 {
      return BadRational;
    }
    if num == 0 {
      ZeroIsCanonical(den);
      return Normal(Fraction(0, 1));
    }
    var g := CheckedGcd(t, num, den);
    if g.None? {
      return OutOfRange;
    }
    ghost var f := DividedByGcd(num, den);
    IsCanonical(f, num, den);
    CanonicalFacts(num, den);
    GcdBound(num, den);
    var n, d := TruncDiv(num, g.value), TruncDiv(den, g.value);
    QuotientRange(t, num, n, g.value);
    QuotientRange(t, den, d, g.value);
    if d < 0 {
      if !t.Has(-n) || !t.Has(-d) {
        return OutOfRange;
      }
      n, d := -n, -d;
    }
    r := Normal(Fraction(n, d));
  }

  lemma ZeroIsCanonical(den: int)
    requires den != 0
    ensures Canonical(0, den) == Fraction(0, 1)
  {
    CoprimeFromBezout(0, 1, 0, 1);
    IsCanonical(Fraction(0, 1), 0, den);
  }

  // ----- wrapping arithmetic

  function Span(t: IntType): (n: int) {
    t.max - t.min + 1
  }

  /** Two's complement: the value of the type congruent to x. */
  function Wrap(t: IntType, x: int): (r: int)
    requires t.Signed()
    ensures t.Has(r)
    ensures t.Has(x) ==> r == x
    ensures x == t.max + 1 ==> r == t.min
  {
    ModuloOnce(x - t.min, Span(t));
    (x - t.min) % Span(t) + t.min
  }

  lemma ModuloOnce(x: int, m: int)
    requires m > 0
    ensures 0 <= x % m < m
    ensures 0 <= x < m ==> x % m == x
    ensures x == m ==> x % m == 0
  {
    var q, r := x / m, x % m;
    assert x == q * m + r;
    if q >= 1 { MulMono(1, q, m); }
    if q <= -1 { MulMono(q, -1, m); }
    if q >= 2 { MulMono(2, q, m); }
  }

  function ToUnsigned(t: IntType, x: int): (r: nat)
    requires t.Signed() && t.Has(x)
    ensures (r - x) == 0 || (r - x) == Span(t)
  {
    if x < 0 then x + Span(t) else x
  }

  /** The magnitudes are right even for the minimum; the result is not if it is max + 1. */
  method WrappingGcd(t: IntType, a: int, b: int) returns (g: int)
    requires t.Signed() && t.Has(a) && t.Has(b)
    ensures g == Wrap(t, Gcd(a, b))
    ensures g == Gcd(a, b) <==> !(a in {0, t.min} && b in {0, t.min} && (a != 0 || b != 0))
  {
    var aAbs := ToUnsigned(t, if a < 0 then Wrap(t, -a) else a);
    var bAbs := ToUnsigned(t, if b < 0 then Wrap(t, -b) else b);
    assert aAbs == Abs(a) && bAbs == Abs(b);
    var magnitude := GcdBinary(aAbs, bAbs);
    g := Wrap(t, magnitude);
    GcdBound(a, b);
    MinimumGcd(t, a, b);
  }

  /** The gcd leaves the type exactly if no argument but zero and the minimum is involved. */
  lemma MinimumGcd(t: IntType, a: int, b: int)
    requires t.Signed() && t.Has(a) && t.Has(b)
    ensures Gcd(a, b) <= t.max + 1
    ensures Gcd(a, b) == t.max + 1 <==> a in {0, t.min} && b in {0, t.min} && (a != 0 || b != 0)
  {
    GcdBound(a, b);
    GcdPositive(a, b);
    var g := Gcd(a, b);
    if a in {0, t.min} && b in {0, t.min} && (a != 0 || b != 0) {
      var m := t.max + 1;
      var a1, b1 := if a == 0 then 0 else -1, if b == 0 then 0 else -1;
      if a != 0 { GcdUnique(a, b, m, -1, 0, a1, b1); } else { GcdUnique(a, b, m, 0, -1, a1, b1); }
    } else if g == t.max + 1 {
      var x, y, a1, b1 := Bezout(a, b);
      LargeFactor(t, a, a1);
      LargeFactor(t, b, b1);
      assert false;
    }
  }

  lemma LargeFactor(t: IntType, a: int, k: int)
    requires t.Signed() && t.Has(a) && a == k * (t.max + 1)
    ensures a in {0, t.min}
  {
    if a != 0 {
      FactorBound(a, k, t.max + 1);
    }
  }

  /** test_invariant() with the gcd it calls: a wrapped gcd is never mistaken for one. */
  method WrappingTestInvariant(t: IntType, f: Fraction) returns (b: bool)
    requires t.Signed() && t.Has(f.num) && t.Has(f.den)
    ensures b <==> Reduced(f)
  {
    if f.den <= 0 {
      return false;
    }
    var g := WrappingGcd(t, f.num, f.den);
    MinimumGcd(t, f.num, f.den);
    b := g == 1;
  }

  /** What wrapping negations leave after the division by the gcd. */
  method WrappingNormalize(t: IntType, num: int, den: int) returns (threw: bool, f: Fraction, invariantHolds: bool)
    requires t.Signed() && t.Has(num) && t.Has(den)
    ensures threw <==> den == 0
    ensures !threw ==> f == Fraction(Wrap(t, Canonical(num, den).num), Wrap(t, Canonical(num, den).den))
    ensures !threw ==>
      (f == Canonical(num, den) <==> !(den < 0 && Gcd(num, den) == 1 && (num == t.min || den == t.min)))
    ensures !threw ==> (invariantHolds <==> !(den == t.min && Gcd(num, den) == 1))
    ensures !threw ==> (invariantHolds <==> Reduced(f))
  {
    if den == 0 {
      return true, Fraction(num, den), false;
    }
    threw := false;
    f := WrappingReduced(t, num, den);
    invariantHolds := WrappingTestInvariant(t, f);
  }

  /** normalize() on a non-zero denominator. */
  method WrappingReduced(t: IntType, num: int, den: int) returns (f: Fraction)
    requires t.Signed() && t.Has(num) && t.Has(den) && den != 0
    ensures f == Fraction(Wrap(t, Canonical(num, den).num), Wrap(t, Canonical(num, den).den))
    ensures f == Canonical(num, den) <==> !(den < 0 && Gcd(num, den) == 1 && (num == t.min || den == t.min))
    ensures Reduced(f) <==> !(den == t.min && Gcd(num, den) == 1)
  {
    GcdBound(num, den);
    if num == 0 {
      ZeroIsCanonical(den);
      CoprimeFromBezout(0, 1, 0, 1);
      assert den == t.min ==> Gcd(num, den) != 1 by { MinimumGcd(t, num, den); }
      return Fraction(0, 1);
    }
    var g := WrappingGcd(t, num, den);
    if num == t.min && den == t.min {
      MinimumGcd(t, num, den);
      CoprimeFromBezout(1, 1, 0, 1);
      IsCanonical(Fraction(1, 1), num, den);
      assert TruncDiv(t.min, t.min) == 1;
      return Fraction(TruncDiv(num, g), TruncDiv(den, g));
    }
    f := DivideAndNegate(t, num, den, g);
  }

  method DivideAndNegate(t: IntType, num: int, den: int, g: int) returns (f: Fraction)
    requires t.Signed() && t.Has(num) && t.Has(den) && num != 0 && den != 0 && g == Gcd(num, den)
    ensures f == Fraction(Wrap(t, Canonical(num, den).num), Wrap(t, Canonical(num, den).den))
    ensures f == Canonical(num, den) <==> !(den < 0 && g == 1 && (num == t.min || den == t.min))
    ensures Reduced(f) <==> !(den == t.min && g == 1)
  {
    GcdBound(num, den);
    ghost var c := DividedByGcd(num, den);
    IsCanonical(c, num, den);
    CanonicalFacts(num, den);
    var n, d := TruncDiv(num, g), TruncDiv(den, g);
    QuotientRange(t, num, n, g);
    QuotientRange(t, den, d, g);
    GcdNegate(n, d);
    if d < 0 {
      n, d := Wrap(t, -n), Wrap(t, -d);
    }
    f := Fraction(n, d);
  }

  /** With int, INT_MIN/-3 becomes INT_MIN/3, which passes test_invariant; 1/INT_MIN fails it. */
  method MinimumFails(t: IntType) returns (f1: Fraction, ok1: bool, f2: Fraction, ok2: bool)
    requires t == IntType(-0x8000_0000, 0x7fff_ffff)
    ensures Canonical(t.min, -3) == Fraction(-t.min, 3) && f1 == Fraction(t.min, 3) && ok1
    ensures Canonical(1, t.min) == Fraction(-1, -t.min) && f2 == Fraction(-1, t.min) && !ok2
  {
    CoprimeFromBezout(-t.min, 3, -1, 715827883);
    IsCanonical(Fraction(-t.min, 3), t.min, -3);
    CoprimeFromBezout(-1, -t.min, -1, 0);
    IsCanonical(Fraction(-1, -t.min), 1, t.min);
    GcdNegate(-t.min, 3);
    var threw1, threw2;
    threw1, f1, ok1 := WrappingNormalize(t, t.min, -3);
    threw2, f2, ok2 := WrappingNormalize(t, 1, t.min);
  }
}
