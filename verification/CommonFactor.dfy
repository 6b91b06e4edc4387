/** boost/math/common_factor_rt.hpp: the two ways math::gcd is computed. */
module CommonFactor {
  import opened NumberTheory

  /** gcd_euclidean on signed integers, made non-negative as gcd_integer does. */
  method GcdInteger(a: int, b: int) returns (g: int)
    ensures g == Gcd(a, b)
  {
    var x, y := a, b;
    while true
      invariant Gcd(x, y) == Gcd(a, b)
      decreases Abs(x)
    {
      if x == 0 {
        g := y;
        break;
      }
      TruncRemainder(y, x);
      GcdStep(y, x);
      y := TruncMod(y, x);
      if y == 0 {
        g := x;
        GcdSymmetric(x, y);
        break;
      }
      TruncRemainder(x, y);
      GcdSymmetric(x, y);
      GcdStep(x, y);
      GcdSymmetric(TruncMod(x, y), y);
      x := TruncMod(x, y);
    }
    GcdSymmetric(0, g);
    if g < 0 {
      g := -g;
    }
  }

  lemma TruncRemainder(a: int, b: int)
    requires b != 0
    ensures Abs(TruncMod(a, b)) < Abs(b)
  {
    var q := TruncDiv(a, b);
    if a < 0 {
      assert -a == ((-a) / b) * b + (-a) % b;
      assert q * b == -(((-a) / b) * b);
    }
  }

  /** gcd(a, b) = gcd(b, a mod b), as gcd(b, a) in the order the loop holds them. */
  lemma GcdStep(a: int, b: int)
    requires b != 0
    ensures Gcd(b, TruncMod(a, b)) == Gcd(b, a)
  {
    var k := -TruncDiv(a, b);
    NegatedProduct(TruncDiv(a, b), b);
    assert a + k * b == TruncMod(a, b);
    GcdShift(a, b, k);
    GcdSymmetric(a, b);
    GcdSymmetric(TruncMod(a, b), b);
  }

  lemma NegatedProduct(q: int, b: int)
    ensures (-q) * b == -(q * b)
  {
  }

  function Shifted(g: nat, shifts: nat): (s: nat)
    ensures g > 0 ==> s > 0
  {
    if shifts == 0 then g else 2 * Shifted(g, shifts - 1)
  }

  lemma {:induction false} ShiftedDouble(g: nat, shifts: nat)
    ensures Shifted(2 * g, shifts) == Shifted(g, shifts + 1)
  {
    if shifts > 0 {
      ShiftedDouble(g, shifts - 1);
    }
  }

  lemma GcdEven(x: nat, y: nat)
    ensures Gcd(2 * x, 2 * y) == 2 * Gcd(x, y)
  {
    GcdScale(x, y, 2);
  }

  /** A factor two of one side does not matter when the other side is odd. */
  lemma GcdOdd(x: nat, y: nat)
    requires y % 2 == 1
    ensures Gcd(2 * x, y) == Gcd(x, y)
  {
    CoprimeFromBezout(y, 2, 1, -(y / 2));
    GcdAbsorb(y, 2, x);
    GcdSymmetric(y, 2 * x);
    GcdSymmetric(y, x);
  }

  lemma GcdDifference(x: nat, y: nat)
    ensures Gcd(x - y, y) == Gcd(x, y)
  {
    GcdShift(x, y, -1);
  }

  /** gcd_binary: the gcd by halving and subtracting. */
  method GcdBinary(a: nat, b: nat) returns (g: nat)
    ensures g == Gcd(a, b)
  {
    var u, v := a, b;
    if u == 0 || v == 0 {
      GcdSymmetric(u, v);
      return u + v;
    }
    var shifts := 0;
    while u % 2 == 0 && v % 2 == 0
      invariant u > 0 && v > 0
      invariant Shifted(Gcd(u, v), shifts) == Gcd(a, b)
      decreases u
    {
      GcdEven(u / 2, v / 2);
      ShiftedDouble(Gcd(u / 2, v / 2), shifts);
      shifts, u, v := shifts + 1, u / 2, v / 2;
    }
    var residue;
    if u % 2 == 0 {
      residue := Whittle(u, v);
    } else {
      GcdSymmetric(u, v);
      residue := Whittle(v, u);
    }
    g := Shifted(residue, shifts);
  }

  /** Remove the factors of two from the still-even one. */
  method RemoveTwos(even: nat, odd: nat) returns (e: nat)
    requires even > 0 && odd % 2 == 1
    ensures 0 < e <= even && e % 2 == 1
    ensures Gcd(e, odd) == Gcd(even, odd)
  {
    e := even;
    while e % 2 == 0
      invariant 0 < e <= even
      invariant Gcd(e, odd) == Gcd(even, odd)
      decreases e
    {
      GcdOdd(e / 2, odd);
      e := e / 2;
    }
  }

  /** Whittle two values down via their differences; r[which] is `even`, its partner `odd`. */
  method Whittle(u: nat, v: nat) returns (g: nat)
    requires u > 0 && v % 2 == 1
    ensures g == Gcd(u, v)
  {
    var even, odd := u, v;
    while even != 0
      invariant odd % 2 == 1
      invariant Gcd(even, odd) == Gcd(u, v)
      decreases even + odd
    {
      even := RemoveTwos(even, odd);
      if odd > even {
        GcdSymmetric(odd, even);
        even, odd := odd, even;
      }
      GcdDifference(even, odd);
      even := even - odd;
    }
    GcdSymmetric(0, odd);
    g := odd;
  }

  /** math::gcd on a built-in signed type: the binary gcd of the magnitudes. */
  method MathGcd(a: int, b: int) returns (g: nat)
    ensures g == Gcd(a, b)
    ensures g > 0 <==> a != 0 || b != 0
  {
    g := GcdBinary(Abs(a), Abs(b));
    GcdPositive(a, b);
  }

  lemma GcdPositive(a: int, b: int)
    ensures Gcd(a, b) > 0 <==> a != 0 || b != 0
  {
    var _, _, a1, b1 := Bezout(a, b);
  }
}
