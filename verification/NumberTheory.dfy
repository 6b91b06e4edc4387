/** Greatest common divisors, and the integer division of C++. */
module NumberTheory {

  function Abs(a: int): (r: nat) {
    if a < 0 then -a else a
  }

  // ----- C++ division truncates toward zero

  function TruncDiv(a: int, b: int): (q: int)
    requires b != 0
  {
    if a >= 0 then a / b else -((-a) / b)
  }

  function TruncMod(a: int, b: int): (r: int)
    requires b != 0
  {
    a - TruncDiv(a, b) * b
  }

  lemma TruncMultiple(k: int, b: int)
    requires b > 0
    ensures TruncDiv(k * b, b) == k
  {
    if k >= 0 {
      DivMultiple(k, b);
    } else {
      MulNonNeg(-k, b);
      assert -(k * b) == (-k) * b;
      DivMultiple(-k, b);
      assert k * b < 0 by { MulPos(-k, b); }
    }
  }

  lemma DivMultiple(k: nat, b: int)
    requires b > 0
    ensures k * b >= 0 && (k * b) / b == k
  {
    MulNonNeg(k, b);
    var q, r := (k * b) / b, (k * b) % b;
    assert k * b == q * b + r;
    if q < k {
      MulMono(q + 1, k, b);
    } else if q > k {
      MulMono(k + 1, q, b);
    }
  }

  lemma MulNonNeg(a: int, b: int)
    requires a >= 0 && b >= 0
    ensures a * b >= 0
  {
  }

  lemma MulPos(a: int, b: int)
    requires a > 0 && b > 0
    ensures a * b > 0
  {
  }

  lemma MulMono(a: int, b: int, c: int)
    requires a <= b && c >= 0
    ensures a * c <= b * c
  {
  }

  // ----- gcd

  function GcdNat(a: nat, b: nat): (g: nat)
    decreases b
  {
    if b == 0 then a else GcdNat(b, a % b)
  }

  /** The non-negative greatest common divisor; Gcd(0, 0) is 0. */
  function Gcd(a: int, b: int): (g: nat) {
    GcdNat(Abs(a), Abs(b))
  }

  lemma {:induction false} GcdNatBezout(a: nat, b: nat) returns (x: int, y: int, a1: nat, b1: nat)
    ensures x * a + y * b == GcdNat(a, b)
    ensures a == a1 * GcdNat(a, b) && b == b1 * GcdNat(a, b)
    decreases b
  {
    if b == 0 {
      x, y, a1, b1 := 1, 0, 1, 0;
    } else {
      var q, r := a / b, a % b;
      var u, v, c1, r1 := GcdNatBezout(b, r);
      var g := GcdNat(b, r);
      x, y, b1 := v, u - q * v, c1;
      MulNonNeg(q, c1);
      a1 := q * c1 + r1;
      assert a == q * b + r;
      EuclidCombination(u, v, q, b, r);
      EuclidDivisor(q, c1, r1, g);
    }
  }

  lemma EuclidCombination(u: int, v: int, q: int, b: int, r: int)
    ensures v * (q * b + r) + (u - q * v) * b == u * b + v * r
  {
    assert v * (q * b + r) == q * v * b + v * r;
    assert (u - q * v) * b == u * b - q * v * b;
  }

  lemma EuclidDivisor(q: int, c: int, r: int, g: int)
    ensures (q * c + r) * g == q * (c * g) + r * g
  {
    assert q * c * g == q * (c * g);
  }

  /** Gcd(a, b) is a common divisor and an integer combination of a and b. */
  lemma Bezout(a: int, b: int) returns (x: int, y: int, a1: int, b1: int)
    ensures x * a + y * b == Gcd(a, b)
    ensures a == a1 * Gcd(a, b) && b == b1 * Gcd(a, b)
  {
    var u, v, p, q := GcdNatBezout(Abs(a), Abs(b));
    var s, t := if a < 0 then -1 else 1, if b < 0 then -1 else 1;
    x, y, a1, b1 := s * u, t * v, s * p, t * q;
    SignTransfer(u, p, a, s, Gcd(a, b));
    SignTransfer(v, q, b, t, Gcd(a, b));
  }

  lemma SignTransfer(x: int, a1: int, a: int, s: int, g: int)
    requires s == if a < 0 then -1 else 1
    requires Abs(a) == a1 * g
    ensures (s * x) * a == x * Abs(a)
    ensures a == (s * a1) * g
  {
    if a < 0 {
      assert (s * a1) * g == -(a1 * g);
      assert (s * x) * a == -(x * a);
    }
  }

  /** A non-negative common divisor that is a combination of a and b is the gcd. */
  lemma GcdUnique(a: int, b: int, g: nat, x: int, y: int, a1: int, b1: int)
    requires x * a + y * b == g
    requires a == a1 * g && b == b1 * g
    ensures Gcd(a, b) == g
  {
    var h := Gcd(a, b);
    var u, v, a2, b2 := Bezout(a, b);
    Combine(x, a2, y, b2, h);
    Combine(u, a1, v, b1, g);
    assert g == (x * a2 + y * b2) * h;
    assert h == (u * a1 + v * b1) * g;
    MutualDivisors(g, h, x * a2 + y * b2, u * a1 + v * b1);
  }

  lemma Combine(x: int, a: int, y: int, b: int, g: int)
    ensures x * (a * g) + y * (b * g) == (x * a + y * b) * g
  {
    assert x * (a * g) == x * a * g;
    assert y * (b * g) == y * b * g;
  }

  lemma MutualDivisors(g: nat, h: nat, s: int, t: int)
    requires g == s * h && h == t * g
    ensures g == h
  {
    if g > 0 && h > 0 {
      if s <= 0 { MulMono(s, 0, h); }
      if t <= 0 { MulMono(t, 0, g); }
      MulMono(1, s, h);
      MulMono(1, t, g);
    }
  }

  lemma GcdSymmetric(a: int, b: int)
    ensures Gcd(a, b) == Gcd(b, a)
  {
    var x, y, a1, b1 := Bezout(b, a);
    GcdUnique(a, b, Gcd(b, a), y, x, b1, a1);
  }

  lemma GcdNegate(a: int, b: int)
    ensures Gcd(-a, b) == Gcd(a, b) == Gcd(a, -b)
  {
  }

  /** Adding a multiple of b to a does not change the gcd. */
  lemma GcdShift(a: int, b: int, k: int)
    ensures Gcd(a + k * b, b) == Gcd(a, b)
  {
    var g := Gcd(a, b);
    var x, y, a1, b1 := Bezout(a, b);
    ShiftCombination(x, y, a, b, k);
    ShiftDivisor(a1, b1, k, g);
    GcdUnique(a + k * b, b, g, x, y - x * k, a1 + k * b1, b1);
  }

  lemma ShiftCombination(x: int, y: int, a: int, b: int, k: int)
    ensures x * (a + k * b) + (y - x * k) * b == x * a + y * b
  {
    assert x * (a + k * b) == x * a + x * k * b;
    assert (y - x * k) * b == y * b - x * k * b;
  }

  lemma ShiftDivisor(a: int, b: int, k: int, g: int)
    ensures (a + k * b) * g == a * g + k * (b * g)
  {
    assert k * b * g == k * (b * g);
  }

  /** A common factor comes out of the gcd. */
  lemma GcdScale(a: int, b: int, k: nat)
    ensures Gcd(a * k, b * k) == Gcd(a, b) * k
  {
    var g := Gcd(a, b);
    var x, y, a1, b1 := Bezout(a, b);
    MulNonNeg(g, k);
    Combine(x, a, y, b, k);
    Associate(a1, g, k);
    Associate(b1, g, k);
    GcdUnique(a * k, b * k, g * k, x, y, a1, b1);
  }

  // ----- coprime numbers

  lemma CoprimeFromBezout(a: int, b: int, x: int, y: int)
    requires x * a + y * b == 1
    ensures Gcd(a, b) == 1
  {
    GcdUnique(a, b, 1, x, y, a, b);
  }

  /** Dividing by the gcd leaves coprime numbers. */
  lemma CoprimeQuotients(a: int, b: int) returns (a1: int, b1: int)
    requires Gcd(a, b) != 0
    ensures a == a1 * Gcd(a, b) && b == b1 * Gcd(a, b)
    ensures Gcd(a1, b1) == 1
  {
    var g := Gcd(a, b);
    var x, y, p, q := Bezout(a, b);
    a1, b1 := p, q;
    Combine(x, a1, y, b1, g);
    assert (x * a1 + y * b1) * g == 1 * g;
    MulCancel(x * a1 + y * b1, 1, g);
    CoprimeFromBezout(a1, b1, x, y);
  }

  lemma MulCancel(a: int, b: int, c: int)
    requires c != 0 && a * c == b * c
    ensures a == b
  {
  }

  lemma CoprimeProduct(a: int, b: int, c: int)
    requires Gcd(a, b) == 1 && Gcd(a, c) == 1
    ensures Gcd(a, b * c) == 1
  {
    var x, y, _, _ := Bezout(a, b);
    var u, v, _, _ := Bezout(a, c);
    ProductOfOnes(x * a + y * b, u * a + v * c);
    ProductCombination(x, y, u, v, a, b, c);
    CoprimeFromBezout(a, b * c, x * u * a + x * v * c + y * b * u, y * v);
  }

  lemma ProductOfOnes(p: int, q: int)
    requires p == 1 && q == 1
    ensures p * q == 1
  {
  }

  lemma ProductCombination(x: int, y: int, u: int, v: int, a: int, b: int, c: int)
    ensures (x * a + y * b) * (u * a + v * c)
         == (x * u * a + x * v * c + y * b * u) * a + (y * v) * (b * c)
  {
    var s := u * a + v * c;
    assert (x * a + y * b) * s == x * a * s + y * b * s;
    assert x * a * s == (x * u * a + x * v * c) * a;
    assert y * b * s == (y * b * u) * a + (y * v) * (b * c);
  }

  /** A factor of b is coprime to whatever b is coprime to. */
  lemma CoprimeFactor(a: int, d: int, k: int)
    requires Gcd(a, d * k) == 1
    ensures Gcd(a, d) == 1
  {
    var x, y, _, _ := Bezout(a, d * k);
    assert y * (d * k) == (y * k) * d;
    CoprimeFromBezout(a, d, x, y * k);
  }

  /** ... on both sides. */
  lemma CoprimeFactors(a: int, j: int, b: int, k: int)
    requires Gcd(a * j, b * k) == 1
    ensures Gcd(a, b) == 1
  {
    CoprimeFactor(a * j, b, k);
    GcdSymmetric(a * j, b);
    CoprimeFactor(b, a, j);
    GcdSymmetric(b, a);
  }

  /** A factor coprime to n does not change the gcd with n. */
  lemma GcdAbsorb(n: int, x: int, g: int)
    requires Gcd(n, x) == 1
    ensures Gcd(n, x * g) == Gcd(n, g)
  {
    var h := Gcd(n, g);
    var u, v, _, _ := Bezout(n, x);
    var s, t, n1, g1 := Bezout(n, g);
    AbsorbCombination(s, t, u, v, n, x, g, h);
    Associate(x, g1, h);
    GcdUnique(n, x * g, h, s + t * g * u, t * v, n1, x * g1);
  }

  lemma Associate(a: int, b: int, c: int)
    ensures a * (b * c) == a * b * c
  {
  }

  /** h = s n + t g, with g rewritten as g (u n + v x). */
  lemma AbsorbCombination(s: int, t: int, u: int, v: int, n: int, x: int, g: int, h: int)
    requires u * n + v * x == 1
    requires s * n + t * g == h
    ensures (s + t * g * u) * n + (t * v) * (x * g) == h
  {
    var k := t * g;
    assert (t * v) * (x * g) == k * (v * x);
    assert (s + k * u) * n == s * n + k * (u * n);
    assert k * (u * n) + k * (v * x) == k * (u * n + v * x);
  }

  /** Euclid's lemma. */
  lemma CoprimeDivides(a: int, b: int, c: int, k: int) returns (j: int)
    requires Gcd(a, b) == 1 && b * c == k * a
    ensures c == j * a
  {
    var x, y, _, _ := Bezout(a, b);
    j := x * c + y * k;
    DividesCombination(x, y, a, b, c, k);
  }

  lemma DividesCombination(x: int, y: int, a: int, b: int, c: int, k: int)
    requires x * a + y * b == 1 && b * c == k * a
    ensures c == (x * c + y * k) * a
  {
    assert (x * a + y * b) * c == x * c * a + y * (b * c);
    assert y * (k * a) == y * k * a;
  }
}
