/**
 Arithmetic of a bounded integer type. Each operation is defined only where its mathematical
 result is representable, so code written with these operations verifies only if it never
 leaves the range of its type.
 */
module MachineInt {
  import opened NumberTheory

  datatype IntType = IntType(min: int, max: int) {
    predicate Has(x: int) {
      min <= x <= max
    }

    /** Any type that can hold zero and one. */
    predicate Valid() {
      min <= 0 < max
    }

    /** Two's complement. */
    predicate Signed() {
      0 < max && min == -max - 1
    }

    function Add(a: int, b: int): (r: int)
      requires Has(a) && Has(b) && Has(a + b)
      ensures Has(r)
    {
      a + b
    }

    function Sub(a: int, b: int): (r: int)
      requires Has(a) && Has(b) && Has(a - b)
      ensures Has(r)
    {
      a - b
    }

    function Mul(a: int, b: int): (r: int)
      requires Has(a) && Has(b) && Has(a * b)
      ensures Has(r)
    {
      a * b
    }

    function Div(a: int, b: int): (q: int)
      requires Has(a) && Has(b) && b != 0 && Has(TruncDiv(a, b))
      ensures Has(q)
    {
      TruncDiv(a, b)
    }

    /** C++ leaves `a % b` undefined where `a / b` is not representable. */
    function Mod(a: int, b: int): (r: int)
      requires Has(a) && Has(b) && b != 0 && Has(TruncDiv(a, b)) && Has(TruncMod(a, b))
      ensures Has(r)
    {
      TruncMod(a, b)
    }
  }

  lemma {:induction false} TruncDivFacts(a: int, b: int)
    requires b > 0
    ensures a == TruncDiv(a, b) * b + TruncMod(a, b)
    ensures -b < TruncMod(a, b) < b
    ensures a >= 0 ==> 0 <= TruncDiv(a, b) <= a && TruncMod(a, b) >= 0
    ensures a <= 0 ==> a <= TruncDiv(a, b) <= 0 && TruncMod(a, b) <= 0
  {
    if a >= 0 {
      DivBound(a, b);
    } else {
      DivBound(-a, b);
    }
  }

  lemma DivBound(a: nat, b: int)
    requires b > 0
    ensures 0 <= a / b <= a
    ensures a == (a / b) * b + a % b
  {
    var q := a / b;
    assert q >= 0;
    MulMono(1, b, q);
    assert b * q == q * b;
  }
}
