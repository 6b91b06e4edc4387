/**
 fc/safe.hpp: arithmetic on a signed integer type that throws instead of overflowing.

 The guards are written with MachineInt operations, which are defined only on representable
 results: that these functions are well defined says that no guard overflows.
 */
module SafeInt {
  import opened Wrappers
  import opened NumberTheory
  import opened MachineInt

  datatype SafeError = Overflow | Underflow | DivideByZero

  datatype Checked = Ok(value: int) | Throw(error: SafeError)

  /** What a checked operation must do when the exact result is `exact`. */
  ghost predicate Checks(t: IntType, exact: int, r: Checked) {
    if exact > t.max then r == Throw(Overflow)
    else if exact < t.min then r == Throw(Underflow)
    else r == Ok(exact)
  }

  function Plus(t: IntType, a: int, b: int): (r: Checked)
    requires t.Signed() && t.Has(a) && t.Has(b)
    ensures Checks(t, a + b, r)
  {
    if b > 0 && a > t.Sub(t.max, b) then Throw(Overflow)
    else if b < 0 && a < t.Sub(t.min, b) then Throw(Underflow)
    else Ok(t.Add(a, b))
  }

  function Minus(t: IntType, a: int, b: int): (r: Checked)
    requires t.Signed() && t.Has(a) && t.Has(b)
    ensures Checks(t, a - b, r)
  {
    if b > 0 && a < t.Add(t.min, b) then Throw(Underflow)
    else if b < 0 && a > t.Add(t.max, b) then Throw(Overflow)
    else Ok(t.Sub(a, b))
  }

  /** a > m / b decides a * b > m. */
  lemma QuotientGuard(m: nat, b: int, a: int)
    requires b > 0
    ensures 0 <= m / b <= m
    ensures a > m / b <==> a * b > m
  {
    DivBound(m, b);
    var q := m / b;
    if a > q {
      MulMono(q + 1, a, b);
    } else {
      MulMono(a, q, b);
    }
  }

  lemma NegativeDivisor(m: nat, d: int)
    requires d > 0
    ensures TruncDiv(m, -d) == -(m / d)
  {
    var q, r := m / (-d), m % (-d);
    assert m == q * (-d) + r;
    assert m == (-q) * d + r;
    DivBound(m, d);
    var p, s := m / d, m % d;
    if -q > p {
      MulMono(p + 1, -q, d);
    } else if -q < p {
      MulMono(-q + 1, p, d);
    }
  }

  lemma NegativeDividend(m: int, d: int)
    requires m > 0 && d > 0
    ensures TruncDiv(-m, d) == -(m / d)
  {
  }

  /** The four guards of operator*, by the signs of the factors. */
  lemma ProductGuards(t: IntType, a: int, b: int)
    requires t.Signed() && t.Has(a) && t.Has(b)
    ensures b > 0 ==> t.Has(TruncDiv(t.max, b)) && (a > TruncDiv(t.max, b) <==> a * b > t.max)
    ensures a > 0 ==> t.Has(TruncDiv(t.min, a)) && (b < TruncDiv(t.min, a) <==> a * b < t.min)
    ensures b > 0 ==> t.Has(TruncDiv(t.min, b)) && (a < TruncDiv(t.min, b) <==> a * b < t.min)
    ensures a < 0 ==> t.Has(TruncDiv(t.max, a)) && (b < TruncDiv(t.max, a) <==> a * b > t.max)
  {
    if b > 0 {
      QuotientGuard(t.max, b, a);
      LowerGuard(t, b, a);
    }
    if a > 0 {
      LowerGuard(t, a, b);
    }
    if a < 0 {
      UpperGuard(t, a, b);
    }
  }

  lemma LowerGuard(t: IntType, b: int, a: int)
    requires t.Signed() && b > 0
    ensures t.Has(TruncDiv(t.min, b)) && (a < TruncDiv(t.min, b) <==> a * b < t.min)
  {
    QuotientGuard(-t.min, b, -a);
    NegativeDividend(-t.min, b);
    assert (-a) * b == -(a * b);
  }

  lemma UpperGuard(t: IntType, a: int, b: int)
    requires t.Signed() && a < 0
    ensures t.Has(TruncDiv(t.max, a)) && (b < TruncDiv(t.max, a) <==> a * b > t.max)
  {
    QuotientGuard(t.max, -a, -b);
    NegativeDivisor(t.max, -a);
    assert (-b) * (-a) == a * b;
  }

  lemma ProductSigns(a: int, b: int)
    ensures a > 0 && b <= 0 ==> a * b <= 0
    ensures a <= 0 && b > 0 ==> a * b <= 0
    ensures a <= 0 && b <= 0 ==> a * b >= 0
    ensures a > 0 && b > 0 ==> a * b > 0
  {
  }

  function Product(t: IntType, a: int, b: int): (r: Checked)
    requires t.Signed() && t.Has(a) && t.Has(b)
    ensures Checks(t, a * b, r)
  {
    ProductGuards(t, a, b);
    ProductSigns(a, b);
    if a > 0 then
      if b > 0 then
        if a > t.Div(t.max, b) then Throw(Overflow) else Ok(t.Mul(a, b))
      else
        if b < t.Div(t.min, a) then Throw(Underflow) else Ok(t.Mul(a, b))
    else
      if b > 0 then
        if a < t.Div(t.min, b) then Throw(Underflow) else Ok(t.Mul(a, b))
      else
        if a != 0 && b < t.Div(t.max, a) then Throw(Overflow) else Ok(t.Mul(a, b))
  }

  /** Only min / -1 leaves the range. */
  lemma QuotientRange(t: IntType, a: int, b: int)
    requires t.Signed() && t.Has(a) && t.Has(b) && b != 0
    ensures !(a == t.min && b == -1) ==> t.Has(TruncDiv(a, b))
    ensures a == t.min && b == -1 ==> TruncDiv(a, b) == t.max + 1
    ensures -t.max <= TruncMod(a, b) <= t.max
  {
    if b > 0 {
      TruncDivFacts(a, b);
    } else {
      TruncDivFacts(a, -b);
      OppositeDivisor(a, -b);
      if a < 0 && b != -1 {
        var m, d := -a, -b;
        DivBound(m, d);
        MulMono(2, d, m / d);
        assert d * (m / d) == (m / d) * d;
      }
    }
  }

  lemma OppositeDivisor(a: int, d: int)
    requires d > 0
    ensures TruncDiv(a, -d) == -TruncDiv(a, d)
    ensures TruncMod(a, -d) == TruncMod(a, d)
  {
    if a >= 0 {
      NegativeDivisor(a, d);
    } else {
      NegativeDivisor(-a, d);
    }
    assert (-TruncDiv(a, d)) * (-d) == TruncDiv(a, d) * d;
  }

  function Quotient(t: IntType, a: int, b: int): (r: Checked)
    requires t.Signed() && t.Has(a) && t.Has(b)
    ensures if b == 0 then r == Throw(DivideByZero) else Checks(t, TruncDiv(a, b), r)
  {
    if b == 0 then Throw(DivideByZero)
    else
      QuotientRange(t, a, b);
      if a == t.min && b == -1 then Throw(Overflow) else Ok(t.Div(a, b))
  }

  /** Unlike the other operations, % also throws where its exact result, zero, is representable. */
  function Remainder(t: IntType, a: int, b: int): (r: Checked)
    requires t.Signed() && t.Has(a) && t.Has(b)
    ensures b == 0 ==> r == Throw(DivideByZero)
    ensures b != 0 ==> t.Has(TruncMod(a, b))
    ensures b != 0 ==> r == if a == t.min && b == -1 then Throw(Overflow) else Ok(TruncMod(a, b))
  {
    if b == 0 then Throw(DivideByZero)
    else
      QuotientRange(t, a, b);
      if a == t.min && b == -1 then Throw(Overflow) else Ok(t.Mod(a, b))
  }

  // ----- runs

  datatype Op = Add(b: int) | Sub(b: int) | Mul(b: int) | Div(b: int) | Mod(b: int) | Increment | Decrement {
    predicate Valid(t: IntType) {
      (Add? || Sub? || Mul? || Div? || Mod?) ==> t.Has(b)
    }
  }

  /** The integer an operation asks for; None for a division by zero. */
  function ExactResult(v: int, op: Op): (e: Option<int>) {
    match op
    case Add(b) => Some(v + b)
    case Sub(b) => Some(v - b)
    case Mul(b) => Some(v * b)
    case Div(b) => if b == 0 then None else Some(TruncDiv(v, b))
    case Mod(b) => if b == 0 then None else Some(TruncMod(v, b))
    case Increment => Some(v + 1)
    case Decrement => Some(v - 1)
  }

  /** The exception an operation throws: only min % -1 throws with a representable result. */
  function ErrorOf(t: IntType, v: int, op: Op): (e: Option<SafeError>) {
    match ExactResult(v, op)
    case None => Some(DivideByZero)
    case Some(x) =>
      if x > t.max || (op == Mod(-1) && v == t.min) then Some(Overflow)
      else if x < t.min then Some(Underflow)
      else None
  }

  /** The exact computation, with the operations that throw left out. */
  function ExactRun(t: IntType, v: int, ops: seq<Op>): (v': int)
    decreases ops
  {
    if ops == [] then v
    else
      var k := |ops| - 1;
      var u := ExactRun(t, v, ops[..k]);
      if ErrorOf(t, u, ops[k]) == None then ExactResult(u, ops[k]).value else u
  }

  /** An assignment of `exact` to a variable that holds `before`. */
  ghost predicate Assigned(t: IntType, exact: int, before: int, after: int, error: Option<SafeError>) {
    && (t.min <= exact <= t.max ==> error == None && after == exact)
    && (exact > t.max ==> error == Some(Overflow) && after == before)
    && (exact < t.min ==> error == Some(Underflow) && after == before)
  }

  lemma RemainderInRange(t: IntType, v: int, op: Op)
    requires t.Signed() && t.Has(v) && op.Valid(t)
    ensures op.Mod? && op.b != 0 ==> t.Has(TruncMod(v, op.b))
  {
    if op.Mod? && op.b != 0 {
      QuotientRange(t, v, op.b);
    }
  }

  class Safe {
    const t: IntType
    var value: int

    ghost predicate Valid()
      reads this
    {
      t.Signed() && t.Has(value)
    }

    constructor (t: IntType, value: int)
      requires t.Signed() && t.Has(value)
      ensures Valid() && this.t == t && this.value == value
    {
      this.t, this.value := t, value;
    }

    /** `*this op b`. */
    method Operate(op: Op) returns (r: Checked)
      requires Valid() && op.Valid(t)
      ensures match ErrorOf(t, value, op)
              case Some(e) => r == Throw(e)
              case None => r == Ok(ExactResult(value, op).value)
    {
      match op
      case Add(b) => r := Plus(t, value, b);
      case Sub(b) => r := Minus(t, value, b);
      case Mul(b) => r := Product(t, value, b);
      case Div(b) => r := Quotient(t, value, b);
      case Mod(b) => r := Remainder(t, value, b);
      case Increment => r := Plus(t, value, 1);
      case Decrement => r := Minus(t, value, 1);
    }

    /** A compound assignment: `value = (*this op b).value`, or the throw of the operator. */
    method Apply(op: Op) returns (error: Option<SafeError>)
      requires Valid() && op.Valid(t)
      modifies this
      ensures Valid()
      ensures error == ErrorOf(t, old(value), op)
      ensures value == if error.Some? then old(value) else ExactResult(old(value), op).value
      ensures op.Add? ==> Assigned(t, old(value) + op.b, old(value), value, error)
      ensures op.Sub? ==> Assigned(t, old(value) - op.b, old(value), value, error)
      ensures op.Mul? ==> Assigned(t, old(value) * op.b, old(value), value, error)
      ensures op.Increment? ==> Assigned(t, old(value) + 1, old(value), value, error)
      ensures op.Decrement? ==> Assigned(t, old(value) - 1, old(value), value, error)
      ensures op.Div? && op.b != 0 ==> Assigned(t, TruncDiv(old(value), op.b), old(value), value, error)
      ensures op.Mod? && op.b != 0 && !(old(value) == t.min && op.b == -1) ==>
        error == None && value == TruncMod(old(value), op.b)
      ensures op.Mod? && op.b == -1 && old(value) == t.min ==> error == Some(Overflow) && value == old(value)
      ensures (op.Div? || op.Mod?) && op.b == 0 ==> error == Some(DivideByZero) && value == old(value)
    {
      RemainderInRange(t, value, op);
      var r := Operate(op);
      match r
      case Throw(e) => return Some(e);
      case Ok(v) =>
        value := v;
        return None;
    }
  }

  /** Every run tracks exact integer arithmetic and never leaves the type. */
  method RunOps(t: IntType, start: int, ops: seq<Op>) returns (value: int)
    requires t.Signed() && t.Has(start)
    requires forall i :: 0 <= i < |ops| ==> ops[i].Valid(t)
    ensures t.Has(value)
    ensures value == ExactRun(t, start, ops)
  {
    var s := new Safe(t, start);
    for i := 0 to |ops|
      invariant fresh(s) && s.Valid() && s.t == t
      invariant s.value == ExactRun(t, start, ops[..i])
    {
      assert ops[..i + 1][..i] == ops[..i];
      var error := s.Apply(ops[i]);
    }
    assert ops[..|ops|] == ops;
    value := s.value;
  }
}
