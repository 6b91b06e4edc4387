/** Whole runs of operations on one boost::rational object. */
module RationalRuns {
  import opened RationalTheory
  import opened Rationals

  /** One mutating call; operands are the values of other (reduced) rationals. */
  datatype Op =
    | Assign(n: int, d: int)
    | Add(r: Fraction)
    | Sub(r: Fraction)
    | Mul(r: Fraction)
    | Div(r: Fraction)
    | Increment
    | Decrement
  {
    /** Operands are themselves rational objects, so they are reduced. */
    ghost predicate Valid() {
      (Add? || Sub? || Mul? || Div?) ==> Reduced(r)
    }
  }

  /** The state after one call; Sub, Mul, ... are the reduced results of exact arithmetic. */
  ghost function Step(f: Fraction, op: Op): (f': Fraction)
    requires op.Valid() && f.den != 0
  {
    match op
    case Assign(n, d) => if d == 0 then Fraction(n, 0) else Canonical(n, d)
    case Add(r) => Sum(f, r)
    case Sub(r) => Difference(f, r)
    case Mul(r) => Times(f, r)
    case Div(r) => if r.num == 0 then f else Quotient(f, r)
    case Increment => Sum(f, Fraction(1, 1))
    case Decrement => Difference(f, Fraction(1, 1))
  }

  /** The same call on a real number: a call that throws computes nothing. */
  ghost function ExactStep(v: real, op: Op): (v': real)
    requires op.Valid()
  {
    match op
    case Assign(n, d) => if d == 0 then v else n as real / d as real
    case Add(r) => v + Value(r)
    case Sub(r) => v - Value(r)
    case Mul(r) => v * Value(r)
    case Div(r) => if r.num == 0 then v else QuotientValue(Fraction(0, 1), r); v / Value(r)
    case Increment => v + 1.0
    case Decrement => v - 1.0
  }

  /** No call of the run assigns a zero denominator. */
  predicate NoZeroAssign(ops: seq<Op>) {
    forall i :: 0 <= i < |ops| ==> !(ops[i].Assign? && ops[i].d == 0)
  }

  ghost predicate AllValid(ops: seq<Op>) {
    forall i :: 0 <= i < |ops| ==> ops[i].Valid()
  }

  ghost function ExactRun(v: real, ops: seq<Op>): (v': real)
    requires AllValid(ops)
  {
    if ops == [] then v
    else ExactStep(ExactRun(v, ops[..|ops| - 1]), ops[|ops| - 1])
  }

  lemma CanonicalValue(n: int, d: int)
    requires d != 0
    ensures Value(Canonical(n, d)) == n as real / d as real
  {
    var v := n as real / d as real;
    assert n as real == v * d as real;
    ValueFromRatio(Canonical(n, d), n, d, v);
  }

  /**
   One call keeps the class invariant if and only if it is not an assignment of a zero
   denominator; then it is exact, and a throwing division changes nothing.
   */
  lemma StepKeepsInvariant(f: Fraction, op: Op)
    requires Reduced(f) && op.Valid()
    ensures Reduced(Step(f, op)) <==> !(op.Assign? && op.d == 0)
    ensures Reduced(Step(f, op)) ==> Value(Step(f, op)) == ExactStep(Value(f), op)
  {
    match op
    case Assign(n, d) => if d != 0 { CanonicalValue(n, d); }
    case Add(r) => SumValue(f, r);
    case Sub(r) => DifferenceValue(f, r);
    case Mul(r) => ProductValue(f, r);
    case Div(r) => if r.num != 0 { QuotientValue(f, r); }
    case Increment =>
      SumValue(f, Fraction(1, 1));
      assert Value(Fraction(1, 1)) == 1.0;
    case Decrement =>
      DifferenceValue(f, Fraction(1, 1));
      assert Value(Fraction(1, 1)) == 1.0;
  }

  /** The invariant holds at the start of the run and after each of its calls. */
  ghost predicate HoldsThroughout(f: Fraction, ops: seq<Op>)
    requires AllValid(ops)
    decreases ops
  {
    Reduced(f) && (ops == [] || HoldsThroughout(Step(f, ops[0]), ops[1..]))
  }

  /** A run keeps the invariant at every point exactly if it never assigns a zero denominator. */
  lemma {:induction false} RunKeepsInvariant(f: Fraction, ops: seq<Op>)
    requires Reduced(f) && AllValid(ops)
    ensures HoldsThroughout(f, ops) <==> NoZeroAssign(ops)
    decreases ops
  {
    if ops != [] {
      var f' := Step(f, ops[0]);
      StepKeepsInvariant(f, ops[0]);
      if Reduced(f') {
        RunKeepsInvariant(f', ops[1..]);
        assert ops == [ops[0]] + ops[1..];
      }
    }
  }

  /** The methods of the class, driven by a list of calls. */
  method Execute(q: Rational, op: Op)
    requires q.Valid() && op.Valid()
    modifies q
    ensures q.Frac() == Step(old(q.Frac()), op)
    ensures q.Valid() <==> !(op.Assign? && op.d == 0)
  {
    match op
    case Assign(n, d) => var threw := q.Assign(n, d);
    case Add(r) =>
      var operand := Operand(r);
      q.AddAssign(operand);
    case Sub(r) =>
      var operand := Operand(r);
      q.SubAssign(operand);
    case Mul(r) =>
      var operand := Operand(r);
      q.MulAssign(operand);
    case Div(r) =>
      var operand := Operand(r);
      var threw := q.DivAssign(operand);
    case Increment => q.Increment();
    case Decrement => q.Decrement();
  }

  method Operand(r: Fraction) returns (q: Rational)
    requires Reduced(r)
    ensures fresh(q) && q.Valid() && q.Frac() == r
  {
    q := new Rational.OfInt(r.num);
    q.den := r.den;
  }

  /** Run the calls on one object and test its invariant after each, stopping when it fails. */
  method CheckedRun(n: int, ops: seq<Op>) returns (held: bool)
    requires AllValid(ops)
    ensures held <==> NoZeroAssign(ops)
  {
    var q := new Rational.OfInt(n);
    for i := 0 to |ops|
      invariant fresh(q) && q.Valid()
      invariant NoZeroAssign(ops[..i])
    {
      Execute(q, ops[i]);
      held := q.TestInvariant();
      if !held {
        return;
      }
      assert ops[..i + 1] == ops[..i] + [ops[i]];
    }
    assert ops[..|ops|] == ops;
    held := true;
  }

  /** rational(1, 2).assign(3, 0) throws, and what it leaves behind fails test_invariant(). */
  method AssignZeroBreaksInvariant() returns (before: bool, threw: bool, num: int, den: int, after: bool)
    ensures before && threw && num == 3 && den == 0 && !after
  {
    var q := new Rational();
    var _ := q.Assign(1, 2);
    before := q.TestInvariant();
    threw := q.Assign(3, 0);
    num, den := q.num, q.den;
    after := q.TestInvariant();
  }

  /**
   Every run without a zero assignment keeps gcd(num, den) = 1 and den > 0, holds the exact
   value, and therefore ends equal to any other reduced fraction of that value.
   */
  method RunOps(n: int, ops: seq<Op>) returns (num: int, den: int)
    requires AllValid(ops) && NoZeroAssign(ops)
    ensures Reduced(Fraction(num, den))
    ensures Value(Fraction(num, den)) == ExactRun(n as real, ops)
    ensures forall g: Fraction :: Reduced(g) ==>
      (g == Fraction(num, den) <==> Value(g) == ExactRun(n as real, ops))
  {
    var q := new Rational.OfInt(n);
    assert Value(q.Frac()) == n as real;
    for i := 0 to |ops|
      invariant fresh(q)
      invariant q.Valid() && Value(q.Frac()) == ExactRun(n as real, ops[..i])
    {
      assert ops[..i + 1][..i] == ops[..i];
      StepKeepsInvariant(q.Frac(), ops[i]);
      Execute(q, ops[i]);
    }
    assert ops[..|ops|] == ops;
    num, den := q.num, q.den;
    forall g: Fraction | Reduced(g)
      ensures g == Fraction(num, den) <==> Value(g) == ExactRun(n as real, ops)
    {
      EqualityDecides(g, Fraction(num, den));
    }
  }
}
