/**
 boost/lexical_cast.hpp, lcast_ret_float: the scan that turns a decimal literal into an integer
 mantissa and a power of ten, in a locale without digit grouping.
 */
module LexicalMantissa {
  import opened Wrappers
  import opened Decimal
  import opened LexicalInteger

  predicate IsExponent(c: char) {
    c == 'e' || c == 'E'
  }

  /** The first position at or after `from` that holds no digit. */
  function DigitRun(s: string, from: nat): (i: nat)
    requires from <= |s|
    ensures from <= i <= |s|
    decreases |s| - from
  {
    if from < |s| && IsDigit(s[from]) then DigitRun(s, from + 1) else from
  }

  /** n * 10^k for any integer k: the decimal point moved by k places. */
  ghost function Shifted(n: nat, k: int): (v: real)
    decreases if k < 0 then -k else k
  {
    if k == 0 then n as real else if k > 0 then 10.0 * Shifted(n, k - 1) else Shifted(n, k + 1) / 10.0
  }

  /** A literal's digits without its decimal point, and how many of them follow the point. */
  datatype Significand = Significand(digits: string, fraction: nat, end: nat) {
    ghost function Value(): (v: real)
      requires AllDigits(digits)
    {
      Shifted(NumeralValue(digits), 0 - fraction)
    }
  }

  /** The literal at the start of s that the scan accepts, by shape alone; see LiteralLanguage. */
  function Literal(s: string, point: char): (r: Option<Significand>)
    ensures r.Some? ==> r.value.end <= |s|
  {
    var i := DigitRun(s, 0);
    if i == |s| then Some(Significand(s, 0, i))
    else if s[i] == point then
      var j := DigitRun(s, i + 1);
      if i == 0 && |s| == 1 then None
      else if j == |s| || IsExponent(s[j]) then Some(Significand(s[..i] + s[i + 1..j], j - i - 1, j))
      else None
    else if IsExponent(s[i]) && i > 0 then Some(Significand(s[..i], 0, i))
    else None
  }

  lemma {:induction false} DigitRunIs(s: string, from: nat, i: nat)
    requires from <= i <= |s|
    requires forall k :: from <= k < i ==> IsDigit(s[k])
    requires i == |s| || !IsDigit(s[i])
    ensures DigitRun(s, from) == i
    decreases i - from
  {
    if from < i {
      DigitRunIs(s, from + 1, i);
    }
  }

  // ----- the accepted literals

  /** Digits with at most one decimal point among them, and at least one digit. */
  ghost predicate IsMantissa(m: string, point: char) {
    || (m != [] && AllDigits(m))
    || (|m| >= 2 && exists i :: 0 <= i < |m| && PointAt(m, point, i))
  }

  ghost predicate PointAt(m: string, point: char, i: nat)
    requires i < |m|
  {
    m[i] == point && AllDigits(m[..i]) && AllDigits(m[i + 1..])
  }

  /** s begins with a mantissa that an exponent or the end of the text follows. */
  ghost predicate WellFormed(s: string, point: char) {
    exists end :: 0 <= end <= |s| && MantissaAt(s, point, end)
  }

  ghost predicate MantissaAt(s: string, point: char, end: nat)
    requires end <= |s|
  {
    IsMantissa(s[..end], point) && (end == |s| || s[end] == 'e' || s[end] == 'E')
  }

  /** A decimal point with no digit around it, directly before an exponent. */
  predicate BarePoint(s: string, point: char) {
    |s| >= 2 && s[0] == point && (s[1] == 'e' || s[1] == 'E')
  }

  /** What is accepted besides the well-formed literals is a bare decimal point before an exponent. */
  lemma LiteralLanguage(s: string, point: char)
    requires s != [] && point != 'e' && point != 'E'
    ensures Literal(s, point).Some? <==> WellFormed(s, point) || BarePoint(s, point)
  {
    if Literal(s, point).Some? {
      AcceptedShape(s, point);
    }
    if WellFormed(s, point) {
      var end: nat :| end <= |s| && MantissaAt(s, point, end);
      WellFormedAccepted(s, point, end);
    }
    if BarePoint(s, point) {
      DigitRunIs(s, 0, if IsDigit(point) then 1 else 0);
      DigitRunIs(s, 1, 1);
    }
  }

  lemma DigitRunDigits(s: string, from: nat)
    requires from <= |s|
    ensures AllDigits(s[from..DigitRun(s, from)])
    ensures DigitRun(s, from) == |s| || !IsDigit(s[DigitRun(s, from)])
    decreases |s| - from
  {
    if from < |s| && IsDigit(s[from]) {
      DigitRunDigits(s, from + 1);
      var i := DigitRun(s, from + 1);
      assert s[from..i] == [s[from]] + s[from + 1..i];
    }
  }

  lemma AcceptedShape(s: string, point: char)
    requires s != [] && Literal(s, point).Some?
    ensures WellFormed(s, point) || BarePoint(s, point)
  {
    var i := DigitRun(s, 0);
    DigitRunDigits(s, 0);
    assert s[..i] == s[0..i];
    if i == |s| || s[i] != point {
      assert MantissaAt(s, point, i);
    } else {
      var j := DigitRun(s, i + 1);
      DigitRunDigits(s, i + 1);
      var m := s[..j];
      if j >= 2 {
        assert m[..i] == s[..i] && m[i + 1..] == s[i + 1..j];
        assert PointAt(m, point, i);
        assert MantissaAt(s, point, j);
      }
    }
  }

  lemma WellFormedAccepted(s: string, point: char, end: nat)
    requires end <= |s| && MantissaAt(s, point, end) && !IsExponent(point)
    ensures Literal(s, point).Some?
  {
    var m := s[..end];
    if AllDigits(m) {
      assert s[0..end] == m;
      DigitRunAll(s, 0, end);
    } else {
      var i: nat :| i < |m| && PointAt(m, point, i);
      assert s[0..i] == m[..i] && s[i + 1..end] == m[i + 1..];
      if IsDigit(point) {
        assert false;
      }
      DigitRunAll(s, 0, i);
      DigitRunAll(s, i + 1, end);
    }
  }

  /**
   What is read from a mantissa with a decimal point, and from one without: they end at the end
   of the text or at 'e' or 'E', and any other character after them makes the literal malformed.
   */
  lemma {:induction false} LiteralReads(whole: string, fraction: string, rest: string, point: char)
    requires AllDigits(whole) && AllDigits(fraction) && whole + fraction != []
    requires rest != [] ==> !IsDigit(rest[0])
    requires point != 'e' && point != 'E' && !IsDigit(point)
    ensures Literal(whole + [point] + fraction + rest, point)
         == if rest == [] || rest[0] == 'e' || rest[0] == 'E'
            then Some(Significand(whole + fraction, |fraction|, |whole| + 1 + |fraction|)) else None
    ensures whole != [] && (rest == [] || rest[0] != point) ==>
      Literal(whole + rest, point)
      == if rest == [] || rest[0] == 'e' || rest[0] == 'E' then Some(Significand(whole, 0, |whole|)) else None
  {
    var s := whole + [point] + fraction + rest;
    var dot, end := |whole|, |whole| + 1 + |fraction|;
    assert s[0..dot] == s[..dot] == whole && s[dot] == point && s[dot + 1..end] == fraction;
    assert s[end..] == rest;
    assert end < |s| ==> s[end] == rest[0];
    DigitRunAll(s, 0, dot);
    DigitRunAll(s, dot + 1, end);
    if whole != [] {
      LiteralWithoutPoint(whole, rest, point);
    }
  }

  lemma {:induction false} LiteralWithoutPoint(whole: string, rest: string, point: char)
    requires AllDigits(whole) && whole != []
    requires rest != [] ==> !IsDigit(rest[0])
    ensures rest == [] || rest[0] != point ==>
      Literal(whole + rest, point)
      == if rest == [] || rest[0] == 'e' || rest[0] == 'E' then Some(Significand(whole, 0, |whole|)) else None
  {
    var u, n := whole + rest, |whole|;
    assert u[0..n] == u[..n] == whole;
    assert n < |u| ==> u[n] == rest[0];
    assert rest == [] ==> u == whole;
    DigitRunAll(u, 0, n);
  }

  // ----- the loop

  /** mantissa * 10 + digit, tested in wrapping arithmetic as the scan does, fits exactly if it fits. */
  predicate MantissaTakes(max: nat, mantissa: nat, digit: nat) {
    var tmpMantissa := Wrap(max, mantissa * 10);
    tmpMantissa / 10 == mantissa && max - digit >= tmpMantissa
  }

  lemma MantissaTakesExact(max: nat, mantissa: nat, digit: nat)
    requires max >= 10 && mantissa <= max && digit < 10
    ensures MantissaTakes(max, mantissa, digit) <==> 10 * mantissa + digit <= max
    ensures MantissaTakes(max, mantissa, digit) ==> Wrap(max, Wrap(max, mantissa * 10) + digit) == 10 * mantissa + digit
  {
    WrapDetects(max, mantissa, 10);
  }

  /**
   mantissa is the value of the first `taken` digits, the longest prefix that fits; the scan
   is full exactly if digits were left over.
   */
  ghost predicate Holds(max: nat, digits: string, mantissa: nat, taken: nat, full: bool) {
    && AllDigits(digits) && taken <= |digits|
    && mantissa == NumeralValue(digits[..taken]) <= max
    && (full <==> taken < |digits|)
    && (full ==> NumeralValue(digits[..taken + 1]) > max)
  }

  lemma HoldsAppend(max: nat, digits: string, mantissa: nat, taken: nat, full: bool, c: char)
    requires max >= 10 && IsDigit(c) && Holds(max, digits, mantissa, taken, full)
    ensures var fits := !full && MantissaTakes(max, mantissa, DigitValue(c));
            && (fits ==> Holds(max, digits + [c], 10 * mantissa + DigitValue(c), taken + 1, false))
            && (!fits ==> Holds(max, digits + [c], mantissa, taken, true))
  {
    var d := digits + [c];
    assert d[..taken] == digits[..taken];
    if full {
      assert d[..taken + 1] == digits[..taken + 1];
    } else {
      assert digits[..taken] == digits;
      assert d[..taken + 1] == d;
      assert d[..|d| - 1] == digits;
      MantissaTakesExact(max, mantissa, DigitValue(c));
    }
  }

  /** The digit step both branches of the loop share: append the digit, or leave the mantissa full. */
  method AppendDigit(max: nat, mantissa: nat, full: bool, c: char, ghost digits: string, ghost taken: nat)
    returns (took: bool, m: nat, ghost taken': nat)
    requires max >= 10 && IsDigit(c) && Holds(max, digits, mantissa, taken, full)
    ensures took ==> !full && taken' == taken + 1
    ensures !took ==> m == mantissa && taken' == taken
    ensures Holds(max, digits + [c], m, taken', !took)
  {
    HoldsAppend(max, digits, mantissa, taken, full, c);
    took := !full && MantissaTakes(max, mantissa, DigitValue(c));
    m, taken' := mantissa, taken;
    if took {
      MantissaTakesExact(max, mantissa, DigitValue(c));
      m := Wrap(max, Wrap(max, mantissa * 10) + DigitValue(c));
      taken' := taken + 1;
    }
  }

  /** The variables of the loop. */
  datatype Scan = Scan(begin: nat, foundDecimal: bool, foundNumber: bool, powOf10: int, mantissa: nat, full: bool)

  /** How one iteration ends: with `++begin` or `continue`, with `break`, or with `return false`. */
  datatype Next = Go(scan: Scan) | Stop | Fail

  ghost predicate Invariant(max: nat, point: char, s: string, v: Scan, dot: nat, taken: nat) {
    && v.begin <= |s|
    && (v.foundDecimal ==> dot < v.begin && AtPoint(s, point, dot))
    && (!v.foundDecimal ==> (v.foundNumber <==> v.begin > 0))
    && Holds(max, Read(s, v.foundDecimal, dot, v.begin), v.mantissa, taken, v.full)
    && v.powOf10 == |Read(s, v.foundDecimal, dot, v.begin)| - taken
                    - (if v.foundDecimal then v.begin - dot - 1 else 0)
  }

  /** One character after the decimal point. */
  method FractionStep(max: nat, point: char, s: string, v: Scan, ghost dot: nat, ghost taken: nat)
    returns (next: Next, ghost taken': nat)
    requires max >= 10 && Invariant(max, point, s, v, dot, taken) && v.foundDecimal && v.begin < |s|
    ensures match next
            case Go(w) => Invariant(max, point, s, w, dot, taken') && w.begin == v.begin + 1 && w.foundDecimal
            case Stop => IsExponent(s[v.begin]) && taken' == taken
            case Fail => Literal(s, point).None?
  {
    var c := s[v.begin];
    taken' := taken;
    if IsExponent(c) {
      return Stop, taken;
    }
    ghost var digits := Read(s, true, dot, v.begin);
    if !IsDigit(c) {
      LiteralAfterPoint(s, point, dot, v.begin);
      return Fail, taken;
    }
    ReadNext(s, true, dot, v.begin);
    var took, m;
    took, m, taken' := AppendDigit(max, v.mantissa, v.full, c, digits, taken);
    if took {
      next := Go(v.(begin := v.begin + 1, powOf10 := v.powOf10 - 1, mantissa := m, foundNumber := true));
    } else {
      next := Go(v.(begin := v.begin + 1, full := true));
    }
  }

  /** One character before the decimal point. */
  method IntegerStep(max: nat, point: char, s: string, v: Scan, ghost taken: nat)
    returns (next: Next, ghost taken': nat)
    requires max >= 10 && Invariant(max, point, s, v, 0, taken) && !v.foundDecimal && v.begin < |s|
    ensures match next
            case Go(w) => Invariant(max, point, s, w, v.begin, taken') && w.begin == v.begin + 1
            case Stop => IsExponent(s[v.begin]) && s[v.begin] != point && v.begin > 0 && taken' == taken
            case Fail => Literal(s, point).None?
  {
    var c := s[v.begin];
    taken' := taken;
    ghost var digits := Read(s, false, 0, v.begin);
    if IsDigit(c) {
      ReadNext(s, false, 0, v.begin);
      var took, m;
      took, m, taken' := AppendDigit(max, v.mantissa, v.full, c, digits, taken);
      if took {
        next := Go(v.(begin := v.begin + 1, mantissa := m, foundNumber := true));
      } else {
        next := Go(v.(begin := v.begin + 1, full := true, powOf10 := v.powOf10 + 1, foundNumber := true));
      }
      return;
    }
    DigitRunAll(s, 0, v.begin);
    if c == point {
      if !v.foundNumber && v.begin + 1 == |s| {
        return Fail, taken;
      }
      assert Read(s, true, v.begin, v.begin + 1) == digits;
      next := Go(v.(begin := v.begin + 1, foundDecimal := true));
    } else if IsExponent(c) && v.foundNumber {
      next := Stop;
    } else {
      next := Fail;
    }
  }

  /**
   The scan succeeds exactly on well-formed literals and on a bare decimal point before an
   exponent. It holds the longest fitting prefix of the digits, and mantissa * 10^powOf10
   truncates the literal's value to that prefix.
   */
  method ScanMantissa(max: nat, point: char, s: string) returns (r: Option<Scan>, ghost taken: nat)
    requires max >= 10 && s != []
    ensures r.Some? <==> Literal(s, point).Some?
    ensures point != 'e' && point != 'E' ==> (r.Some? <==> WellFormed(s, point) || BarePoint(s, point))
    ensures r.Some? ==>
      var lit := Literal(s, point).value;
      && r.value.begin == lit.end
      && Holds(max, lit.digits, r.value.mantissa, taken, r.value.full)
      && r.value.powOf10 == |lit.digits| - taken - lit.fraction
      && Brackets(lit, r.value.mantissa, r.value.powOf10, r.value.full)
  {
    if !IsExponent(point) {
      LiteralLanguage(s, point);
    }
    ghost var dot;
    r, dot, taken := ScanLoop(max, point, s);
    if r.Some? {
      var v := r.value;
      LiteralAtEnd(max, point, s, v, dot, taken);
      ghost var lit := Literal(s, point).value;
      assert Holds(max, lit.digits, v.mantissa, taken, v.full);
      LiteralBrackets(max, lit, v.mantissa, taken, v.full);
    }
  }

  method ScanLoop(max: nat, point: char, s: string) returns (r: Option<Scan>, ghost dot: nat, ghost taken: nat)
    requires max >= 10 && s != []
    ensures r.None? ==> Literal(s, point).None?
    ensures r.Some? ==> Invariant(max, point, s, r.value, dot, taken)
    ensures r.Some? ==> r.value.begin == |s| || AtStop(s, point, r.value)
  {
    var v := Scan(0, false, false, 0, 0, false);
    dot, taken := 0, 0;
    while v.begin < |s|
      invariant Invariant(max, point, s, v, dot, taken)
      decreases |s| - v.begin
    {
      var next;
      if v.foundDecimal {
        next, taken := FractionStep(max, point, s, v, dot, taken);
      } else {
        next, taken := IntegerStep(max, point, s, v, taken);
        dot := v.begin;
      }
      match next
      case Go(w) => v := w;
      case Stop => break;
      case Fail => return None, dot, taken;
    }
    r := Some(v);
  }

  /** No prefix of a bare decimal point before an exponent is a mantissa. */
  lemma BarePointNotMantissa(s: string, point: char, end: nat)
    requires BarePoint(s, point) && !IsDigit(point) && !IsExponent(point) && end <= |s|
    ensures !IsMantissa(s[..end], point)
  {
    var m := s[..end];
    if end >= 1 {
      assert m[0] == point;
    }
    if end >= 2 {
      assert m[1] == s[1];
      forall i | 0 <= i < |m|
        ensures !PointAt(m, point, i)
      {
        if i == 0 {
          assert m[1..][0] == m[1];
        } else {
          assert m[..i][0] == point;
        }
      }
    }
  }

  /** ".e5" is accepted with mantissa zero although it has no digit. */
  method DigitlessLiteral(max: nat) returns (r: Option<Scan>)
    requires max >= 10
    ensures !WellFormed(".e5", '.') && r.Some? && r.value.mantissa == 0 && r.value.begin == 1
  {
    var s := ".e5";
    forall end | 0 <= end <= |s|
      ensures !MantissaAt(s, '.', end)
    {
      BarePointNotMantissa(s, '.', end);
    }
    ghost var taken;
    r, taken := ScanMantissa(max, '.', s);
    DigitRunIs(s, 0, 0);
    DigitRunIs(s, 1, 1);
    assert s[..0] + s[1..1] == [];
  }

  /** The loop broke off at an exponent. */
  ghost predicate AtStop(s: string, point: char, v: Scan) {
    v.begin < |s| && IsExponent(s[v.begin]) && (v.foundDecimal || (s[v.begin] != point && v.begin > 0))
  }

  lemma LiteralAtEnd(max: nat, point: char, s: string, v: Scan, dot: nat, taken: nat)
    requires s != [] && Invariant(max, point, s, v, dot, taken)
    requires v.begin == |s| || AtStop(s, point, v)
    ensures Literal(s, point)
         == Some(Significand(Read(s, v.foundDecimal, dot, v.begin),
                             if v.foundDecimal then v.begin - dot - 1 else 0, v.begin))
  {
    if v.foundDecimal {
      LiteralAfterPoint(s, point, dot, v.begin);
    } else {
      DigitRunAll(s, 0, v.begin);
      assert v.begin == |s| ==> s[..v.begin] == s;
    }
  }

  /** The digits read so far. */
  ghost function Read(s: string, foundDecimal: bool, dot: nat, begin: nat): (d: string)
    requires begin <= |s| && (foundDecimal ==> dot < begin)
  {
    if foundDecimal then s[..dot] + s[dot + 1..begin] else s[..begin]
  }

  lemma ReadNext(s: string, foundDecimal: bool, dot: nat, begin: nat)
    requires begin < |s| && (foundDecimal ==> dot < begin)
    ensures Read(s, foundDecimal, dot, begin + 1) == Read(s, foundDecimal, dot, begin) + [s[begin]]
  {
    if foundDecimal {
      assert s[dot + 1..begin + 1] == s[dot + 1..begin] + [s[begin]];
    }
  }

  ghost predicate AtPoint(s: string, point: char, dot: nat) {
    dot < |s| && s[dot] == point && DigitRun(s, 0) == dot && !(dot == 0 && |s| == 1)
  }

  lemma DigitRunAll(s: string, from: nat, begin: nat)
    requires from <= begin <= |s| && AllDigits(s[from..begin])
    requires begin == |s| || !IsDigit(s[begin])
    ensures DigitRun(s, from) == begin
  {
    forall k | from <= k < begin
      ensures IsDigit(s[k])
    {
      assert s[from..begin][k - from] == s[k];
    }
    DigitRunIs(s, from, begin);
  }

  lemma SuffixDigits(a: string, b: string)
    requires AllDigits(a + b)
    ensures AllDigits(a) && AllDigits(b)
  {
    assert forall i :: 0 <= i < |a| ==> a[i] == (a + b)[i];
    assert forall i :: 0 <= i < |b| ==> b[i] == (a + b)[|a| + i];
  }

  lemma LiteralAfterPoint(s: string, point: char, dot: nat, begin: nat)
    requires AtPoint(s, point, dot) && dot < begin <= |s|
    requires AllDigits(Read(s, true, dot, begin))
    requires begin == |s| || !IsDigit(s[begin])
    ensures Literal(s, point)
         == if begin == |s| || IsExponent(s[begin])
            then Some(Significand(Read(s, true, dot, begin), begin - dot - 1, begin)) else None
  {
    SuffixDigits(s[..dot], s[dot + 1..begin]);
    DigitRunAll(s, dot + 1, begin);
  }

  /** The literal's value lies in [mantissa * 10^powOf10, (mantissa + 1) * 10^powOf10). */
  ghost predicate Brackets(lit: Significand, mantissa: nat, powOf10: int, full: bool) {
    && AllDigits(lit.digits)
    && Shifted(mantissa, powOf10) <= lit.Value() < Shifted(mantissa + 1, powOf10)
    && (!full ==> lit.Value() == Shifted(mantissa, powOf10))
  }

  lemma LiteralBrackets(max: nat, lit: Significand, mantissa: nat, taken: nat, full: bool)
    requires Holds(max, lit.digits, mantissa, taken, full)
    ensures Brackets(lit, mantissa, |lit.digits| - taken - lit.fraction, full)
  {
    MantissaBrackets(max, lit.digits, mantissa, taken, full);
    var e, k := |lit.digits| - taken, 0 - lit.fraction;
    ShiftByPower(mantissa, e, k);
    ShiftByPower(mantissa + 1, e, k);
    ShiftMonotone(mantissa * Pow10(e), NumeralValue(lit.digits), k);
    ShiftMonotone(NumeralValue(lit.digits), (mantissa + 1) * Pow10(e), k);
  }

  lemma {:induction false} ShiftMonotone(a: nat, b: nat, k: int)
    requires a <= b
    ensures Shifted(a, k) <= Shifted(b, k)
    ensures a < b ==> Shifted(a, k) < Shifted(b, k)
    decreases if k < 0 then -k else k
  {
    if k > 0 {
      ShiftMonotone(a, b, k - 1);
    } else if k < 0 {
      ShiftMonotone(a, b, k + 1);
    }
  }

  lemma {:induction false} ShiftOnce(n: nat, k: int)
    ensures Shifted(10 * n, k) == Shifted(n, k + 1)
    decreases if k < 0 then -k else k
  {
    if k > 0 {
      ShiftOnce(n, k - 1);
    } else if k < 0 {
      ShiftOnce(n, k + 1);
    }
  }

  /** Multiplying by 10^e moves the point by e places. */
  lemma {:induction false} ShiftByPower(n: nat, e: nat, k: int)
    ensures Shifted(n * Pow10(e), k) == Shifted(n, k + e)
    decreases e
  {
    if e > 0 {
      TimesTen(n, Pow10(e - 1));
      ShiftOnce(n * Pow10(e - 1), k);
      ShiftByPower(n, e - 1, k + 1);
    }
  }

  /**
   The scan truncates. With e dropped digits the literal's digits, read as one number, lie in
   [mantissa * 10^e, (mantissa + 1) * 10^e), and are the lower end itself unless the scan is full.
   */
  lemma {:induction false} MantissaBrackets(max: nat, digits: string, mantissa: nat, taken: nat, full: bool)
    requires Holds(max, digits, mantissa, taken, full)
    ensures var e := |digits| - taken;
            && mantissa * Pow10(e) <= NumeralValue(digits) < (mantissa + 1) * Pow10(e)
            && (!full ==> e == 0 && NumeralValue(digits) == mantissa)
  {
    var hi, lo := digits[..taken], digits[taken..];
    assert digits == hi + lo;
    SuffixDigits(hi, lo);
    ValueOfConcat(hi, lo);
    NumeralBound(lo);
    Distribute(mantissa, Pow10(|lo|));
    if !full {
      assert digits[..taken] == digits;
    }
  }

  lemma Distribute(m: nat, p: nat)
    ensures (m + 1) * p == m * p + p
  {
  }

  lemma {:induction false} NumeralBound(s: string)
    requires AllDigits(s)
    ensures NumeralValue(s) < Pow10(|s|)
    decreases |s|
  {
    if s != [] {
      NumeralBound(s[..|s| - 1]);
    }
  }
}
