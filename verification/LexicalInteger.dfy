/**
 boost/lexical_cast.hpp: integers to text and back.

 An unsigned type is given by its largest value `max`; its arithmetic wraps modulo max + 1.
 A plain char is a signed byte.
 */
module LexicalInteger {
  import opened Wrappers
  import opened Decimal

  const CHAR_MAX := 127

  type SChar = x: int | -128 <= x <= 127

  /** The part of std::locale the conversions look at. */
  datatype Locale =
    | Classic
    | Punctuated(grouping: seq<SChar>, sep: char)
  {
    /** The locale asks for thousands separators. */
    predicate Groups() {
      Punctuated? && |grouping| > 0 && grouping[0] > 0
    }
  }

  /** static_cast<T>(x). */
  function Wrap(max: nat, x: int): (v: nat)
    ensures v <= max
    ensures 0 <= x <= max ==> v == x
  {
    x % (max + 1)
  }

  /** Conversion of an out-of-range int back to a signed char. */
  function WrapChar(x: int): (c: SChar)
    requires -129 <= x <= 127
  {
    if x == -129 then 127 else x
  }

  // ----- lcast_ret_unsigned

  /** The parser's running state. */
  datatype Acc = Acc(value: nat, multiplier: nat, overflowed: bool)

  /** The overflow tests on one digit, all in wrapping arithmetic. */
  predicate DigitFits(max: nat, value: nat, multiplier10: nat, overflowed: bool, digit: nat) {
    var newSubValue := Wrap(max, multiplier10 * digit);
    && !(digit != 0 && newSubValue / digit != multiplier10)
    && !(Wrap(max, max - newSubValue) < value)
    && !(overflowed && digit != 0)
  }

  /** One digit, taken from the right: the body shared by the two parsing loops. */
  function TakeDigit(max: nat, acc: Acc, c: char): (r: Option<Acc>)
    ensures r.Some? ==> r.value.value <= max
  {
    var multiplier10 := Wrap(max, acc.multiplier * 10);
    var overflowed := acc.overflowed || multiplier10 / 10 != acc.multiplier;
    var digit := Wrap(max, DigitValue(c));
    if !IsDigit(c) || !DigitFits(max, acc.value, multiplier10, overflowed, digit) then None
    else Some(Acc(Wrap(max, acc.value + Wrap(max, multiplier10 * digit)), multiplier10, overflowed))
  }

  function PlainLoop(max: nat, s: string, acc: Acc): (r: Option<nat>)
    decreases |s|
  {
    if s == [] then Some(acc.value)
    else match TakeDigit(max, acc, s[|s| - 1])
      case None => None
      case Some(acc') => PlainLoop(max, s[..|s| - 1], acc')
  }

  function GroupedLoop(max: nat, grouping: seq<SChar>, sep: char, s: string, acc: Acc,
                       current: nat, remained: SChar): (r: Option<nat>)
    requires current < |grouping|
    decreases |s|
  {
    if s == [] then Some(acc.value)
    else
      var c, rest := s[|s| - 1], s[..|s| - 1];
      if remained != 0 then
        match TakeDigit(max, acc, c)
        case None => None
        case Some(acc') => GroupedLoop(max, grouping, sep, rest, acc', current, WrapChar(remained - 1))
      else if c != sep then PlainLoop(max, s, acc)
      else if rest == [] then None
      else
        var current' := NextGroup(grouping, current);
        GroupedLoop(max, grouping, sep, rest, acc, current', grouping[current'])
  }

  /** current_grouping is an unsigned char. */
  function NextGroup(grouping: seq<SChar>, current: nat): (next: nat)
    requires current < |grouping|
    ensures next < |grouping|
  {
    if current < |grouping| - 1 then (current + 1) % 256 else current
  }

  /** What lcast_ret_unsigned returns: None for false. */
  function Parse(max: nat, loc: Locale, s: string): (r: Option<nat>) {
    if s == [] || s[|s| - 1] < '0' || s[|s| - 1] > '9' then None
    else
      var rest := s[..|s| - 1];
      var acc := Acc(Wrap(max, DigitValue(s[|s| - 1])), 1, false);
      if loc.Groups() then
        GroupedLoop(max, loc.grouping, loc.sep, rest, acc, 0, WrapChar(loc.grouping[0] - 1))
      else PlainLoop(max, rest, acc)
  }

  method RetUnsigned(max: nat, loc: Locale, s: string) returns (ok: bool, value: nat)
    ensures ok == Parse(max, loc, s).Some?
    ensures ok ==> value == Parse(max, loc, s).value
    ensures value <= max
  {
    var end := |s| - 1;
    value := 0;
    if 0 > end || s[end] < '0' || s[end] > '9' {
      return false, value;
    }
    var acc := Acc(Wrap(max, DigitValue(s[end])), 1, false);
    end := end - 1;
    if loc.Groups() {
      var state := GroupedDigits(max, loc, s, end, acc);
      match state
      case Rejected => return false, acc.value;
      case Finished(v) => return true, v;
      case Ungrouped(end', acc') => ok, value := PlainDigits(max, s, end', acc');
    } else {
      ok, value := PlainDigits(max, s, end, acc);
    }
  }

  /** How the loop that checks grouping ends; Ungrouped falls through to the plain loop. */
  datatype GroupOutcome = Rejected | Finished(value: nat) | Ungrouped(end: int, acc: Acc)

  function Resume(max: nat, s: string, r: GroupOutcome): (v: Option<nat>)
    requires r.Ungrouped? ==> -1 <= r.end < |s|
  {
    match r
    case Rejected => None
    case Finished(v) => Some(v)
    case Ungrouped(end, acc) => PlainLoop(max, s[..end + 1], acc)
  }

  method GroupedDigits(max: nat, loc: Locale, s: string, start: int, acc0: Acc) returns (r: GroupOutcome)
    requires loc.Groups() && -1 <= start < |s| && acc0.value <= max
    ensures r.Ungrouped? ==> -1 <= r.end < |s| && r.acc.value <= max
    ensures r.Finished? ==> r.value <= max
    ensures Resume(max, s, r)
         == GroupedLoop(max, loc.grouping, loc.sep, s[..start + 1], acc0, 0, WrapChar(loc.grouping[0] - 1))
  {
    var end, acc := start, acc0;
    var current: nat, remained: SChar := 0, WrapChar(loc.grouping[0] - 1);
    ghost var result := GroupedLoop(max, loc.grouping, loc.sep, s[..end + 1], acc, current, remained);
    while end >= 0
      invariant -1 <= end < |s| && acc.value <= max
      invariant current < |loc.grouping|
      invariant GroupedLoop(max, loc.grouping, loc.sep, s[..end + 1], acc, current, remained) == result
    {
      assert s[..end + 1][..end] == s[..end];
      if remained != 0 {
        var d := TakeDigit(max, acc, s[end]);
        if d.None? {
          return Rejected;
        }
        acc, remained := d.value, WrapChar(remained - 1);
      } else if s[end] != loc.sep {
        return Ungrouped(end, acc);
      } else {
        if end == 0 {
          return Rejected;
        }
        current := NextGroup(loc.grouping, current);
        remained := loc.grouping[current];
      }
      end := end - 1;
    }
    return Finished(acc.value);
  }

  method PlainDigits(max: nat, s: string, start: int, acc0: Acc) returns (ok: bool, value: nat)
    requires -1 <= start < |s| && acc0.value <= max
    ensures ok == PlainLoop(max, s[..start + 1], acc0).Some?
    ensures ok ==> value == PlainLoop(max, s[..start + 1], acc0).value
    ensures value <= max
  {
    var end, acc := start, acc0;
    while end >= 0
      invariant -1 <= end < |s| && acc.value <= max
      invariant PlainLoop(max, s[..end + 1], acc) == PlainLoop(max, s[..start + 1], acc0)
    {
      assert s[..end + 1][..end] == s[..end];
      var d := TakeDigit(max, acc, s[end]);
      if d.None? {
        return false, acc.value;
      }
      acc, end := d.value, end - 1;
    }
    return true, acc.value;
  }

  // ----- exactness of the overflow tests

  /** acc is the state after reading the non-empty numeral t. */
  ghost predicate After(max: nat, acc: Acc, t: string) {
    && |t| >= 1 && AllDigits(t)
    && acc.value == NumeralValue(t) <= max
    && acc.multiplier <= max
    && (acc.overflowed <==> Pow10(|t| - 1) > max)
    && (!acc.overflowed ==> acc.multiplier == Pow10(|t| - 1))
  }

  /** A wrapped product divides back to its factor exactly if it did not wrap. */
  lemma WrapDetects(max: nat, m: nat, d: nat)
    requires 1 <= d <= max && m <= max
    ensures Wrap(max, m * d) / d == m <==> m * d <= max
  {
    if m * d <= max {
      assert (m * d) / d == m by { DivideBack(m, d); }
    } else {
      var k, w := (m * d) / (max + 1), Wrap(max, m * d);
      assert m * d == k * (max + 1) + w;
      assert k >= 1;
      assert k * (max + 1) >= max + 1 by { MulAtLeast(k, max + 1); }
      assert w <= m * d - d;
      DivideBelow(w, m, d);
    }
  }

  lemma MulAtLeast(k: nat, m: nat)
    requires k >= 1
    ensures k * m >= m
  {
  }

  lemma DivideBack(m: nat, d: nat)
    requires d >= 1
    ensures (m * d) / d == m
  {
    var q, r := (m * d) / d, (m * d) % d;
    assert m * d == q * d + r;
    if q < m {
      assert (m - q) * d == r;
      MulAtLeast(m - q, d);
    } else if q > m {
      assert (q - m) * d == -r;
      MulAtLeast(q - m, d);
    }
  }

  lemma MulOrdered(a: nat, b: nat, c: nat)
    requires a <= b
    ensures a * c <= b * c
  {
  }

  lemma DivideBelow(w: nat, m: nat, d: nat)
    requires d >= 1 && w <= m * d - d
    ensures w / d < m
  {
    var q, r := w / d, w % d;
    assert w == q * d + r;
    if q >= m {
      MulOrdered(m, q, d);
    }
  }

  /** One digit is accepted exactly if it is one and the longer numeral still fits. */
  lemma TakeDigitExact(max: nat, acc: Acc, t: string, c: char)
    requires max >= 10 && After(max, acc, t)
    ensures match TakeDigit(max, acc, c)
            case Some(acc') => IsDigit(c) && After(max, acc', [c] + t)
            case None => !IsDigit(c) || NumeralValue([c] + t) > max
  {
    if IsDigit(c) {
      ValueOfPrepend(c, t);
      var k, d := |t|, DigitValue(c);
      var p := Pow10(k);
      assert p == 10 * Pow10(k - 1);
      var m10 := Wrap(max, acc.multiplier * 10);
      WrapDetects(max, acc.multiplier, 10);
      var overflowed := acc.overflowed || m10 / 10 != acc.multiplier;
      assert overflowed <==> p > max;
      DigitFitsExact(max, acc.value, p, m10, overflowed, d);
    }
  }

  /** The digit d at weight p fits exactly if the exact sum is representable. */
  lemma DigitFitsExact(max: nat, value: nat, p: nat, m10: nat, overflowed: bool, d: nat)
    requires value <= max && m10 <= max && 0 <= d < 10 <= max
    requires overflowed <==> p > max
    requires !overflowed ==> m10 == p
    ensures DigitFits(max, value, m10, overflowed, d) <==> d * p + value <= max
    ensures d * p + value <= max ==> Wrap(max, value + Wrap(max, m10 * d)) == d * p + value
  {
    if d == 0 {
      assert m10 * d == 0 && d * p == 0;
    } else if overflowed {
      MulAtLeast(d, p);
    } else {
      WrapDetects(max, p, d);
      assert p * d == d * p;
    }
  }

  lemma MoreDigitsOnlyGrow(a: string, b: string)
    ensures AllDigits(a + b) ==> AllDigits(b) && NumeralValue(a + b) >= NumeralValue(b)
  {
    if AllDigits(a + b) {
      assert forall i :: 0 <= i < |a| ==> a[i] == (a + b)[i];
      assert forall i :: 0 <= i < |b| ==> b[i] == (a + b)[|a| + i];
      ValueOfConcat(a, b);
    }
  }

  lemma {:induction false} PlainLoopExact(max: nat, s: string, acc: Acc, t: string)
    requires max >= 10 && After(max, acc, t)
    ensures PlainLoop(max, s, acc)
         == if AllDigits(s + t) && NumeralValue(s + t) <= max then Some(NumeralValue(s + t)) else None
    decreases |s|
  {
    if s == [] {
      assert s + t == t;
    } else {
      var k := |s| - 1;
      var c, rest := s[k], s[..k];
      TakeDigitExact(max, acc, t, c);
      assert s + t == rest + ([c] + t);
      match TakeDigit(max, acc, c)
      case Some(acc') => PlainLoopExact(max, rest, acc', [c] + t);
      case None =>
        assert ([c] + t)[0] == c;
        MoreDigitsOnlyGrow(rest, [c] + t);
    }
  }

  lemma FirstDigit(max: nat, c: char)
    requires max >= 10 && IsDigit(c)
    ensures After(max, Acc(Wrap(max, DigitValue(c)), 1, false), [c])
  {
    assert [c][..0] == [];
  }

  /**
   Without grouping, lcast_ret_unsigned accepts exactly the non-empty all-digit strings whose
   value fits, with any number of leading zeros, and returns that value.
   */
  lemma ParseExact(max: nat, loc: Locale, s: string)
    requires max >= 10
    requires loc.Punctuated? && |loc.grouping| > 0 ==> loc.grouping[0] <= 0
    ensures Parse(max, loc, s)
         == if s != [] && AllDigits(s) && NumeralValue(s) <= max then Some(NumeralValue(s)) else None
  {
    if s != [] {
      var k := |s| - 1;
      if IsDigit(s[k]) {
        assert s[..k] + [s[k]] == s;
        FirstDigit(max, s[k]);
        PlainLoopExact(max, s[..k], Acc(Wrap(max, DigitValue(s[k])), 1, false), [s[k]]);
      }
    }
  }

  // ----- with grouping

  /**
   The digits that remain of s once correctly placed separators are dropped, read from the
   right; from the first position where no separator stands, the rest of s is kept as it is.
   */
  function Ungroup(grouping: seq<SChar>, sep: char, s: string, current: nat, remained: SChar): (r: Option<string>)
    requires current < |grouping|
    decreases |s|
  {
    if s == [] then Some([])
    else
      var c, rest := s[|s| - 1], s[..|s| - 1];
      if remained != 0 then
        match Ungroup(grouping, sep, rest, current, WrapChar(remained - 1))
        case None => None
        case Some(d) => Some(d + [c])
      else if c != sep then Some(s)
      else if rest == [] then None
      else
        var current' := NextGroup(grouping, current);
        Ungroup(grouping, sep, rest, current', grouping[current'])
  }

  /** The loop that checks grouping reads what Ungroup leaves, digit by digit. */
  lemma {:induction false} GroupedLoopReads(max: nat, grouping: seq<SChar>, sep: char, s: string, acc: Acc,
                                            current: nat, remained: SChar)
    requires current < |grouping|
    ensures GroupedLoop(max, grouping, sep, s, acc, current, remained)
         == match Ungroup(grouping, sep, s, current, remained)
            case None => None
            case Some(d) => PlainLoop(max, d, acc)
    decreases |s|
  {
    if s != [] {
      var c, rest := s[|s| - 1], s[..|s| - 1];
      if remained != 0 {
        var d := Ungroup(grouping, sep, rest, current, WrapChar(remained - 1));
        if d.Some? {
          assert (d.value + [c])[..|d.value|] == d.value;
        }
        var step := TakeDigit(max, acc, c);
        if step.Some? {
          GroupedLoopReads(max, grouping, sep, rest, step.value, current, WrapChar(remained - 1));
        }
      } else if c == sep && rest != [] {
        var current' := NextGroup(grouping, current);
        GroupedLoopReads(max, grouping, sep, rest, acc, current', grouping[current']);
      }
    }
  }

  /** The numeral inside a grouped string, with its last character as the first digit read. */
  function Digits(loc: Locale, s: string): (r: Option<string>) {
    if s == [] then None
    else if !loc.Groups() then Some(s)
    else match Ungroup(loc.grouping, loc.sep, s[..|s| - 1], 0, WrapChar(loc.grouping[0] - 1))
      case None => None
      case Some(d) => Some(d + [s[|s| - 1]])
  }

  /** In every locale: what is accepted is decided by the digits alone, and the value is theirs. */
  lemma ParseGroupedExact(max: nat, loc: Locale, s: string)
    requires max >= 10
    ensures Parse(max, loc, s)
         == match Digits(loc, s)
            case None => None
            case Some(d) => if AllDigits(d) && NumeralValue(d) <= max then Some(NumeralValue(d)) else None
  {
    if !loc.Groups() {
      ParseExact(max, loc, s);
    } else if s != [] {
      var c, rest := s[|s| - 1], s[..|s| - 1];
      var acc := Acc(Wrap(max, DigitValue(c)), 1, false);
      GroupedLoopReads(max, loc.grouping, loc.sep, rest, acc, 0, WrapChar(loc.grouping[0] - 1));
      var u := Ungroup(loc.grouping, loc.sep, rest, 0, WrapChar(loc.grouping[0] - 1));
      if u.Some? {
        assert (u.value + [c])[|u.value|] == c;
        if IsDigit(c) {
          FirstDigit(max, c);
          PlainLoopExact(max, u.value, acc, [c]);
        }
      }
    }
  }

  // ----- which grouped strings are accepted

  /** Steps until the wrapping counter `remained` reaches zero. */
  function Countdown(remained: SChar): (k: nat) {
    if remained >= 0 then remained else 256 + remained
  }

  /** While the counter lasts, every character is taken for a digit. */
  lemma {:induction false} UngroupDigits(grouping: seq<SChar>, sep: char, s: string, current: nat, remained: SChar)
    requires current < |grouping|
    requires |s| <= Countdown(remained)
    ensures Ungroup(grouping, sep, s, current, remained) == Some(s)
    decreases |s|
  {
    if s != [] {
      var k := |s| - 1;
      assert s == s[..k] + [s[k]];
      assert remained != 0 && Countdown(WrapChar(remained - 1)) == Countdown(remained) - 1;
      UngroupDigits(grouping, sep, s[..k], current, WrapChar(remained - 1));
    }
  }

  /**
   The numeral d with separators at its first m group boundaries, counted from the right, and
   none further left; `left` digits stand before the first boundary.
   */
  function WithSeparators(grouping: seq<SChar>, sep: char, d: string, m: nat, current: nat, left: nat): (s: string)
    requires current < |grouping|
    ensures |s| >= |d| && (d == [] ==> s == [])
    decreases m
  {
    if m == 0 || |d| <= left then d
    else
      var next, cut := NextGroup(grouping, current), |d| - left;
      WithSeparators(grouping, sep, d[..cut], m - 1, next, Countdown(grouping[next])) + [sep] + d[cut..]
  }

  /** The counter value with k steps to go. */
  function CounterAt(k: nat): (remained: SChar)
    requires k <= 255
    ensures Countdown(remained) == k
  {
    if k <= 127 then k else k - 256
  }

  /** The digits before the next boundary pass through unchanged. */
  lemma {:induction false} UngroupTail(grouping: seq<SChar>, sep: char, x: string, t: string,
                                       current: nat, remained: SChar)
    requires current < |grouping|
    requires |t| <= Countdown(remained)
    ensures Ungroup(grouping, sep, x + t, current, remained)
         == match Ungroup(grouping, sep, x, current, CounterAt(Countdown(remained) - |t|))
            case None => None
            case Some(d) => Some(d + t)
    decreases |t|
  {
    var u := Ungroup(grouping, sep, x, current, CounterAt(Countdown(remained) - |t|));
    if t == [] {
      assert x + t == x;
      assert u.Some? ==> u.value + t == u.value;
    } else {
      var k := |t| - 1;
      assert x + t == (x + t[..k]) + [t[k]];
      assert Countdown(WrapChar(remained - 1)) == Countdown(remained) - 1;
      UngroupTail(grouping, sep, x, t[..k], current, WrapChar(remained - 1));
      assert u.Some? ==> u.value + t == u.value + t[..k] + [t[k]];
    }
  }

  /** Every such string is read as its numeral. */
  lemma {:induction false} UngroupSeparated(grouping: seq<SChar>, sep: char, d: string, m: nat,
                                            current: nat, remained: SChar)
    requires current < |grouping| && AllDigits(d) && !IsDigit(sep)
    ensures Ungroup(grouping, sep, WithSeparators(grouping, sep, d, m, current, Countdown(remained)), current, remained)
         == Some(d)
    decreases m
  {
    var left := Countdown(remained);
    if |d| <= left {
      UngroupDigits(grouping, sep, d, current, remained);
    } else {
      var cut := |d| - left;
      var x, t := d[..cut], d[cut..];
      assert d == x + t;
      if m == 0 {
        assert d == d[..cut - 1] + [d[cut - 1]] + t;
        UngroupAtBoundary(grouping, sep, d[..cut - 1], d[cut - 1], t, current, remained);
      } else {
        var next := NextGroup(grouping, current);
        UngroupSeparated(grouping, sep, x, m - 1, next, grouping[next]);
        OneMoreSeparator(grouping, sep, x, t, m - 1, current);
        var s := WithSeparators(grouping, sep, x, m - 1, next, Countdown(grouping[next]));
        UngroupAtBoundary(grouping, sep, s, sep, t, current, remained);
      }
    }
  }

  /** At a boundary with c on its left: a separator opens the next group, anything else ends the grouping. */
  lemma UngroupAtBoundary(grouping: seq<SChar>, sep: char, x: string, c: char, t: string,
                          current: nat, remained: SChar)
    requires current < |grouping| && |t| == Countdown(remained)
    ensures var next := NextGroup(grouping, current);
            Ungroup(grouping, sep, x + [c] + t, current, remained)
            == if c != sep then Some(x + [c] + t)
               else if x == [] then None
               else match Ungroup(grouping, sep, x, next, grouping[next])
                 case None => None
                 case Some(d) => Some(d + t)
  {
    UngroupTail(grouping, sep, x + [c], t, current, remained);
    assert (x + [c])[..|x|] == x;
  }

  lemma OneMoreSeparator(grouping: seq<SChar>, sep: char, d: string, t: string, m: nat, current: nat)
    requires current < |grouping| && d != []
    ensures var next := NextGroup(grouping, current);
            var s := WithSeparators(grouping, sep, d, m, next, Countdown(grouping[next]));
            WithSeparators(grouping, sep, d + t, m + 1, current, |t|) == s + [sep] + t
  {
    assert (d + t)[..|d|] == d && (d + t)[|d|..] == t;
  }

  /** Every string that is read as a numeral has this form. */
  lemma {:induction false} SeparatorsFound(grouping: seq<SChar>, sep: char, s: string, d: string,
                                           current: nat, remained: SChar)
    returns (m: nat)
    requires current < |grouping|
    requires Ungroup(grouping, sep, s, current, remained) == Some(d)
    ensures s == WithSeparators(grouping, sep, d, m, current, Countdown(remained))
    decreases |s|
  {
    var left := Countdown(remained);
    m := 0;
    if |s| <= left {
      UngroupDigits(grouping, sep, s, current, remained);
    } else {
      var k := |s| - left - 1;
      var x, c, t := s[..k], s[k], s[k + 1..];
      assert s == x + [c] + t;
      UngroupAtBoundary(grouping, sep, x, c, t, current, remained);
      if c == sep {
        var next := NextGroup(grouping, current);
        var y := Ungroup(grouping, sep, x, next, grouping[next]).value;
        m := SeparatorsFound(grouping, sep, x, y, next, grouping[next]);
        OneMoreSeparator(grouping, sep, y, t, m, current);
        m := m + 1;
      }
    }
  }

  /** s is the numeral d with separators at its first m group boundaries from the right. */
  predicate Separated(loc: Locale, s: string, d: string, m: nat)
    requires loc.Groups()
  {
    s == WithSeparators(loc.grouping, loc.sep, d, m, 0, Countdown(loc.grouping[0]))
  }

  lemma DigitsAsUngroup(loc: Locale, s: string)
    requires loc.Groups() && s != []
    ensures Digits(loc, s) == Ungroup(loc.grouping, loc.sep, s, 0, loc.grouping[0])
  {
  }

  /**
   In a locale with grouping, exactly those strings are accepted that write a fitting numeral
   with separators at its first m group boundaries from the right, for some m, and none
   further left; the value is the numeral's.
   */
  lemma ParseLanguage(max: nat, loc: Locale, s: string, v: nat)
    requires max >= 10 && loc.Groups() && !IsDigit(loc.sep)
    ensures Parse(max, loc, s) == Some(v)
       <==> exists d, m :: d != [] && AllDigits(d) && NumeralValue(d) == v <= max && Separated(loc, s, d, m)
  {
    ParseGroupedExact(max, loc, s);
    if s != [] {
      DigitsAsUngroup(loc, s);
    }
    if Parse(max, loc, s) == Some(v) {
      var d := Digits(loc, s).value;
      var m := SeparatorsFound(loc.grouping, loc.sep, s, d, 0, loc.grouping[0]);
      assert d != [] && AllDigits(d) && NumeralValue(d) == v <= max && Separated(loc, s, d, m);
    }
    if d, m :| d != [] && AllDigits(d) && NumeralValue(d) == v <= max && Separated(loc, s, d, m) {
      UngroupSeparated(loc.grouping, loc.sep, d, m, 0, loc.grouping[0]);
    }
  }

  /** With groups of three, "1234,567" is accepted although one separator is missing. */
  lemma MissingSeparator(max: nat)
    requires max >= 1234567
    ensures Parse(max, Punctuated([3], ','), "1234,567") == Some(1234567)
  {
    var loc, d := Punctuated([3], ','), "1234567";
    var x, t := "1234", "567";
    assert d[..4] == x && d[4..] == t;
    assert WithSeparators([3], ',', x, 0, 0, 3) == x;
    assert WithSeparators([3], ',', d, 1, 0, 3) == x + [','] + t;
    assert Separated(loc, "1234,567", d, 1);
    ValueOfDigits();
    ParseLanguage(max, loc, "1234,567", 1234567);
  }

  lemma ValueOfDigits()
    ensures NumeralValue("1234567") == 1234567
  {
    ValueOfAppend([], '1');
    assert [] + ['1'] == "1";
    ValueOfAppend("1", '2');
    assert "1" + ['2'] == "12";
    ValueOfAppend("12", '3');
    assert "12" + ['3'] == "123";
    ValueOfAppend("123", '4');
    assert "123" + ['4'] == "1234";
    ValueOfAppend("1234", '5');
    assert "1234" + ['5'] == "12345";
    ValueOfAppend("12345", '6');
    assert "12345" + ['6'] == "123456";
    ValueOfAppend("123456", '7');
    assert "123456" + ['7'] == "1234567";
  }
}
