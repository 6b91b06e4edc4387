/** boost/lexical_cast.hpp: printing integers, and reading back what was printed. */
module LexicalRoundTrip {
  import opened Wrappers
  import opened Decimal
  import opened LexicalInteger
  import opened MachineInt

  // ----- lcast_put_unsigned

  /** The size of group number g, counted from the right; the last entry repeats. */
  function GroupSize(grouping: seq<SChar>, g: nat): (size: nat)
    requires |grouping| > 0
    ensures 1 <= size <= CHAR_MAX
  {
    var x := grouping[if g < |grouping| then g else |grouping| - 1];
    if x <= 0 then CHAR_MAX else x
  }

  /** The text for n when `left` more digits go into group number g. */
  function PutGrouped(grouping: seq<SChar>, sep: char, n: nat, g: nat, left: nat): (s: string)
    requires |grouping| > 0
    ensures s != []
    decreases n, if left == 0 then 1 else 0
  {
    if left == 0 then
      PutGrouped(grouping, sep, n, g + 1, GroupSize(grouping, g + 1)) + [sep]
    else
      (if n < 10 then [] else PutGrouped(grouping, sep, n / 10, g, left - 1)) + [DigitChar(n % 10)]
  }

  function Print(loc: Locale, n: nat): (s: string)
    ensures s != []
  {
    if loc.Groups() then PutGrouped(loc.grouping, loc.sep, n, 0, loc.grouping[0])
    else Numeral(n)
  }

  /** A numeral cut from the right into `left` digits and then whole groups, with separators between. */
  function Chunks(grouping: seq<SChar>, sep: char, digits: string, g: nat, left: nat): (s: string)
    requires |grouping| > 0 && left >= 1
    decreases |digits|
  {
    if |digits| <= left then digits
    else
      var cut := |digits| - left;
      Chunks(grouping, sep, digits[..cut], g + 1, GroupSize(grouping, g + 1)) + [sep] + digits[cut..]
  }

  lemma ChunksAppend(grouping: seq<SChar>, sep: char, digits: string, c: char, g: nat, left: nat)
    requires |grouping| > 0 && left >= 1 && digits != []
    ensures Chunks(grouping, sep, digits + [c], g, left)
         == (if left == 1 then Chunks(grouping, sep, digits, g + 1, GroupSize(grouping, g + 1)) + [sep]
             else Chunks(grouping, sep, digits, g, left - 1)) + [c]
  {
    var d, cut := digits + [c], |digits| + 1 - left;
    if |d| > left {
      assert d[..cut] == digits[..cut];
      assert d[cut..] == digits[cut..] + [c];
      if left == 1 {
        assert digits[..cut] == digits && digits[cut..] == [];
      } else {
        var head := Chunks(grouping, sep, digits[..cut], g + 1, GroupSize(grouping, g + 1));
        assert head + [sep] + (digits[cut..] + [c]) == head + [sep] + digits[cut..] + [c];
      }
    }
  }

  lemma NumeralChunks(grouping: seq<SChar>, sep: char, n: nat, g: nat, left: nat)
    requires |grouping| > 0 && left >= 1 && n >= 10
    ensures Chunks(grouping, sep, Numeral(n), g, left)
         == (if left == 1 then Chunks(grouping, sep, Numeral(n / 10), g + 1, GroupSize(grouping, g + 1)) + [sep]
             else Chunks(grouping, sep, Numeral(n / 10), g, left - 1)) + [DigitChar(n % 10)]
  {
    ChunksAppend(grouping, sep, Numeral(n / 10), DigitChar(n % 10), g, left);
  }

  lemma PutGroupedStep(grouping: seq<SChar>, sep: char, n: nat, g: nat, left: nat)
    requires |grouping| > 0 && left >= 1 && n >= 10
    ensures PutGrouped(grouping, sep, n, g, left)
         == (if left == 1 then PutGrouped(grouping, sep, n / 10, g + 1, GroupSize(grouping, g + 1)) + [sep]
             else PutGrouped(grouping, sep, n / 10, g, left - 1)) + [DigitChar(n % 10)]
  {
  }

  /** Writing digit by digit puts the separators exactly at the group boundaries of the plain numeral. */
  lemma {:induction false} PutGroupedChunks(grouping: seq<SChar>, sep: char, n: nat, g: nat, left: nat)
    requires |grouping| > 0 && left >= 1
    ensures PutGrouped(grouping, sep, n, g, left) == Chunks(grouping, sep, Numeral(n), g, left)
    decreases n
  {
    if n < 10 {
      assert PutGrouped(grouping, sep, n, g, left) == Numeral(n) == [DigitChar(n % 10)];
    } else {
      PutGroupedStep(grouping, sep, n, g, left);
      NumeralChunks(grouping, sep, n, g, left);
      if left == 1 {
        PutGroupedChunks(grouping, sep, n / 10, g + 1, GroupSize(grouping, g + 1));
      } else {
        PutGroupedChunks(grouping, sep, n / 10, g, left - 1);
      }
    }
  }

  /** At most one separator before each digit but the last-written. */
  lemma {:induction false} PutGroupedLength(grouping: seq<SChar>, sep: char, n: nat, g: nat, left: nat)
    requires |grouping| > 0
    ensures |PutGrouped(grouping, sep, n, g, left)| <= 2 * |Numeral(n)| - if left == 0 then 0 else 1
    decreases n, if left == 0 then 1 else 0
  {
    if left == 0 {
      PutGroupedLength(grouping, sep, n, g + 1, GroupSize(grouping, g + 1));
    } else if n >= 10 {
      PutGroupedLength(grouping, sep, n / 10, g, left - 1);
    }
  }

  lemma PrintLength(loc: Locale, n: nat)
    ensures |Print(loc, n)| <= 2 * |Numeral(n)| - 1
  {
    if loc.Groups() {
      PutGroupedLength(loc.grouping, loc.sep, n, 0, loc.grouping[0]);
    }
  }

  /** Numbers below 10^(digits10 + 1) print in at most 2 * digits10 + 1 characters, whatever the grouping. */
  lemma PrintFits(loc: Locale, n: nat, digits10: nat)
    requires n < Pow10(digits10 + 1)
    ensures |Print(loc, n)| <= 2 * digits10 + 1
  {
    PrintLength(loc, n);
    NumeralLength(n, digits10 + 1);
  }

  /** Writes backwards from `finish`; a buffer of 2 * digits10 + 1 characters is always enough. */
  method PutUnsigned(loc: Locale, n: nat, buf: array<char>, finish: nat, ghost digits10: nat) returns (start: nat)
    requires n < Pow10(digits10 + 1)
    requires 2 * digits10 + 1 <= finish <= buf.Length
    modifies buf
    ensures finish - (2 * digits10 + 1) <= start < finish
    ensures buf[start..finish] == Print(loc, n)
    ensures forall i :: 0 <= i < start || finish <= i < buf.Length ==> buf[i] == old(buf[i])
  {
    PrintFits(loc, n, digits10);
    if loc.Groups() {
      start := PutGroupedUnsigned(loc, n, buf, finish);
    } else {
      start := PutPlainUnsigned(n, buf, finish);
    }
  }

  /** `todo` remains to be written in front of buf[start..finish], and together they are `text`. */
  ghost predicate Writing(text: string, todo: string, buf: array<char>, start: nat, finish: nat)
    reads buf
  {
    && start <= finish <= buf.Length
    && |todo| <= start
    && todo + buf[start..finish] == text
  }

  /** `--finish; Traits::assign(*finish, c)`. */
  method PutChar(buf: array<char>, at: nat, finish: nat, c: char, ghost text: string, ghost todo: string)
    returns (start: nat)
    requires Writing(text, todo + [c], buf, at, finish)
    modifies buf
    ensures start == at - 1
    ensures Writing(text, todo, buf, start, finish)
    ensures forall i :: 0 <= i < start || finish <= i < buf.Length ==> buf[i] == old(buf[i])
  {
    start := at - 1;
    buf[start] := c;
    assert buf[start..finish] == [c] + old(buf[at..finish]);
    assert todo + ([c] + old(buf[at..finish])) == (todo + [c]) + old(buf[at..finish]);
  }

  method PutPlainUnsigned(n0: nat, buf: array<char>, finish: nat) returns (start: nat)
    requires |Numeral(n0)| <= finish <= buf.Length
    modifies buf
    ensures start == finish - |Numeral(n0)|
    ensures buf[start..finish] == Numeral(n0)
    ensures forall i :: 0 <= i < start || finish <= i < buf.Length ==> buf[i] == old(buf[i])
  {
    var n, more := n0, true;
    start := finish;
    ghost var text := Numeral(n0);
    ghost var todo := text;
    assert todo + buf[start..finish] == text;
    while more
      invariant Writing(text, todo, buf, start, finish)
      invariant todo == if more then Numeral(n) else []
      invariant forall i :: 0 <= i < start || finish <= i < buf.Length ==> buf[i] == old(buf[i])
      decreases more, n
    {
      ghost var rest := if n < 10 then [] else Numeral(n / 10);
      assert todo == rest + [DigitChar(n % 10)];
      start := PutChar(buf, start, finish, DigitChar(n % 10), text, rest);
      more, n, todo := n >= 10, n / 10, rest;
    }
    assert todo + buf[start..finish] == buf[start..finish];
  }

  /** The `left == 0` branch: move to the next group and write a separator. */
  method PutSeparator(loc: Locale, n: nat, buf: array<char>, at: nat, finish: nat, group: nat, lastGrpSize: nat,
                      ghost text: string) returns (start: nat, group': nat, size: nat)
    requires loc.Groups() && lastGrpSize == GroupSize(loc.grouping, group)
    requires Writing(text, PutGrouped(loc.grouping, loc.sep, n, group, 0), buf, at, finish)
    modifies buf
    ensures size == GroupSize(loc.grouping, group') && start <= at
    ensures Writing(text, PutGrouped(loc.grouping, loc.sep, n, group', size), buf, start, finish)
    ensures forall i :: 0 <= i < start || finish <= i < buf.Length ==> buf[i] == old(buf[i])
  {
    group', size := group + 1, lastGrpSize;
    if group' < |loc.grouping| {
      size := if loc.grouping[group'] <= 0 then CHAR_MAX else loc.grouping[group'];
    }
    start := PutChar(buf, at, finish, loc.sep, text, PutGrouped(loc.grouping, loc.sep, n, group', size));
  }

  method PutDigit(loc: Locale, n: nat, buf: array<char>, at: nat, finish: nat, group: nat, left: nat,
                  ghost text: string) returns (start: nat)
    requires loc.Groups() && left > 0
    requires Writing(text, PutGrouped(loc.grouping, loc.sep, n, group, left), buf, at, finish)
    modifies buf
    ensures start <= at
    ensures Writing(text, if n < 10 then [] else PutGrouped(loc.grouping, loc.sep, n / 10, group, left - 1),
                    buf, start, finish)
    ensures forall i :: 0 <= i < start || finish <= i < buf.Length ==> buf[i] == old(buf[i])
  {
    ghost var rest := if n < 10 then [] else PutGrouped(loc.grouping, loc.sep, n / 10, group, left - 1);
    start := PutChar(buf, at, finish, DigitChar(n % 10), text, rest);
  }

  /** The body of the grouped loop. */
  method PutGroupedDigit(loc: Locale, n: nat, buf: array<char>, at: nat, finish: nat, group: nat, lastGrpSize: nat,
                         left: nat, ghost text: string) returns (start: nat, group': nat, size: nat, left': nat)
    requires loc.Groups() && lastGrpSize == GroupSize(loc.grouping, group)
    requires Writing(text, PutGrouped(loc.grouping, loc.sep, n, group, left), buf, at, finish)
    modifies buf
    ensures size == GroupSize(loc.grouping, group') && start <= at
    ensures Writing(text, if n < 10 then [] else PutGrouped(loc.grouping, loc.sep, n / 10, group', left'),
                    buf, start, finish)
    ensures forall i :: 0 <= i < start || finish <= i < buf.Length ==> buf[i] == old(buf[i])
  {
    start, group', size, left' := at, group, lastGrpSize, left;
    if left' == 0 {
      start, group', size := PutSeparator(loc, n, buf, start, finish, group', size, text);
      left' := size;
    }
    start := PutDigit(loc, n, buf, start, finish, group', left', text);
    left' := left' - 1;
  }

  method PutGroupedUnsigned(loc: Locale, n0: nat, buf: array<char>, finish: nat) returns (start: nat)
    requires loc.Groups()
    requires |Print(loc, n0)| <= finish <= buf.Length
    modifies buf
    ensures start == finish - |Print(loc, n0)|
    ensures buf[start..finish] == Print(loc, n0)
    ensures forall i :: 0 <= i < start || finish <= i < buf.Length ==> buf[i] == old(buf[i])
  {
    var grouping := loc.grouping;
    var n, more := n0, true;
    var group: nat, lastGrpSize: nat := 0, grouping[0];
    var left: nat := lastGrpSize;
    start := finish;
    ghost var text := Print(loc, n0);
    ghost var todo := text;
    assert todo + buf[start..finish] == text;
    while more
      invariant lastGrpSize == GroupSize(grouping, group)
      invariant Writing(text, todo, buf, start, finish)
      invariant todo == if more then PutGrouped(grouping, loc.sep, n, group, left) else []
      invariant forall i :: 0 <= i < start || finish <= i < buf.Length ==> buf[i] == old(buf[i])
      decreases more, n
    {
      start, group, lastGrpSize, left := PutGroupedDigit(loc, n, buf, start, finish, group, lastGrpSize, left, text);
      todo := if n < 10 then [] else PutGrouped(grouping, loc.sep, n / 10, group, left);
      more, n := n >= 10, n / 10;
    }
    assert todo + buf[start..finish] == buf[start..finish];
  }

  // ----- reading back

  /** The group the parser is in when the printer is in group g. */
  function Entry(grouping: seq<SChar>, g: nat): (i: nat)
    requires |grouping| > 0
    ensures i < |grouping|
  {
    if g < |grouping| then g else |grouping| - 1
  }

  /**
   The printer's `left` and the parser's `remained` agree. In an unlimited group the parser
   counts down from a value that is not positive, and the number must end first.
   */
  ghost predicate InStep(grouping: seq<SChar>, n: nat, g: nat, left: nat, remained: SChar)
    requires |grouping| > 0
  {
    if grouping[Entry(grouping, g)] > 0 then remained == left
    else |Numeral(n)| < left && (remained == 0 || |Numeral(n)| <= Countdown(remained))
  }

  /** A number that ends inside its group prints as a plain numeral. */
  lemma {:induction false} LastGroup(grouping: seq<SChar>, sep: char, n: nat, g: nat, left: nat)
    requires |grouping| > 0
    requires |Numeral(n)| <= left
    ensures PutGrouped(grouping, sep, n, g, left) == Numeral(n)
    decreases n
  {
    if n >= 10 {
      LastGroup(grouping, sep, n / 10, g, left - 1);
    }
  }

  /** What the parser, in group g with `remained` digits to go, makes of what the printer writes from there. */
  function ReadBack(grouping: seq<SChar>, sep: char, n: nat, g: nat, left: nat, remained: SChar)
    : (r: Option<string>)
    requires |grouping| > 0
  {
    Ungroup(grouping, sep, PutGrouped(grouping, sep, n, g, left), Entry(grouping, g), remained)
  }

  lemma UnlimitedGroup(grouping: seq<SChar>, sep: char, n: nat, g: nat, left: nat, remained: SChar)
    requires |grouping| > 0 && grouping[Entry(grouping, g)] <= 0 && !IsDigit(sep)
    requires InStep(grouping, n, g, left, remained)
    ensures ReadBack(grouping, sep, n, g, left, remained) == Some(Numeral(n))
  {
    LastGroup(grouping, sep, n, g, left);
    if remained == 0 {
      assert Numeral(n)[|Numeral(n)| - 1] == DigitChar(n % 10);
    } else {
      UngroupDigits(grouping, sep, Numeral(n), Entry(grouping, g), remained);
    }
  }

  /** Both sides are in group g, k digits have gone by, and n is what is left of the number. */
  ghost predicate Synchronous(grouping: seq<SChar>, sep: char, n: nat, g: nat, left: nat, k: nat, remained: SChar) {
    && |grouping| > 0 && !IsDigit(sep)
    && 1 <= k && |Numeral(n)| + k <= CHAR_MAX
    && InStep(grouping, n, g, left, remained)
    && g <= k && (left < GroupSize(grouping, g) ==> g < k)
  }

  /** Printer and parser in lockstep, from the right. */
  lemma {:induction false} LockStep(grouping: seq<SChar>, sep: char, n: nat, g: nat, left: nat, k: nat, remained: SChar)
    requires Synchronous(grouping, sep, n, g, left, k, remained)
    ensures ReadBack(grouping, sep, n, g, left, remained) == Some(Numeral(n))
    decreases n, if left == 0 then 3 else 1
  {
    if grouping[Entry(grouping, g)] <= 0 {
      UnlimitedGroup(grouping, sep, n, g, left, remained);
    } else if left == 0 {
      LockStepSeparator(grouping, sep, n, g, k);
    } else {
      LockStepDigit(grouping, sep, n, g, left, k);
    }
  }

  lemma {:induction false} LockStepSeparator(grouping: seq<SChar>, sep: char, n: nat, g: nat, k: nat)
    requires Synchronous(grouping, sep, n, g, 0, k, 0)
    requires grouping[Entry(grouping, g)] > 0
    ensures ReadBack(grouping, sep, n, g, 0, 0) == Some(Numeral(n))
    decreases n, 2
  {
    ReadSeparator(grouping, sep, n, g);
    LockStep(grouping, sep, n, g + 1, GroupSize(grouping, g + 1), k, grouping[Entry(grouping, g + 1)]);
  }

  lemma {:induction false} LockStepDigit(grouping: seq<SChar>, sep: char, n: nat, g: nat, left: nat, k: nat)
    requires 0 < left <= CHAR_MAX && Synchronous(grouping, sep, n, g, left, k, left)
    requires grouping[Entry(grouping, g)] > 0
    ensures ReadBack(grouping, sep, n, g, left, left) == Some(Numeral(n))
    decreases n, 0
  {
    ReadDigit(grouping, sep, n, g, left);
    if n >= 10 {
      LockStep(grouping, sep, n / 10, g, left - 1, k + 1, left - 1);
    }
  }

  /** At a group boundary both sides pass one separator and enter the next group. */
  lemma ReadSeparator(grouping: seq<SChar>, sep: char, n: nat, g: nat)
    requires |grouping| > 0 && g < CHAR_MAX
    ensures ReadBack(grouping, sep, n, g, 0, 0)
         == ReadBack(grouping, sep, n, g + 1, GroupSize(grouping, g + 1), grouping[Entry(grouping, g + 1)])
  {
    var text := PutGrouped(grouping, sep, n, g + 1, GroupSize(grouping, g + 1));
    assert PutGrouped(grouping, sep, n, g, 0) == text + [sep];
    assert (text + [sep])[..|text|] == text;
    assert NextGroup(grouping, Entry(grouping, g)) == Entry(grouping, g + 1);
  }

  /** Inside a group both sides handle one digit. */
  lemma ReadDigit(grouping: seq<SChar>, sep: char, n: nat, g: nat, left: nat)
    requires |grouping| > 0 && 0 < left <= CHAR_MAX
    ensures n < 10 ==> ReadBack(grouping, sep, n, g, left, left) == Some(Numeral(n))
    ensures n >= 10 && ReadBack(grouping, sep, n / 10, g, left - 1, left - 1) == Some(Numeral(n / 10))
      ==> ReadBack(grouping, sep, n, g, left, left) == Some(Numeral(n))
  {
    PutGroupedLast(grouping, sep, n, g, left);
    assert Ungroup(grouping, sep, [], Entry(grouping, g), WrapChar(left - 1)) == Some([]);
  }

  lemma PutGroupedLast(grouping: seq<SChar>, sep: char, n: nat, g: nat, left: nat)
    requires |grouping| > 0 && left > 0
    ensures var s := PutGrouped(grouping, sep, n, g, left);
            && s[|s| - 1] == DigitChar(n % 10)
            && s[..|s| - 1] == (if n < 10 then [] else PutGrouped(grouping, sep, n / 10, g, left - 1))
  {
    var rest := if n < 10 then [] else PutGrouped(grouping, sep, n / 10, g, left - 1);
    assert PutGrouped(grouping, sep, n, g, left) == rest + [DigitChar(n % 10)];
  }

  /** Dropping the separators from the printed form leaves the plain numeral. */
  lemma DigitsOfPrint(loc: Locale, n: nat)
    requires |Numeral(n)| <= CHAR_MAX
    requires loc.Groups() ==> !IsDigit(loc.sep)
    ensures Digits(loc, Print(loc, n)) == Some(Numeral(n))
  {
    if loc.Groups() {
      var s, size := Print(loc, n), loc.grouping[0];
      PutGroupedLast(loc.grouping, loc.sep, n, 0, size);
      var rest := s[..|s| - 1];
      UngroupRest(loc, n);
      assert Digits(loc, s) == Some((if n < 10 then [] else Numeral(n / 10)) + [s[|s| - 1]]);
    }
  }

  /** All but the last digit, which the parser has read before it looks at the grouping. */
  lemma UngroupRest(loc: Locale, n: nat)
    requires |Numeral(n)| <= CHAR_MAX && loc.Groups() && !IsDigit(loc.sep)
    ensures var size := loc.grouping[0];
            var rest := if n < 10 then [] else PutGrouped(loc.grouping, loc.sep, n / 10, 0, size - 1);
            Ungroup(loc.grouping, loc.sep, rest, 0, WrapChar(size - 1))
            == Some(if n < 10 then [] else Numeral(n / 10))
  {
    var size := loc.grouping[0];
    if n >= 10 {
      LockStep(loc.grouping, loc.sep, n / 10, 0, size - 1, 1, size - 1);
      assert ReadBack(loc.grouping, loc.sep, n / 10, 0, size - 1, size - 1) == Some(Numeral(n / 10));
    }
  }

  /** The compile-time check of lcast_put_unsigned: an unlimited group is never filled. */
  predicate Narrow(max: nat) {
    10 <= max && Digits10(max + 1) < CHAR_MAX
  }

  /**
   Parsing the printed form of n with the same locale returns n: for every value of the type,
   every grouping whose first group is positive, and every separator that is not a digit.
   */
  lemma ParsePrint(max: nat, loc: Locale, n: nat)
    requires Narrow(max) && n <= max
    requires loc.Groups() ==> !IsDigit(loc.sep)
    ensures Parse(max, loc, Print(loc, n)) == Some(n)
  {
    NumeralLength(n, Digits10(max + 1) + 1);
    DigitsOfPrint(loc, n);
    NumeralDenotes(n);
    ParseGroupedExact(max, loc, Print(loc, n));
  }

  // ----- signed integers: shl_signed and shr_signed

  /** make_unsigned of a two's complement type. */
  function UnsignedMax(t: IntType): (max: nat)
    requires t.Signed()
  {
    2 * t.max + 1
  }

  lemma WrapNegative(max: nat, u: nat)
    requires 1 <= u <= max
    ensures Wrap(max, 0 - u) == max + 1 - u
  {
    RemainderIs(0 - u, max + 1, -1, max + 1 - u);
  }

  lemma RemainderIs(x: int, m: nat, q: int, r: nat)
    requires r < m && x == q * m + r
    ensures x % m == r
  {
    var q', r' := x / m, x % m;
    assert x == q' * m + r';
    assert (q - q') * m == r' - r;
    if q > q' {
      MulAtLeast(q - q', m);
    } else if q < q' {
      MulAtLeast(q' - q, m);
    }
  }

  /** lcast_to_unsigned. */
  function ToUnsigned(t: IntType, n: int): (u: nat)
    requires t.Signed() && t.Has(n)
    ensures u == if n < 0 then -n else n
  {
    var max := UnsignedMax(t);
    if n < 0 then WrapNegative(max, -n); WrapNegative(max, max + 1 + n); Wrap(max, 0 - Wrap(max, n)) else n
  }

  /** Conversion from the unsigned type back to the signed one. */
  function ToSigned(t: IntType, u: nat): (n: int)
    requires t.Signed() && u <= UnsignedMax(t)
    ensures t.Has(n)
  {
    if u <= t.max then u else u - (UnsignedMax(t) + 1)
  }

  function PrintSigned(loc: Locale, n: int): (s: string) {
    if n < 0 then ['-'] + Print(loc, -n) else Print(loc, n)
  }

  /** lcast_src_length_integral for a signed type. */
  function SourceLength(t: IntType): (k: nat)
    requires t.Signed()
  {
    1 + 1 + 2 * Digits10(t.max + 1)
  }

  lemma {:induction false} SignedText(loc: Locale, n: int)
    ensures PrintSigned(loc, n) == (if n < 0 then "-" else "") + Print(loc, if n < 0 then -n else n)
  {
    assert "" + Print(loc, if n < 0 then -n else n) == Print(loc, if n < 0 then -n else n);
  }

  /** shl_signed: the text, including the sign, always fits into lcast_src_length_integral characters. */
  method ShlSigned(t: IntType, loc: Locale, n: int, buf: array<char>, finish: nat) returns (start: nat)
    requires t.Signed() && t.Has(n)
    requires SourceLength(t) <= finish <= buf.Length
    modifies buf
    ensures finish - SourceLength(t) <= start < finish
    ensures buf[start..finish] == PrintSigned(loc, n) == (if n < 0 then "-" else "") + Print(loc, if n < 0 then -n else n)
  {
    start := PutUnsigned(loc, ToUnsigned(t, n), buf, finish, Digits10(t.max + 1));
    if n < 0 {
      start := PutMinus(buf, start, finish);
    }
    SignedText(loc, n);
  }

  /** `--start; *start = minus`. */
  method PutMinus(buf: array<char>, at: nat, finish: nat) returns (start: nat)
    requires 0 < at <= finish <= buf.Length
    modifies buf
    ensures start == at - 1
    ensures buf[start..finish] == "-" + old(buf[at..finish])
  {
    start := at - 1;
    buf[start] := '-';
  }

  function SkipSign(s: string): (digits: string) {
    if s != [] && (s[0] == '-' || s[0] == '+') then s[1..] else s
  }

  /** shr_signed: None for a failed conversion. */
  function ParseSigned(t: IntType, loc: Locale, s: string): (r: Option<int>)
    requires t.Signed()
  {
    if s == [] then None
    else match Parse(UnsignedMax(t), loc, SkipSign(s))
      case None => None
      case Some(u) =>
        if s[0] == '-' then
          if u <= t.max + 1 then Some(ToSigned(t, Wrap(UnsignedMax(t), 0 - u))) else None
        else
          if u <= t.max then Some(u) else None
  }

  method ShrSigned(t: IntType, loc: Locale, s: string) returns (succeed: bool, output: int)
    requires t.Signed()
    ensures succeed == ParseSigned(t, loc, s).Some?
    ensures succeed ==> output == ParseSigned(t, loc, s).value
  {
    output := 0;
    if s == [] {
      return false, output;
    }
    var max := UnsignedMax(t);
    var start, hasMinus := 0, false;
    if s[0] == '-' {
      start, hasMinus := 1, true;
    } else if s[0] == '+' {
      start := 1;
    }
    assert s[start..] == SkipSign(s);
    var outTmp: nat;
    succeed, outTmp := RetUnsigned(max, loc, s[start..]);
    if hasMinus {
      var compVal := t.max + 1;
      succeed := succeed && outTmp <= compVal;
      output := ToSigned(t, Wrap(max, 0 - outTmp));
    } else {
      succeed := succeed && outTmp <= t.max;
      output := ToSigned(t, outTmp);
    }
  }

  lemma NegateWrapped(t: IntType, u: int)
    requires t.Signed() && 0 <= u <= t.max + 1
    ensures ToSigned(t, Wrap(UnsignedMax(t), 0 - u)) == -u
  {
    if u > 0 {
      WrapNegative(UnsignedMax(t), u);
    }
  }

  /** s is u with an optional plus sign, or with a minus sign, and v is the signed value. */
  predicate SignedForm(t: IntType, s: string, digits: string, u: nat, v: int) {
    || (s == digits && v == u <= t.max)
    || (s == "+" + digits && v == u <= t.max)
    || (s == "-" + digits && v == 0 - u && u <= t.max + 1)
  }

  /** No accepted unsigned text begins with a sign. */
  lemma AcceptedStart(max: nat, loc: Locale, s: string)
    requires Parse(max, loc, s).Some?
    ensures s != [] && IsDigit(s[0])
  {
    if |s| > 1 {
      var rest := s[..|s| - 1];
      var acc := Acc(Wrap(max, DigitValue(s[|s| - 1])), 1, false);
      if loc.Groups() {
        GroupedLoopStart(max, loc.grouping, loc.sep, rest, acc, 0, WrapChar(loc.grouping[0] - 1));
      } else {
        PlainLoopStart(max, rest, acc);
      }
    }
  }

  lemma {:induction false} PlainLoopStart(max: nat, s: string, acc: Acc)
    requires s != [] && PlainLoop(max, s, acc).Some?
    ensures IsDigit(s[0])
    decreases |s|
  {
    var k := |s| - 1;
    if k > 0 {
      PlainLoopStart(max, s[..k], TakeDigit(max, acc, s[k]).value);
    }
  }

  lemma {:induction false} GroupedLoopStart(max: nat, grouping: seq<SChar>, sep: char, s: string, acc: Acc,
                                            current: nat, remained: SChar)
    requires s != [] && current < |grouping| && GroupedLoop(max, grouping, sep, s, acc, current, remained).Some?
    ensures IsDigit(s[0])
    decreases |s|
  {
    var k := |s| - 1;
    if remained != 0 {
      if k > 0 {
        GroupedLoopStart(max, grouping, sep, s[..k], TakeDigit(max, acc, s[k]).value, current, WrapChar(remained - 1));
      }
    } else if s[k] != sep {
      PlainLoopStart(max, s, acc);
    } else {
      var next := NextGroup(grouping, current);
      GroupedLoopStart(max, grouping, sep, s[..k], acc, next, grouping[next]);
    }
  }

  lemma {:induction false} SignedAccepted(t: IntType, loc: Locale, s: string, d: string, u: nat, v: int)
    requires t.Signed() && Parse(2 * t.max + 1, loc, d) == Some(u) && SignedForm(t, s, d, u, v)
    ensures ParseSigned(t, loc, s) == Some(v)
  {
    AcceptedStart(2 * t.max + 1, loc, d);
    SignAndDigits(t, s, d, u, v);
    SignedOf(t, loc, s, u);
  }

  lemma SignedOf(t: IntType, loc: Locale, s: string, u: nat)
    requires t.Signed() && s != [] && Parse(2 * t.max + 1, loc, SkipSign(s)) == Some(u)
    ensures s[0] == '-' ==> ParseSigned(t, loc, s) == if u <= t.max + 1 then Some(0 - u) else None
    ensures s[0] != '-' ==> ParseSigned(t, loc, s) == if u <= t.max then Some(u) else None
  {
    if u <= t.max + 1 {
      NegateWrapped(t, u);
    }
  }

  lemma SignAndDigits(t: IntType, s: string, d: string, u: nat, v: int)
    requires SignedForm(t, s, d, u, v) && d != [] && IsDigit(d[0])
    ensures s != [] && SkipSign(s) == d
    ensures if s[0] == '-' then v == 0 - u && u <= t.max + 1 else v == u <= t.max
  {
    assert ("+" + d)[1..] == d && ("-" + d)[1..] == d;
  }

  lemma {:induction false} SignedFormFound(t: IntType, loc: Locale, s: string, v: int) returns (d: string, u: nat)
    requires t.Signed() && ParseSigned(t, loc, s) == Some(v)
    ensures Parse(2 * t.max + 1, loc, d) == Some(u) && SignedForm(t, s, d, u, v)
  {
    d := SkipSign(s);
    u := Parse(2 * t.max + 1, loc, d).value;
    assert s == d || s == [s[0]] + d;
    SignedOf(t, loc, s, u);
  }

  /**
   In every locale, shr_signed accepts exactly the texts the unsigned conversion accepts, alone,
   after one plus sign, or after one minus sign, as far as the signed value is representable.
   */
  lemma {:induction false} SignedLanguage(t: IntType, loc: Locale, s: string, v: int)
    requires t.Signed()
    ensures ParseSigned(t, loc, s) == Some(v)
       <==> exists d, u :: Parse(2 * t.max + 1, loc, d) == Some(u) && SignedForm(t, s, d, u, v)
  {
    if ParseSigned(t, loc, s) == Some(v) {
      var d, u := SignedFormFound(t, loc, s, v);
    }
    if d, u :| Parse(2 * t.max + 1, loc, d) == Some(u) && SignedForm(t, s, d, u, v) {
      SignedAccepted(t, loc, s, d, u, v);
    }
  }

  /** Without grouping: exactly the optionally signed numerals of representable integers. */
  lemma {:induction false} ParseSignedExact(t: IntType, loc: Locale, s: string, v: int)
    requires t.Signed() && t.max >= 10
    requires loc.Punctuated? && |loc.grouping| > 0 ==> loc.grouping[0] <= 0
    ensures ParseSigned(t, loc, s) == Some(v)
       <==> exists d :: d != [] && AllDigits(d) && SignedForm(t, s, d, NumeralValue(d), v)
  {
    if ParseSigned(t, loc, s) == Some(v) {
      var d := NumeralFound(t, loc, s, v);
    }
    if d :| d != [] && AllDigits(d) && SignedForm(t, s, d, NumeralValue(d), v) {
      NumeralAccepted(t, loc, s, d, NumeralValue(d), v);
    }
  }

  lemma {:induction false} NumeralFound(t: IntType, loc: Locale, s: string, v: int) returns (d: string)
    requires t.Signed() && t.max >= 10 && ParseSigned(t, loc, s) == Some(v)
    requires loc.Punctuated? && |loc.grouping| > 0 ==> loc.grouping[0] <= 0
    ensures d != [] && AllDigits(d) && SignedForm(t, s, d, NumeralValue(d), v)
  {
    var u;
    d, u := SignedFormFound(t, loc, s, v);
    ParseExact(2 * t.max + 1, loc, d);
  }

  lemma {:induction false} NumeralAccepted(t: IntType, loc: Locale, s: string, d: string, u: nat, v: int)
    requires t.Signed() && t.max >= 10
    requires loc.Punctuated? && |loc.grouping| > 0 ==> loc.grouping[0] <= 0
    requires d != [] && AllDigits(d) && u == NumeralValue(d) && SignedForm(t, s, d, u, v)
    ensures ParseSigned(t, loc, s) == Some(v)
  {
    ParseExact(2 * t.max + 1, loc, d);
    SignedAccepted(t, loc, s, d, u, v);
  }

  /** shr_signed undoes shl_signed for every signed n, the minimum included, in every locale. */
  lemma {:induction false} SignedRoundTrip(t: IntType, loc: Locale, n: int)
    requires t.Signed() && t.Has(n) && 10 <= t.max && Narrow(UnsignedMax(t))
    requires loc.Groups() ==> !IsDigit(loc.sep)
    ensures ParseSigned(t, loc, PrintSigned(loc, n)) == Some(n)
  {
    var u := if n < 0 then -n else n;
    ParsePrint(2 * t.max + 1, loc, u);
    assert SignedForm(t, PrintSigned(loc, n), Print(loc, u), u, n);
    SignedAccepted(t, loc, PrintSigned(loc, n), Print(loc, u), u, n);
  }

  /** A whole lexical_cast of an integer to its own type through the text buffer. */
  method CastRoundTrip(t: IntType, loc: Locale, n: int) returns (ok: bool, result: int)
    requires t.Signed() && t.Has(n) && 10 <= t.max && Narrow(UnsignedMax(t))
    requires loc.Groups() ==> !IsDigit(loc.sep)
    ensures ok && result == n
  {
    var length := SourceLength(t);
    var buf := new char[length + 1](_ => ' ');
    var start := ShlSigned(t, loc, n, buf, length + 1);
    var text := buf[start..length + 1];
    assert text == PrintSigned(loc, n);
    SignedRoundTrip(t, loc, n);
    ok, result := ShrSigned(t, loc, text);
  }
}
