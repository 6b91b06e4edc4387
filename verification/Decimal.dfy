/** Decimal digits and numerals. */
module Decimal {

  function Pow10(k: nat): (p: nat)
    ensures p >= 1
  {
    if k == 0 then 1 else 10 * Pow10(k - 1)
  }

  predicate IsDigit(c: char) {
    '0' <= c <= '9'
  }

  function DigitChar(d: nat): (c: char)
    requires d < 10
    ensures IsDigit(c) && DigitValue(c) == d
  {
    ('0' as int + d) as char
  }

  /** `c - '0'`. */
  function DigitValue(c: char): (d: int)
    ensures IsDigit(c) ==> 0 <= d < 10
  {
    c as int - '0' as int
  }

  predicate AllDigits(s: string) {
    forall i :: 0 <= i < |s| ==> IsDigit(s[i])
  }

  /** The number a numeral denotes. */
  function NumeralValue(s: string): (v: nat)
    requires AllDigits(s)
  {
    if s == [] then 0 else 10 * NumeralValue(s[..|s| - 1]) + DigitValue(s[|s| - 1])
  }

  /** The numeral of n without leading zeros; "0" for zero. */
  function Numeral(n: nat): (s: string)
    ensures |s| >= 1
  {
    (if n < 10 then [] else Numeral(n / 10)) + [DigitChar(n % 10)]
  }

  lemma ValueOfAppend(s: string, c: char)
    ensures AllDigits(s) && IsDigit(c) ==> AllDigits(s + [c])
    ensures AllDigits(s) && IsDigit(c) ==> NumeralValue(s + [c]) == 10 * NumeralValue(s) + DigitValue(c)
  {
    assert (s + [c])[..|s|] == s;
  }

  /** The digits in order. */
  lemma AllTenDigits()
    ensures NumeralValue("9876543210") == 9876543210
  {
    UpperFive();
    ValueOfAppend("98765", '4');
    assert "98765" + ['4'] == "987654";
    ValueOfAppend("987654", '3');
    assert "987654" + ['3'] == "9876543";
    ValueOfAppend("9876543", '2');
    assert "9876543" + ['2'] == "98765432";
    ValueOfAppend("98765432", '1');
    assert "98765432" + ['1'] == "987654321";
    ValueOfAppend("987654321", '0');
    assert "987654321" + ['0'] == "9876543210";
  }

  lemma UpperFive()
    ensures NumeralValue("98765") == 98765
  {
    ValueOfAppend([], '9');
    assert [] + ['9'] == "9";
    ValueOfAppend("9", '8');
    assert "9" + ['8'] == "98";
    ValueOfAppend("98", '7');
    assert "98" + ['7'] == "987";
    ValueOfAppend("987", '6');
    assert "987" + ['6'] == "9876";
    ValueOfAppend("9876", '5');
    assert "9876" + ['5'] == "98765";
  }

  lemma {:induction false} NumeralDenotes(n: nat)
    ensures AllDigits(Numeral(n))
    ensures NumeralValue(Numeral(n)) == n
  {
    var hi := if n < 10 then [] else Numeral(n / 10);
    ValueOfAppend(hi, DigitChar(n % 10));
    if n >= 10 {
      NumeralDenotes(n / 10);
    }
  }

  lemma {:induction false} ValueOfPrepend(c: char, s: string)
    requires IsDigit(c) && AllDigits(s)
    ensures AllDigits([c] + s)
    ensures NumeralValue([c] + s) == DigitValue(c) * Pow10(|s|) + NumeralValue(s)
    decreases |s|
  {
    if s == [] {
      assert [c] + s == [c];
      assert [c][..0] == [];
    } else {
      var k := |s| - 1;
      ValueOfPrepend(c, s[..k]);
      assert ([c] + s)[..|s|] == [c] + s[..k];
      assert DigitValue(c) * Pow10(|s|) == 10 * (DigitValue(c) * Pow10(k));
    }
  }

  lemma TimesTen(a: nat, p: nat)
    ensures a * (10 * p) == 10 * (a * p)
  {
  }

  lemma {:induction false} ValueOfConcat(a: string, b: string)
    requires AllDigits(a) && AllDigits(b)
    ensures AllDigits(a + b)
    ensures NumeralValue(a + b) == NumeralValue(a) * Pow10(|b|) + NumeralValue(b)
    decreases |b|
  {
    if b == [] {
      assert a + b == a;
    } else {
      var k := |b| - 1;
      assert b == b[..k] + [b[k]];
      assert a + b == a + b[..k] + [b[k]];
      ValueOfConcat(a, b[..k]);
      ValueOfAppend(a + b[..k], b[k]);
      TimesTen(NumeralValue(a), Pow10(k));
    }
  }

  lemma {:induction false} Pow10Monotone(a: nat, b: nat)
    requires a <= b
    ensures Pow10(a) <= Pow10(b)
    decreases b
  {
    if a < b {
      Pow10Monotone(a, b - 1);
    }
  }

  /** n has at most k digits exactly if n < 10^k. */
  lemma {:induction false} NumeralLength(n: nat, k: nat)
    requires k >= 1 && n < Pow10(k)
    ensures |Numeral(n)| <= k
    decreases k
  {
    if n >= 10 {
      NumeralLength(n / 10, k - 1);
    }
  }

  /** numeric_limits::digits10 of a type with m values of one sign: the largest d with 10^d <= m. */
  function Digits10(m: nat): (d: nat)
    requires m >= 1
    ensures Pow10(d) <= m < Pow10(d + 1)
  {
    if m < 10 then 0 else 1 + Digits10(m / 10)
  }
}
