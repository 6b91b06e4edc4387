/**
 Where thousands separators stand, in terms of the locale's grouping string itself: in what
 lcast_put_unsigned writes, and in what lcast_ret_unsigned accepts.
 */
module LexicalGrouping {
  import opened Wrappers
  import opened Decimal
  import opened LexicalInteger
  import opened LexicalRoundTrip

  function Sum(sizes: seq<nat>): (n: nat) {
    if sizes == [] then 0 else Sum(sizes[..|sizes| - 1]) + sizes[|sizes| - 1]
  }

  /** d with its k-th separator from the right after sizes[0] + ... + sizes[k-1] digits. */
  function Placed(d: string, sep: char, sizes: seq<nat>): (s: string)
    requires Sum(sizes) <= |d|
    decreases |sizes|
  {
    if sizes == [] then d
    else
      var b := |d| - Sum(sizes);
      d[..b] + [sep] + Placed(d[b..], sep, sizes[..|sizes| - 1])
  }

  lemma {:induction false} SumCons(n: nat, sizes: seq<nat>)
    ensures Sum([n] + sizes) == n + Sum(sizes)
    decreases |sizes|
  {
    var k := |sizes| - 1;
    if sizes == [] {
      assert ([n] + sizes)[..0] == [];
    } else {
      assert ([n] + sizes)[..|sizes|] == [n] + sizes[..k];
      SumCons(n, sizes[..k]);
    }
  }

  lemma PlacedOne(x: string, t: string, sep: char)
    ensures Sum([|t|]) == |t| && Placed(x + t, sep, [|t|]) == x + [sep] + t
  {
    assert [|t|][..0] == [];
    assert (x + t)[..|x|] == x && (x + t)[|x|..] == t;
  }

  lemma PlacedSplit(d: string, sep: char, sizes: seq<nat>, front: seq<nat>, b: nat)
    requires sizes != [] && front == sizes[..|sizes| - 1] && b + Sum(sizes) == |d|
    ensures Sum(front) <= |d[b..]| && Placed(d, sep, sizes) == d[..b] + [sep] + Placed(d[b..], sep, front)
  {
  }

  /** The rightmost group comes off with its separator. */
  lemma {:induction false} PlacedRight(x: string, t: string, sep: char, sizes: seq<nat>)
    requires Sum(sizes) <= |x|
    ensures Sum([|t|] + sizes) <= |x + t|
    ensures Placed(x + t, sep, [|t|] + sizes) == Placed(x, sep, sizes) + [sep] + t
    decreases |sizes|, 1
  {
    SumCons(|t|, sizes);
    if sizes == [] {
      assert [|t|] + sizes == [|t|];
      PlacedOne(x, t, sep);
    } else {
      PlacedRightStep(x, t, sep, sizes, [|t|] + sizes, x + t);
    }
  }

  lemma {:induction false} PlacedRightStep(x: string, t: string, sep: char, sizes: seq<nat>, all: seq<nat>, d: string)
    requires sizes != [] && all == [|t|] + sizes && d == x + t
    requires Sum(sizes) <= |x| && Sum(all) == |t| + Sum(sizes)
    ensures Placed(d, sep, all) == Placed(x, sep, sizes) + [sep] + t
    decreases |sizes|, 0
  {
    var front, b := sizes[..|sizes| - 1], |x| - Sum(sizes);
    assert all[..|all| - 1] == [|t|] + front;
    assert d[..b] == x[..b] && d[b..] == x[b..] + t;
    PlacedSplit(d, sep, all, [|t|] + front, b);
    PlacedSplit(x, sep, sizes, front, b);
    PlacedRight(x[b..], t, sep, front);
    var p := Placed(x[b..], sep, front);
    assert x[..b] + [sep] + (p + [sep] + t) == (x[..b] + [sep] + p) + [sep] + t;
  }

  // ----- what the parser accepts

  /** Group j from the right: the last entry repeats, or every 256th if there are more than 256 of them. */
  function ReadIndex(grouping: seq<SChar>, j: nat): (i: nat)
    requires |grouping| > 0
    ensures i < |grouping|
  {
    if |grouping| > 256 then j % 256 else if j < |grouping| then j else |grouping| - 1
  }

  /** Its size for the parser, which counts a negative char down through -128 to 127. */
  function ReadSize(grouping: seq<SChar>, j: nat): (size: nat)
    requires |grouping| > 0
  {
    var g: int := grouping[ReadIndex(grouping, j)];
    if g >= 0 then g else 256 + g
  }

  function ReadSizes(grouping: seq<SChar>, from: nat, m: nat): (sizes: seq<nat>)
    requires |grouping| > 0
    ensures |sizes| == m
  {
    seq<nat>(m, j requires 0 <= j => ReadSize(grouping, from + j))
  }

  lemma NextIndex(grouping: seq<SChar>, j: nat)
    requires |grouping| > 0
    ensures NextGroup(grouping, ReadIndex(grouping, j)) == ReadIndex(grouping, j + 1)
  {
  }

  lemma ReadSizesCons(grouping: seq<SChar>, from: nat, m: nat)
    requires |grouping| > 0
    ensures ReadSizes(grouping, from, m + 1) == [ReadSize(grouping, from)] + ReadSizes(grouping, from + 1, m)
    ensures Sum(ReadSizes(grouping, from, m + 1)) == ReadSize(grouping, from) + Sum(ReadSizes(grouping, from + 1, m))
  {
    assert ReadSizes(grouping, from, m + 1) == [ReadSize(grouping, from)] + ReadSizes(grouping, from + 1, m);
    SumCons(ReadSize(grouping, from), ReadSizes(grouping, from + 1, m));
  }

  /** The separators of WithSeparators, from group j on. */
  ghost function Separating(grouping: seq<SChar>, sep: char, d: string, m: nat, j: nat): (s: string)
    requires |grouping| > 0
  {
    WithSeparators(grouping, sep, d, m, ReadIndex(grouping, j), ReadSize(grouping, j))
  }

  lemma SeparatingStep(grouping: seq<SChar>, sep: char, d: string, m: nat, j: nat)
    requires |grouping| > 0 && m > 0 && ReadSize(grouping, j) < |d|
    ensures var cut := |d| - ReadSize(grouping, j);
            Separating(grouping, sep, d, m, j)
            == Separating(grouping, sep, d[..cut], m - 1, j + 1) + [sep] + d[cut..]
  {
    NextIndex(grouping, j);
  }

  lemma {:induction false} SeparatingPlaced(grouping: seq<SChar>, sep: char, d: string, m: nat, j: nat)
    requires |grouping| > 0 && Sum(ReadSizes(grouping, j, m)) < |d|
    ensures Separating(grouping, sep, d, m, j) == Placed(d, sep, ReadSizes(grouping, j, m))
    decreases m
  {
    if m > 0 {
      ReadSizesCons(grouping, j, m - 1);
      var cut := |d| - ReadSize(grouping, j);
      var x, t := d[..cut], d[cut..];
      assert d == x + t;
      SeparatingPlaced(grouping, sep, x, m - 1, j + 1);
      SeparatingStep(grouping, sep, d, m, j);
      PlacedRight(x, t, sep, ReadSizes(grouping, j + 1, m - 1));
    }
  }

  /** Separators asked for beyond the numeral's first digit are not written. */
  lemma {:induction false} EffectiveSeparators(grouping: seq<SChar>, sep: char, d: string, m: nat, j: nat)
    returns (m': nat)
    requires |grouping| > 0 && d != []
    ensures Sum(ReadSizes(grouping, j, m')) < |d|
    ensures Separating(grouping, sep, d, m, j) == Separating(grouping, sep, d, m', j)
    decreases m
  {
    var left := ReadSize(grouping, j);
    if m == 0 || |d| <= left {
      m' := 0;
    } else {
      var cut := |d| - left;
      var k := EffectiveSeparators(grouping, sep, d[..cut], m - 1, j + 1);
      m' := k + 1;
      ReadSizesCons(grouping, j, k);
      SeparatingStep(grouping, sep, d, m, j);
      SeparatingStep(grouping, sep, d, m', j);
    }
  }

  /** s is d with separators at its first m group boundaries from the right. */
  ghost predicate GroupedForm(grouping: seq<SChar>, sep: char, s: string, d: string, m: nat)
    requires |grouping| > 0
  {
    Sum(ReadSizes(grouping, 0, m)) < |d| && s == Placed(d, sep, ReadSizes(grouping, 0, m))
  }

  /**
   In a locale with a positive first group, exactly those strings are accepted that are a fitting
   numeral with separators at its first m group boundaries from the right, for some m.
   */
  lemma {:induction false} GroupedLanguage(max: nat, grouping: seq<SChar>, sep: char, s: string, v: nat)
    requires max >= 10 && |grouping| > 0 && grouping[0] > 0 && !IsDigit(sep)
    ensures Parse(max, Punctuated(grouping, sep), s) == Some(v)
       <==> exists d, m :: AllDigits(d) && NumeralValue(d) == v <= max && GroupedForm(grouping, sep, s, d, m)
  {
    var loc := Punctuated(grouping, sep);
    ParseLanguage(max, loc, s, v);
    if d, m :| d != [] && AllDigits(d) && NumeralValue(d) == v <= max && Separated(loc, s, d, m) {
      var m' := FormOfSeparated(loc, s, d, m);
    }
    if d, m :| AllDigits(d) && NumeralValue(d) == v <= max && GroupedForm(grouping, sep, s, d, m) {
      SeparatedOfForm(loc, s, d, m);
    }
  }

  lemma {:induction false} FormOfSeparated(loc: Locale, s: string, d: string, m: nat) returns (m': nat)
    requires loc.Groups() && d != [] && Separated(loc, s, d, m)
    ensures GroupedForm(loc.grouping, loc.sep, s, d, m')
  {
    m' := EffectiveSeparators(loc.grouping, loc.sep, d, m, 0);
    SeparatingPlaced(loc.grouping, loc.sep, d, m', 0);
  }

  lemma {:induction false} SeparatedOfForm(loc: Locale, s: string, d: string, m: nat)
    requires loc.Groups() && GroupedForm(loc.grouping, loc.sep, s, d, m)
    ensures d != [] && Separated(loc, s, d, m)
  {
    SeparatingPlaced(loc.grouping, loc.sep, d, m, 0);
  }

  // ----- what the printer writes

  /** Group j from the right for the printer: the last entry repeats, and one that is not positive never ends. */
  function WriteSize(grouping: seq<SChar>, j: nat): (size: nat)
    requires |grouping| > 0
    ensures size >= 1
  {
    var g: int := grouping[if j < |grouping| then j else |grouping| - 1];
    if g > 0 then g else 127
  }

  function WriteSizes(grouping: seq<SChar>, from: nat, m: nat): (sizes: seq<nat>)
    requires |grouping| > 0
    ensures |sizes| == m
  {
    seq<nat>(m, j requires 0 <= j => WriteSize(grouping, from + j))
  }

  lemma WriteSizesCons(grouping: seq<SChar>, from: nat, m: nat)
    requires |grouping| > 0
    ensures WriteSizes(grouping, from, m + 1) == [WriteSize(grouping, from)] + WriteSizes(grouping, from + 1, m)
    ensures Sum(WriteSizes(grouping, from, m + 1)) == WriteSize(grouping, from) + Sum(WriteSizes(grouping, from + 1, m))
  {
    assert WriteSizes(grouping, from, m + 1) == [WriteSize(grouping, from)] + WriteSizes(grouping, from + 1, m);
    SumCons(WriteSize(grouping, from), WriteSizes(grouping, from + 1, m));
  }

  lemma {:induction false} ChunksPlaced(grouping: seq<SChar>, sep: char, d: string, g: nat) returns (m: nat)
    requires |grouping| > 0 && d != []
    ensures Sum(WriteSizes(grouping, g, m)) < |d| <= Sum(WriteSizes(grouping, g, m + 1))
    ensures Chunks(grouping, sep, d, g, WriteSize(grouping, g)) == Placed(d, sep, WriteSizes(grouping, g, m))
    decreases |d|
  {
    var left := WriteSize(grouping, g);
    if |d| <= left {
      m := 0;
      WriteSizesCons(grouping, g, 0);
    } else {
      var cut := |d| - left;
      var x, t := d[..cut], d[cut..];
      assert d == x + t;
      var k := ChunksPlaced(grouping, sep, x, g + 1);
      m := k + 1;
      WriteSizesCons(grouping, g, k);
      WriteSizesCons(grouping, g, m);
      ChunksStep(grouping, sep, d, g, cut);
      PlacedRight(x, t, sep, WriteSizes(grouping, g + 1, k));
    }
  }

  lemma {:induction false} ChunksStep(grouping: seq<SChar>, sep: char, d: string, g: nat, cut: nat)
    requires |grouping| > 0 && cut > 0 && cut + WriteSize(grouping, g) == |d|
    ensures Chunks(grouping, sep, d, g, WriteSize(grouping, g))
         == Chunks(grouping, sep, d[..cut], g + 1, WriteSize(grouping, g + 1)) + [sep] + d[cut..]
  {
  }

  /**
   The text of n has separators at exactly those group boundaries that lie inside the numeral,
   and none without a positive first group.
   */
  lemma PrintedForm(loc: Locale, n: nat) returns (m: nat)
    ensures loc.Punctuated? && |loc.grouping| > 0 && loc.grouping[0] > 0 ==>
      && Sum(WriteSizes(loc.grouping, 0, m)) < |Numeral(n)| <= Sum(WriteSizes(loc.grouping, 0, m + 1))
      && Print(loc, n) == Placed(Numeral(n), loc.sep, WriteSizes(loc.grouping, 0, m))
    ensures !(loc.Punctuated? && |loc.grouping| > 0 && loc.grouping[0] > 0) ==> Print(loc, n) == Numeral(n)
  {
    m := 0;
    if loc.Punctuated? && |loc.grouping| > 0 && loc.grouping[0] > 0 {
      PutGroupedChunks(loc.grouping, loc.sep, n, 0, loc.grouping[0]);
      m := ChunksPlaced(loc.grouping, loc.sep, Numeral(n), 0);
    }
  }
}
