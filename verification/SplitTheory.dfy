/** What the two splits of char_separator mean, and how they relate. */
module SplitTheory {
  import opened CharSeparators

  // ----- keep_empty_tokens: fields and delimiters alternate

  /** f0 d0 f1 d1 ... dk-1 fk, as one string. */
  function Weave(fields: seq<string>, ds: string): (s: string)
    requires |fields| == |ds| + 1
  {
    if ds == [] then fields[0] else fields[0] + [ds[0]] + Weave(fields[1..], ds[1..])
  }

  /** The tokens of that string: all the fields, and the kept ones among the delimiters. */
  function Emit(delims: Delimiters, fields: seq<string>, ds: string): (tokens: seq<string>)
    requires |fields| == |ds| + 1
  {
    if ds == [] then [fields[0]]
    else [fields[0]] + (if delims.IsKept(ds[0]) then [[ds[0]]] else []) + Emit(delims, fields[1..], ds[1..])
  }

  ghost predicate IsField(delims: Delimiters, f: string) {
    forall i :: 0 <= i < |f| ==> !delims.IsDelimiter(f[i])
  }

  /** s alternates delimiter-free fields and delimiters as given. */
  ghost predicate Alternates(delims: Delimiters, s: string, fields: seq<string>, ds: string) {
    && |fields| == |ds| + 1
    && (forall i :: 0 <= i < |fields| ==> IsField(delims, fields[i]))
    && (forall i :: 0 <= i < |ds| ==> delims.IsDelimiter(ds[i]))
    && s == Weave(fields, ds)
  }

  lemma {:induction false} FieldLengthOf(delims: Delimiters, f: string, rest: string)
    requires IsField(delims, f)
    requires rest == [] || delims.IsDelimiter(rest[0])
    ensures delims.FieldLength(f + rest) == |f|
    decreases |f|
  {
    if f == [] {
      assert f + rest == rest;
    } else {
      assert (f + rest)[0] == f[0];
      assert (f + rest)[1..] == f[1..] + rest;
      FieldLengthOf(delims, f[1..], rest);
    }
  }

  /** However a string alternates, its tokens are those fields and kept delimiters. */
  lemma {:induction false} KeepSplitEmits(delims: Delimiters, s: string, fields: seq<string>, ds: string)
    requires Alternates(delims, s, fields, ds)
    ensures delims.KeepSplit(s) == Emit(delims, fields, ds)
    decreases |ds|
  {
    if ds == [] {
      assert s + [] == s;
      FieldLengthOf(delims, fields[0], []);
    } else {
      var tail := Weave(fields[1..], ds[1..]);
      KeepSplitFirst(delims, fields[0], ds[0], tail);
      KeepSplitEmits(delims, tail, fields[1..], ds[1..]);
    }
  }

  lemma KeepSplitFirst(delims: Delimiters, f: string, d: char, tail: string)
    requires IsField(delims, f) && delims.IsDelimiter(d)
    ensures delims.KeepSplit(f + [d] + tail)
         == [f] + (if delims.IsKept(d) then [[d]] else []) + delims.KeepSplit(tail)
  {
    var rest := [d] + tail;
    var s := f + [d] + tail;
    assert s == f + rest;
    assert s[..|f|] == f && s[|f|..] == rest && rest[1..] == tail;
    FieldLengthOf(delims, f, rest);
  }

  /** Every string alternates in some way. */
  lemma {:induction false} EveryStringAlternates(delims: Delimiters, s: string) returns (fields: seq<string>, ds: string)
    ensures Alternates(delims, s, fields, ds)
    decreases |s|
  {
    var i := delims.FieldLength(s);
    if i == |s| {
      fields, ds := [s], [];
    } else {
      var fs, es := EveryStringAlternates(delims, s[i + 1..]);
      fields, ds := [s[..i]] + fs, [s[i]] + es;
      assert fields[1..] == fs && ds[1..] == es;
      assert s == s[..i] + [s[i]] + s[i + 1..];
    }
  }

  // ----- drop_empty_tokens

  function NonEmpty(tokens: seq<string>): (r: seq<string>) {
    if tokens == [] then []
    else (if tokens[0] == [] then [] else [tokens[0]]) + NonEmpty(tokens[1..])
  }

  lemma NonEmptyCons(t: string, tokens: seq<string>)
    ensures NonEmpty([t] + tokens) == (if t == [] then [] else [t]) + NonEmpty(tokens)
  {
    assert ([t] + tokens)[1..] == tokens;
  }

  /** No character of s is both a kept and a dropped delimiter. */
  predicate Disjoint(delims: Delimiters, s: string) {
    forall i :: 0 <= i < |s| ==> !(delims.IsKept(s[i]) && delims.IsDropped(s[i]))
  }

  lemma NonEmptyAfterField(delims: Delimiters, s: string)
    requires s != []
    ensures NonEmpty(delims.AfterField(s))
         == (if delims.IsKept(s[0]) then [[s[0]]] else []) + NonEmpty(delims.KeepSplit(s[1..]))
  {
    if delims.IsKept(s[0]) {
      NonEmptyCons([s[0]], delims.KeepSplit(s[1..]));
    } else {
      assert delims.AfterField(s) == delims.KeepSplit(s[1..]);
      assert [] + NonEmpty(delims.KeepSplit(s[1..])) == NonEmpty(delims.KeepSplit(s[1..]));
    }
  }

  lemma NonEmptyKeepSplit(delims: Delimiters, s: string)
    ensures var i := delims.FieldLength(s);
            NonEmpty(delims.KeepSplit(s))
            == (if i == 0 then [] else [s[..i]]) + if i == |s| then [] else NonEmpty(delims.AfterField(s[i..]))
  {
    var i := delims.FieldLength(s);
    if i == |s| {
      assert s[..i] == s;
      NonEmptyCons(s, []);
    } else {
      NonEmptyCons(s[..i], delims.AfterField(s[i..]));
    }
  }

  lemma DropSplitAtDelimiter(delims: Delimiters, s: string)
    requires s != [] && delims.IsDelimiter(s[0]) && !(delims.IsKept(s[0]) && delims.IsDropped(s[0]))
    ensures delims.DropSplit(s) == (if delims.IsKept(s[0]) then [[s[0]]] else []) + delims.DropSplit(s[1..])
  {
    assert [] + delims.DropSplit(s[1..]) == delims.DropSplit(s[1..]);
  }

  lemma {:induction false} DropSplitIsFiltered(delims: Delimiters, s: string)
    requires Disjoint(delims, s)
    ensures delims.DropSplit(s) == NonEmpty(delims.KeepSplit(s))
    decreases |s|
  {
    var i := delims.FieldLength(s);
    NonEmptyKeepSplit(delims, s);
    DropSplitField(delims, s);
    if i < |s| {
      var rest := s[i..];
      assert rest[0] == s[i] && rest[1..] == s[i + 1..];
      NonEmptyAfterField(delims, rest);
      DropSplitIsFiltered(delims, s[i + 1..]);
      DropSplitAtDelimiter(delims, rest);
    }
  }

  lemma DropSplitField(delims: Delimiters, s: string)
    ensures var i := delims.FieldLength(s);
            delims.DropSplit(s)
            == (if i == 0 then [] else [s[..i]]) + if i == |s| then [] else delims.DropSplit(s[i..])
  {
    var i := delims.FieldLength(s);
    if i == 0 {
      assert s[i..] == s;
      assert [] + delims.DropSplit(s) == delims.DropSplit(s);
    } else if i == |s| {
      assert s[i..] == [];
    }
  }

  function TotalLength(tokens: seq<string>): (n: nat) {
    if tokens == [] then 0 else |tokens[0]| + TotalLength(tokens[1..])
  }

  lemma TotalLengthCons(t: string, tokens: seq<string>)
    ensures TotalLength([t] + tokens) == |t| + TotalLength(tokens)
  {
    assert ([t] + tokens)[1..] == tokens;
  }

  lemma {:induction false} TotalLengthNonEmpty(tokens: seq<string>)
    ensures TotalLength(NonEmpty(tokens)) == TotalLength(tokens)
  {
    if tokens != [] {
      TotalLengthNonEmpty(tokens[1..]);
      if tokens[0] == [] {
        assert [] + NonEmpty(tokens[1..]) == NonEmpty(tokens[1..]);
      } else {
        TotalLengthCons(tokens[0], NonEmpty(tokens[1..]));
      }
    }
  }

  /** Characters that no token holds in drop mode, respectively in keep mode. */
  function LostDropping(delims: Delimiters, s: string): (n: nat) {
    if s == [] then 0 else (if delims.IsDropped(s[0]) then 1 else 0) + LostDropping(delims, s[1..])
  }

  function LostKeeping(delims: Delimiters, s: string): (n: nat) {
    if s == [] then 0
    else (if delims.IsDropped(s[0]) && !delims.IsKept(s[0]) then 1 else 0) + LostKeeping(delims, s[1..])
  }

  lemma {:induction false} FieldLosesNothing(delims: Delimiters, s: string)
    ensures LostDropping(delims, s) == LostDropping(delims, s[delims.FieldLength(s)..])
    ensures LostKeeping(delims, s) == LostKeeping(delims, s[delims.FieldLength(s)..])
    decreases |s|
  {
    var i := delims.FieldLength(s);
    if i > 0 {
      FieldLosesNothing(delims, s[1..]);
      assert s[1..][i - 1..] == s[i..];
    } else {
      assert s[0..] == s;
    }
  }

  lemma {:induction false} DropSplitLength(delims: Delimiters, s: string)
    ensures TotalLength(delims.DropSplit(s)) + LostDropping(delims, s) == |s|
    decreases |s|
  {
    if s != [] {
      if delims.IsDropped(s[0]) {
        DropSplitLength(delims, s[1..]);
      } else if delims.IsKept(s[0]) {
        DropSplitLength(delims, s[1..]);
        TotalLengthCons([s[0]], delims.DropSplit(s[1..]));
      } else {
        var i := delims.FieldLength(s);
        DropSplitLength(delims, s[i..]);
        TotalLengthCons(s[..i], delims.DropSplit(s[i..]));
        FieldLosesNothing(delims, s);
      }
    }
  }

  lemma {:induction false} KeepSplitLength(delims: Delimiters, s: string)
    ensures TotalLength(delims.KeepSplit(s)) + LostKeeping(delims, s) == |s|
    decreases |s|
  {
    var i := delims.FieldLength(s);
    FieldLosesNothing(delims, s);
    if i == |s| {
      TotalLengthCons(s, []);
    } else {
      var rest := s[i..];
      var tail := delims.KeepSplit(rest[1..]);
      TotalLengthCons(s[..i], delims.AfterField(rest));
      KeepSplitLength(delims, rest[1..]);
      if delims.IsKept(rest[0]) {
        TotalLengthCons([rest[0]], tail);
      } else {
        assert delims.AfterField(rest) == tail;
      }
    }
  }

  lemma {:induction false} LostDiffers(delims: Delimiters, s: string)
    ensures LostKeeping(delims, s) <= LostDropping(delims, s)
    ensures LostKeeping(delims, s) == LostDropping(delims, s) ==> Disjoint(delims, s)
    decreases |s|
  {
    if s != [] {
      LostDiffers(delims, s[1..]);
      assert s == [s[0]] + s[1..];
    }
  }

  /**
   Dropping empty tokens is filtering them out of the keep_empty_tokens output exactly for the
   inputs that hold no character of both delimiter kinds: such a character is dropped in one
   mode and kept in the other.
   */
  lemma DropIsFilteredKeep(delims: Delimiters, s: string)
    ensures delims.DropSplit(s) == NonEmpty(delims.KeepSplit(s)) <==> Disjoint(delims, s)
  {
    if Disjoint(delims, s) {
      DropSplitIsFiltered(delims, s);
    } else if delims.DropSplit(s) == NonEmpty(delims.KeepSplit(s)) {
      DropSplitLength(delims, s);
      KeepSplitLength(delims, s);
      TotalLengthNonEmpty(delims.KeepSplit(s));
      LostDiffers(delims, s);
    }
  }

  /** With "," both kept and dropped, the input "," has no token in one mode, and the other keeps it. */
  method CommaInBothRoles(builder: Builder) returns (dropping: seq<string>, keeping: seq<string>)
    ensures dropping == [] && NonEmpty(keeping) == [","]
  {
    var comma := Delimiters([','], [','], false, false, {}, {});
    dropping := Tokenize(comma, DropEmptyTokens, builder, ",");
    keeping := Tokenize(comma, KeepEmptyTokens, builder, ",");
    assert ","[0..] == "," && ","[1..] == [];
    assert comma.AfterField(",") == [","] + [[]];
    assert comma.KeepSplit(",") == [[]] + ([","] + [[]]);
    NonEmptyCons([], [","] + [[]]);
    NonEmptyCons(",", [[]]);
    NonEmptyCons([], []);
  }
}
