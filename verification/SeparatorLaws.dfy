/**
 What a tokenizer over a char_separator delivers, for both of its constructors, in terms of the
 delimiter characters themselves.
 */
module SeparatorLaws {
  import opened CharSeparators
  import opened SplitTheory

  function Chars(s: string): (cs: set<char>) {
    set c | c in s
  }

  /** s alternates fields without any delimiter, and delimiters. */
  ghost predicate Alternation(kept: set<char>, dropped: set<char>, s: string, fields: seq<string>, ds: string) {
    && |fields| == |ds| + 1
    && (forall i, k :: 0 <= i < |fields| && 0 <= k < |fields[i]| ==> fields[i][k] !in kept + dropped)
    && (forall i :: 0 <= i < |ds| ==> ds[i] in kept + dropped)
    && s == Weave(fields, ds)
  }

  /** Every field, and every kept delimiter. */
  function KeepTokens(kept: set<char>, fields: seq<string>, ds: string): (tokens: seq<string>)
    requires |fields| == |ds| + 1
  {
    if ds == [] then [fields[0]]
    else [fields[0]] + (if ds[0] in kept then [[ds[0]]] else []) + KeepTokens(kept, fields[1..], ds[1..])
  }

  /** Every field that is not empty, and every kept delimiter that is not dropped as well. */
  function DropTokens(kept: set<char>, dropped: set<char>, fields: seq<string>, ds: string): (tokens: seq<string>)
    requires |fields| == |ds| + 1
  {
    var first := if fields[0] == [] then [] else [fields[0]];
    if ds == [] then first
    else
      first + (if ds[0] in kept && ds[0] !in dropped then [[ds[0]]] else [])
      + DropTokens(kept, dropped, fields[1..], ds[1..])
  }

  /** The separator takes exactly these characters for delimiters. */
  ghost predicate Delimits(delims: Delimiters, kept: set<char>, dropped: set<char>) {
    forall c :: (delims.IsKept(c) <==> c in kept) && (delims.IsDropped(c) <==> c in dropped)
  }

  lemma {:induction false} EmitIsKeepTokens(delims: Delimiters, kept: set<char>, dropped: set<char>,
                                            fields: seq<string>, ds: string)
    requires Delimits(delims, kept, dropped) && |fields| == |ds| + 1
    ensures Emit(delims, fields, ds) == KeepTokens(kept, fields, ds)
    decreases |ds|
  {
    if ds != [] {
      EmitIsKeepTokens(delims, kept, dropped, fields[1..], ds[1..]);
    }
  }

  lemma KeepLaw(delims: Delimiters, kept: set<char>, dropped: set<char>, s: string, fields: seq<string>, ds: string)
    requires Delimits(delims, kept, dropped) && Alternation(kept, dropped, s, fields, ds)
    ensures delims.KeepSplit(s) == KeepTokens(kept, fields, ds)
  {
    forall i | 0 <= i < |fields|
      ensures IsField(delims, fields[i])
    {
    }
    KeepSplitEmits(delims, s, fields, ds);
    EmitIsKeepTokens(delims, kept, dropped, fields, ds);
  }

  /** One field and the delimiter that ends it. */
  lemma {:induction false} DropSplitFirst(delims: Delimiters, f: string, d: char, tail: string)
    requires IsField(delims, f) && delims.IsDelimiter(d)
    ensures delims.DropSplit(f + [d] + tail)
         == (if f == [] then [] else [f]) + (if delims.IsKept(d) && !delims.IsDropped(d) then [[d]] else [])
            + delims.DropSplit(tail)
  {
    var rest := [d] + tail;
    var s := f + [d] + tail;
    assert s == f + rest;
    DropDelimiter(delims, d, tail);
    DropField(delims, f, rest, s);
    Associate(if f == [] then [] else [f], if delims.IsKept(d) && !delims.IsDropped(d) then [[d]] else [],
              delims.DropSplit(tail));
  }

  lemma Associate(a: seq<string>, b: seq<string>, c: seq<string>)
    ensures a + (b + c) == a + b + c
  {
  }

  lemma {:induction false} DropField(delims: Delimiters, f: string, rest: string, s: string)
    requires IsField(delims, f) && rest != [] && delims.IsDelimiter(rest[0]) && s == f + rest
    ensures delims.DropSplit(s) == (if f == [] then [] else [f]) + delims.DropSplit(rest)
  {
    assert s[..|f|] == f && s[|f|..] == rest;
    FieldLengthOf(delims, f, rest);
    DropSplitField(delims, s);
  }

  lemma {:induction false} DropDelimiter(delims: Delimiters, d: char, tail: string)
    requires delims.IsDelimiter(d)
    ensures delims.DropSplit([d] + tail)
         == (if delims.IsKept(d) && !delims.IsDropped(d) then [[d]] else []) + delims.DropSplit(tail)
  {
    var s := [d] + tail;
    assert s[1..] == tail;
    assert [] + delims.DropSplit(tail) == delims.DropSplit(tail);
  }

  lemma {:induction false} DropLaw(delims: Delimiters, kept: set<char>, dropped: set<char>, s: string,
                                   fields: seq<string>, ds: string)
    requires Delimits(delims, kept, dropped) && Alternation(kept, dropped, s, fields, ds)
    ensures delims.DropSplit(s) == DropTokens(kept, dropped, fields, ds)
    decreases |ds|
  {
    assert IsField(delims, fields[0]);
    if ds == [] {
      assert s + [] == s;
      FieldLengthOf(delims, s, []);
      DropSplitField(delims, s);
    } else {
      var tail := Weave(fields[1..], ds[1..]);
      DropSplitFirst(delims, fields[0], ds[0], tail);
      DropLaw(delims, kept, dropped, tail, fields[1..], ds[1..]);
    }
  }

  /** Every string alternates. */
  lemma AlternationExists(kept: set<char>, dropped: set<char>, s: string) returns (fields: seq<string>, ds: string)
    ensures Alternation(kept, dropped, s, fields, ds)
  {
    var delims := Delimiters([], [], true, true, kept, dropped);
    fields, ds := EveryStringAlternates(delims, s);
    forall i, k | 0 <= i < |fields| && 0 <= k < |fields[i]|
      ensures fields[i][k] !in kept + dropped
    {
      assert IsField(delims, fields[i]);
      assert !delims.IsDelimiter(fields[i][k]);
    }
    forall i | 0 <= i < |ds|
      ensures ds[i] in kept + dropped
    {
      assert delims.IsDelimiter(ds[i]);
    }
  }

  /**
   char_separator(dropped, kept, policy): the given characters and no others are delimiters,
   whatever the locale takes for punctuation and space.
   */
  method SplitAtGiven(dropped: string, kept: string, policy: EmptyTokenPolicy, builder: Builder,
                      punct: set<char>, space: set<char>, input: string) returns (tokens: seq<string>)
    ensures input == [] ==> tokens == []
    ensures forall fields, ds :: input != [] && Alternation(Chars(kept), Chars(dropped), input, fields, ds) ==>
      tokens == if policy == KeepEmptyTokens then KeepTokens(Chars(kept), fields, ds)
                else DropTokens(Chars(kept), Chars(dropped), fields, ds)
  {
    var delims := Delimiters(kept, dropped, false, false, punct, space);
    tokens := Tokenize(delims, policy, builder, input);
    assert Delimits(delims, Chars(kept), Chars(dropped));
    forall fields, ds | Alternation(Chars(kept), Chars(dropped), input, fields, ds)
      ensures delims.KeepSplit(input) == KeepTokens(Chars(kept), fields, ds)
      ensures delims.DropSplit(input) == DropTokens(Chars(kept), Chars(dropped), fields, ds)
    {
      KeepLaw(delims, Chars(kept), Chars(dropped), input, fields, ds);
      DropLaw(delims, Chars(kept), Chars(dropped), input, fields, ds);
    }
  }

  /** char_separator(): punctuation is kept, space is dropped, and so are empty tokens. */
  method SplitByClass(builder: Builder, punct: set<char>, space: set<char>, input: string) returns (tokens: seq<string>)
    ensures forall fields, ds :: Alternation(punct, space, input, fields, ds) ==>
      tokens == DropTokens(punct, space, fields, ds)
  {
    var delims := Delimiters([], [], true, true, punct, space);
    tokens := Tokenize(delims, DropEmptyTokens, builder, input);
    assert Delimits(delims, punct, space);
    forall fields, ds | Alternation(punct, space, input, fields, ds)
      ensures delims.DropSplit(input) == DropTokens(punct, space, fields, ds)
    {
      DropLaw(delims, punct, space, input, fields, ds);
    }
  }
}
