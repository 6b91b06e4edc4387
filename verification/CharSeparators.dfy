/**
 boost/token_functions.hpp: char_separator, driven by the token_iterator of
 boost/token_iterator.hpp. An iterator over the input is a position in a string.
 */
module CharSeparators {

  datatype EmptyTokenPolicy = DropEmptyTokens | KeepEmptyTokens

  /** assign_or_plus_equal: tokens are assigned as ranges, or appended character by character. */
  datatype Builder = Assigning | Appending {
    function Clear(tok: string): (t: string) {
      if Appending? then [] else tok
    }

    function PlusEqual(tok: string, c: char): (t: string) {
      if Appending? then tok + [c] else tok
    }

    function Assign(range: string, tok: string): (t: string) {
      if Appending? then tok else range
    }
  }

  /** The delimiters of a separator, and the character classes of the locale it falls back on. */
  datatype Delimiters = Delimiters(kept: string, dropped: string, useIspunct: bool, useIsspace: bool,
                                   punct: set<char>, space: set<char>)
  {
    predicate IsKept(c: char) {
      if |kept| > 0 then c in kept else useIspunct && c in punct
    }

    predicate IsDropped(c: char) {
      if |dropped| > 0 then c in dropped else useIsspace && c in space
    }

    predicate IsDelimiter(c: char) {
      IsKept(c) || IsDropped(c)
    }

    /** The length of the delimiter-free prefix of s. */
    function FieldLength(s: string): (i: nat)
      ensures i <= |s|
      ensures forall k :: 0 <= k < i ==> !IsDelimiter(s[k])
      ensures i < |s| ==> IsDelimiter(s[i])
    {
      if s == [] || IsDelimiter(s[0]) then 0 else 1 + FieldLength(s[1..])
    }

    // ----- the split specifications

    /** Every field between neighbouring delimiters, and every kept delimiter, in order. */
    function KeepSplit(s: string): (tokens: seq<string>)
      ensures tokens != []
      decreases |s|
    {
      var i := FieldLength(s);
      if i == |s| then [s] else [s[..i]] + AfterField(s[i..])
    }

    /** The tokens of a rest of the input that starts with the delimiter ending a field. */
    function AfterField(s: string): (tokens: seq<string>)
      requires s != []
      decreases |s|, 0
    {
      (if IsKept(s[0]) then [[s[0]]] else []) + KeepSplit(s[1..])
    }

    /** The non-empty fields and the kept delimiters; a dropped delimiter is skipped first. */
    function DropSplit(s: string): (tokens: seq<string>)
      decreases |s|
    {
      if s == [] then []
      else if IsDropped(s[0]) then DropSplit(s[1..])
      else if IsKept(s[0]) then [[s[0]]] + DropSplit(s[1..])
      else
        var i := FieldLength(s);
        [s[..i]] + DropSplit(s[i..])
    }

    /** What is still to come in a call with m_output_done == done. */
    function Pending(policy: EmptyTokenPolicy, s: string, done: bool): (tokens: seq<string>) {
      if policy == DropEmptyTokens then DropSplit(s)
      else if !done then KeepSplit(s)
      else if s == [] then []
      else if IsDelimiter(s[0]) then AfterField(s)
      else KeepSplit(s)
    }

    /** What a tokenizer should deliver; an empty input has no token in either mode. */
    function Split(policy: EmptyTokenPolicy, s: string): (tokens: seq<string>) {
      if s == [] then [] else if policy == KeepEmptyTokens then KeepSplit(s) else DropSplit(s)
    }

    predicate IsKeptToken(tok: string) {
      |tok| == 1 && IsKept(tok[0])
    }
  }

  class CharSeparator {
    const delims: Delimiters
    const policy: EmptyTokenPolicy
    const builder: Builder
    var outputDone: bool

    constructor (delims: Delimiters, policy: EmptyTokenPolicy, builder: Builder)
      ensures this.delims == delims && this.policy == policy && this.builder == builder && !outputDone
    {
      this.delims, this.policy, this.builder := delims, policy, builder;
      outputDone := false;
    }

    /** The copy constructor; it takes over m_output_done as well. */
    constructor CopyOf(that: CharSeparator)
      ensures delims == that.delims && policy == that.policy && builder == that.builder
      ensures outputDone == that.outputDone
    {
      delims, policy, builder := that.delims, that.policy, that.builder;
      outputDone := that.outputDone;
    }

    /** reset() leaves m_output_done alone. */
    method Reset()
    {
    }

    ghost function Pending(s: string): (tokens: seq<string>)
      reads this
    {
      delims.Pending(policy, s, outputDone)
    }

    /**
     operator(): delivers the first pending token, or reports that there is none. Both ways of
     building the token give the same one. In keep mode m_output_done is left false exactly
     after a kept delimiter, and the position stays exactly for an empty field taken with
     m_output_done false.
     */
    method Call(input: string, start: nat, tok0: string) returns (ok: bool, next: nat, tok: string)
      requires start <= |input|
      modifies this
      ensures start <= next <= |input|
      ensures ok <==> old(Pending(input[start..])) != []
      ensures ok ==> old(Pending(input[start..])) == [tok] + Pending(input[next..])
      ensures ok ==> (next == start <==> policy == KeepEmptyTokens && !old(outputDone) && tok == [])
      ensures policy == KeepEmptyTokens ==> (outputDone <==> !ok || !delims.IsKeptToken(tok))
    {
      if policy == DropEmptyTokens {
        ok, next, tok := CallDropping(input, start, tok0);
      } else {
        ok, next, tok := CallKeeping(input, start, tok0);
      }
    }

    /** Append all the non-delimiter characters. */
    method Field(input: string, start: nat, tok0: string) returns (next: nat, tok: string)
      requires start <= |input| && (builder.Appending? ==> tok0 == [])
      ensures next == start + delims.FieldLength(input[start..])
      ensures tok == if builder.Appending? then input[start..next] else tok0
    {
      next, tok := start, tok0;
      while next < |input| && !delims.IsDropped(input[next]) && !delims.IsKept(input[next])
        invariant start <= next <= |input|
        invariant next - start + delims.FieldLength(input[next..]) == delims.FieldLength(input[start..])
        invariant tok == if builder.Appending? then input[start..next] else tok0
      {
        assert input[next..][1..] == input[next + 1..];
        assert input[start..next + 1] == input[start..next] + [input[next]];
        tok := builder.PlusEqual(tok, input[next]);
        next := next + 1;
      }
    }

    method SkipDropped(input: string, start: nat) returns (next: nat)
      requires start <= |input|
      ensures start <= next <= |input|
      ensures delims.DropSplit(input[next..]) == delims.DropSplit(input[start..])
      ensures next == |input| || !delims.IsDropped(input[next])
    {
      next := start;
      while next < |input| && delims.IsDropped(input[next])
        invariant start <= next <= |input|
        invariant delims.DropSplit(input[next..]) == delims.DropSplit(input[start..])
      {
        assert input[next..][1..] == input[next + 1..];
        next := next + 1;
      }
    }

    method CallDropping(input: string, start0: nat, tok0: string) returns (ok: bool, next: nat, tok: string)
      requires start0 <= |input| && policy == DropEmptyTokens
      ensures start0 <= next <= |input|
      ensures ok <==> delims.DropSplit(input[start0..]) != []
      ensures ok ==> delims.DropSplit(input[start0..]) == [tok] + delims.DropSplit(input[next..]) && next > start0
    {
      next := SkipDropped(input, start0);
      tok := builder.Clear(tok0);
      var start := next;
      if next == |input| {
        return false, next, tok;
      }
      ghost var s := input[start..];
      if delims.IsKept(input[next]) {
        tok := builder.PlusEqual(tok, input[next]);
        next := next + 1;
        assert input[start..next] == [s[0]] == [] + [s[0]];
      } else {
        next, tok := Field(input, start, tok);
      }
      DropFirst(delims, s, next - start);
      assert s[next - start..] == input[next..] && s[..next - start] == input[start..next];
      tok := builder.Assign(input[start..next], tok);
      ok := true;
    }

    method CallKeeping(input: string, start0: nat, tok0: string) returns (ok: bool, next: nat, tok: string)
      requires start0 <= |input| && policy == KeepEmptyTokens
      modifies this
      ensures start0 <= next <= |input|
      ensures ok <==> old(Pending(input[start0..])) != []
      ensures ok ==> old(Pending(input[start0..])) == [tok] + Pending(input[next..])
      ensures ok ==> (next == start0 <==> !old(outputDone) && tok == [])
      ensures outputDone <==> !ok || !delims.IsKeptToken(tok)
    {
      var start := start0;
      tok, next := builder.Clear(tok0), start0;
      if next == |input| {
        if outputDone == false {
          outputDone := true;
          tok := builder.Assign(input[start..next], tok);
          return true, next, tok;
        } else {
          return false, next, tok;
        }
      }
      if delims.IsKept(input[next]) || (outputDone == false && delims.IsDropped(input[next])) {
        next, tok := AtDelimiter(input, start, tok);
      } else {
        next, tok := AtField(input, start, tok);
      }
      ok := true;
    }

    /** The branches for a kept delimiter, and for a dropped one that ends an empty field. */
    method AtDelimiter(input: string, start: nat, tok0: string) returns (next: nat, tok: string)
      requires start < |input| && policy == KeepEmptyTokens && (builder.Appending? ==> tok0 == [])
      requires delims.IsKept(input[start]) || (!outputDone && delims.IsDropped(input[start]))
      modifies this
      ensures start <= next <= |input|
      ensures old(Pending(input[start..])) == [tok] + Pending(input[next..])
      ensures next == start <==> !old(outputDone)
      ensures outputDone <==> !old(outputDone)
      ensures tok == if old(outputDone) then [input[start]] else []
    {
      tok, next := tok0, start;
      ghost var s := input[start..];
      KeepDelimiter(delims, s, outputDone);
      if outputDone == false {
        outputDone := true;
      } else {
        tok := builder.PlusEqual(tok, input[next]);
        next := next + 1;
        outputDone := false;
        assert [] + [s[0]] == s[..1];
      }
      assert s[next - start..] == input[next..] && s[..next - start] == input[start..next];
      tok := builder.Assign(input[start..next], tok);
    }

    /** The last branch: past a dropped delimiter, if there is one, one field. */
    method AtField(input: string, start0: nat, tok0: string) returns (next: nat, tok: string)
      requires start0 < |input| && policy == KeepEmptyTokens && (builder.Appending? ==> tok0 == [])
      requires !delims.IsKept(input[start0]) && (outputDone || !delims.IsDropped(input[start0]))
      modifies this
      ensures start0 < next <= |input|
      ensures old(Pending(input[start0..])) == [tok] + Pending(input[next..])
      ensures outputDone && !delims.IsKeptToken(tok) && (tok == [] ==> old(outputDone))
    {
      var start := start0;
      KeepFieldAt(delims, input, start, outputDone);
      if delims.IsDropped(input[start]) {
        start := start + 1;
      }
      next, tok := AssignedField(input, start, tok0);
      outputDone := true;
    }

    /** A whole field, by either way of building it. */
    method AssignedField(input: string, start: nat, tok0: string) returns (next: nat, tok: string)
      requires start <= |input| && (builder.Appending? ==> tok0 == [])
      ensures next == start + delims.FieldLength(input[start..])
      ensures tok == input[start..next] && !delims.IsKeptToken(tok)
    {
      FieldIsNoDelimiter(delims, input, start);
      next, tok := Field(input, start, tok0);
      tok := builder.Assign(input[start..next], tok);
    }
  }

  /** In drop mode a call past the dropped delimiters takes one kept delimiter or one field. */
  lemma DropFirst(delims: Delimiters, s: string, i: nat)
    requires s != [] && !delims.IsDropped(s[0])
    requires i == if delims.IsKept(s[0]) then 1 else delims.FieldLength(s)
    ensures 1 <= i <= |s| && delims.DropSplit(s) == [s[..i]] + delims.DropSplit(s[i..])
  {
    if delims.IsKept(s[0]) {
      assert s[..1] == [s[0]];
    }
  }

  /** At a delimiter: first the empty field before it, then, if it is kept, the delimiter. */
  lemma KeepDelimiter(delims: Delimiters, s: string, done: bool)
    requires s != [] && delims.IsDelimiter(s[0])
    ensures !done ==>
      delims.Pending(KeepEmptyTokens, s, done) == [s[..0]] + delims.Pending(KeepEmptyTokens, s[0..], true)
    ensures done && delims.IsKept(s[0]) ==>
      delims.Pending(KeepEmptyTokens, s, done) == [s[..1]] + delims.Pending(KeepEmptyTokens, s[1..], false)
  {
    assert s[0..] == s;
    assert s[..1] == [s[0]];
  }

  /** Otherwise: past a dropped delimiter, if there is one, one field. */
  lemma KeepField(delims: Delimiters, s: string, done: bool)
    requires s != [] && !delims.IsKept(s[0]) && (done || !delims.IsDropped(s[0]))
    ensures var j := if delims.IsDropped(s[0]) then 1 else 0;
            var k := j + delims.FieldLength(s[j..]);
            && k > 0
            && delims.Pending(KeepEmptyTokens, s, done)
            == [s[j..k]] + delims.Pending(KeepEmptyTokens, s[k..], true)
  {
    var j := if delims.IsDropped(s[0]) then 1 else 0;
    var rest := s[j..];
    var i := delims.FieldLength(rest);
    if j == 1 {
      assert delims.AfterField(s) == delims.KeepSplit(rest);
    } else {
      assert rest == s;
    }
    FieldThenRest(delims, rest);
    assert rest[..i] == s[j..j + i] && rest[i..] == s[j + i..];
  }

  lemma KeepFieldAt(delims: Delimiters, input: string, at: nat, done: bool)
    requires at < |input| && !delims.IsKept(input[at]) && (done || !delims.IsDropped(input[at]))
    ensures var j := if delims.IsDropped(input[at]) then at + 1 else at;
            var k := j + delims.FieldLength(input[j..]);
            && k > at
            && delims.Pending(KeepEmptyTokens, input[at..], done)
            == [input[j..k]] + delims.Pending(KeepEmptyTokens, input[k..], true)
  {
    var s := input[at..];
    var d := if delims.IsDropped(input[at]) then 1 else 0;
    assert s[d..] == input[at + d..];
    var i := d + delims.FieldLength(s[d..]);
    assert s[d..i] == input[at + d..at + i] && s[i..] == input[at + i..];
    KeepField(delims, s, done);
  }

  /** Reading a field leaves exactly what is pending after it. */
  lemma FieldThenRest(delims: Delimiters, s: string)
    ensures var i := delims.FieldLength(s);
            delims.KeepSplit(s) == [s[..i]] + delims.Pending(KeepEmptyTokens, s[i..], true)
  {
    var i := delims.FieldLength(s);
    if i == |s| {
      assert s[..i] == s;
    } else {
      assert s[i..][0] == s[i];
    }
  }

  lemma FieldIsNoDelimiter(delims: Delimiters, input: string, at: nat)
    requires at <= |input|
    ensures !delims.IsKeptToken(input[at..at + delims.FieldLength(input[at..])])
  {
    var s := input[at..];
    var i := delims.FieldLength(s);
    assert input[at..at + i] == s[..i];
  }

  // ----- token_iterator

  class TokenIterator {
    const f: CharSeparator
    const input: string
    /** Where the input ends in memory; ranges with the same end overlap. */
    const end: int
    var begin: nat
    var valid: bool
    var tok: string

    /** In keep mode m_output_done is false exactly after a kept delimiter. */
    ghost predicate Valid()
      reads this, f
    {
      && begin <= |input| && (valid ==> input != [])
      && (f.policy == KeepEmptyTokens && input != [] ==> (f.outputDone <==> !valid || !f.delims.IsKeptToken(tok)))
    }

    /** The tokens from the current one on. */
    ghost function Remaining(): (tokens: seq<string>)
      reads this, f
    {
      if valid && begin <= |input| then [tok] + f.Pending(input[begin..]) else []
    }

    /** begin_ as an address. */
    function Address(): (p: int)
      reads this
    {
      end - |input| + begin
    }

    /** The iterator works on a copy of the separator it is given. */
    constructor (f0: CharSeparator, input: string, end: int)
      ensures Valid() && fresh(f) && this.input == input && this.end == end
      ensures f.delims == f0.delims && f.policy == f0.policy
      ensures Remaining() == if input == [] then [] else f0.Pending(input)
      ensures input == [] ==> f.outputDone == f0.outputDone
    {
      f := new CharSeparator.CopyOf(f0);
      this.input, this.end, begin, valid, tok := input, end, 0, false, [];
      new;
      f.Reset();
      assert input[0..] == input;
      if begin != |input| {
        var ok, next, t := f.Call(input, begin, tok);
        valid, begin, tok := ok, next, t;
      }
    }

    /** The copy constructor; the copied iterator has a separator of its own. */
    constructor CopyOf(that: TokenIterator)
      ensures fresh(f) && input == that.input && end == that.end
      ensures begin == that.begin && valid == that.valid && tok == that.tok
      ensures that.Valid() ==> Valid()
      ensures Remaining() == that.Remaining()
    {
      f := new CharSeparator.CopyOf(that.f);
      input, end, begin, valid, tok := that.input, that.end, that.begin, that.valid, that.tok;
    }

    method Increment()
      requires Valid() && valid
      modifies this, f
      ensures Valid() && old(begin) <= begin
      ensures Remaining() == old(Remaining())[1..]
      ensures valid ==>
        (begin == old(begin) <==> f.policy == KeepEmptyTokens && !old(f.outputDone) && tok == [])
    {
      var ok, next, t := f.Call(input, begin, tok);
      valid, begin, tok := ok, next, t;
    }

    /** tokenizer_function() hands out a copy of the separator in its present state. */
    method TokenizerFunction() returns (g: CharSeparator)
      ensures fresh(g) && g.delims == f.delims && g.policy == f.policy && g.outputDone == f.outputDone
    {
      g := new CharSeparator.CopyOf(f);
    }

    /** equal() compares the addresses begin_ and end_ of two valid iterators. */
    method Equal(that: TokenIterator) returns (same: bool)
      ensures same <==> valid == that.valid && (valid ==> Address() == that.Address() && end == that.end)
      ensures same && valid && |input| == |that.input| ==> begin == that.begin
    {
      same := if that.valid && valid then that.Address() == Address() && that.end == end
              else that.valid == valid;
    }
  }

  /** for (; it != end; ++it): collects the tokens from the current one on. */
  method Drain(it: TokenIterator) returns (tokens: seq<string>)
    requires it.Valid()
    modifies it, it.f
    ensures it.Valid() && !it.valid
    ensures tokens == old(it.Remaining())
    ensures old(!it.valid) ==> it.f.outputDone == old(it.f.outputDone)
  {
    tokens := [];
    while it.valid
      invariant it.Valid()
      invariant tokens + it.Remaining() == old(it.Remaining())
      invariant old(!it.valid) ==> !it.valid && it.f.outputDone == old(it.f.outputDone)
      decreases it.valid, |it.input| - it.begin, if it.f.outputDone then 0 else 1
    {
      tokens := TakeToken(it, tokens);
    }
  }

  /** One iteration: a token moves from the input to the list, and the input gets shorter or the flag is set. */
  method TakeToken(it: TokenIterator, tokens0: seq<string>) returns (tokens: seq<string>)
    requires it.Valid() && it.valid
    modifies it, it.f
    ensures it.Valid() && tokens + it.Remaining() == tokens0 + old(it.Remaining())
    ensures it.begin >= old(it.begin)
    ensures it.valid && it.begin == old(it.begin) ==> !old(it.f.outputDone) && it.f.outputDone
  {
    tokens := tokens0 + [it.tok];
    it.Increment();
    assert old(it.Remaining()) == [old(it.tok)] + it.Remaining();
  }

  method Tokenize(delims: Delimiters, policy: EmptyTokenPolicy, builder: Builder, input: string)
    returns (tokens: seq<string>)
    ensures tokens == delims.Split(policy, input)
  {
    var f := new CharSeparator(delims, policy, builder);
    var it := new TokenIterator(f, input, |input|);
    tokens := Drain(it);
  }

  // ----- using one separator for two inputs

  /** Every tokenizer and iterator copies the separator, so that one object serves any number of them. */
  method ShareSeparator(delims: Delimiters, policy: EmptyTokenPolicy, builder: Builder, first: string, second: string)
    returns (tokens1: seq<string>, tokens2: seq<string>)
    ensures tokens1 == delims.Split(policy, first) && tokens2 == delims.Split(policy, second)
  {
    var f := new CharSeparator(delims, policy, builder);
    var it1 := new TokenIterator(f, first, |first|);
    tokens1 := Drain(it1);
    var it2 := new TokenIterator(f, second, |first| + |second|);
    tokens2 := Drain(it2);
  }

  /** A separator that has just ended a field loses the empty field before a leading delimiter. */
  lemma PendingAfterField(delims: Delimiters, s: string)
    requires s != []
    ensures delims.IsDelimiter(s[0]) ==>
      delims.KeepSplit(s) == [[]] + delims.Pending(KeepEmptyTokens, s, true)
    ensures !delims.IsDelimiter(s[0]) ==>
      delims.KeepSplit(s) == delims.Pending(KeepEmptyTokens, s, true)
  {
    assert s[0..] == s && s[..0] == [];
  }

  /**
   The separator an iterator has run to the end of `first`, taken back with tokenizer_function()
   and used on `second`. reset() does not clear m_output_done, so that in keep mode the second
   input is split as if a field had just ended.
   */
  method ReuseSeparator(delims: Delimiters, policy: EmptyTokenPolicy, builder: Builder, first: string, second: string)
    returns (tokens: seq<string>)
    ensures tokens == delims.Split(policy, second)
       <==> policy == DropEmptyTokens || first == [] || second == [] || !delims.IsDelimiter(second[0])
    ensures tokens == delims.Split(policy, second) || [[]] + tokens == delims.Split(policy, second)
  {
    var f := new CharSeparator(delims, policy, builder);
    var it1 := new TokenIterator(f, first, |first|);
    var tokens1 := Drain(it1);
    var g := it1.TokenizerFunction();
    var it2 := new TokenIterator(g, second, |first| + |second|);
    tokens := Drain(it2);
    if second != [] {
      PendingAfterField(delims, second);
    }
    assert |[[]] + tokens| != |tokens|;
  }

  /** After "a" the same separator finds one token in ",b", where a fresh one finds two. */
  method LostField(builder: Builder) returns (direct: seq<string>, reused: seq<string>)
    ensures direct == ["", "b"] && reused == ["b"]
  {
    var comma := Delimiters([], [','], false, false, {}, {});
    direct := Tokenize(comma, KeepEmptyTokens, builder, ",b");
    reused := ReuseSeparator(comma, KeepEmptyTokens, builder, "a", ",b");
    assert ",b"[1..] == "b" && ",b"[0..] == ",b" && "b"[1..] == [];
    assert comma.KeepSplit("b") == ["b"];
    assert comma.AfterField(",b") == ["b"];
    assert comma.KeepSplit(",b") == [[]] + ["b"];
    assert ([[]] + reused)[1..] == reused;
    assert ([[]] + ["b"])[1..] == ["b"];
  }

  // ----- comparing iterators

  /** ++it, from token i of `tokens` to the next. */
  method Advance(it: TokenIterator, ghost tokens: seq<string>, ghost i: nat)
    requires it.Valid() && it.valid && i + 1 < |tokens| && it.Remaining() == tokens[i..]
    modifies it, it.f
    ensures it.Valid() && it.valid && it.Remaining() == tokens[i + 1..] && it.tok == tokens[i + 1]
    ensures old(it.begin) <= it.begin
    ensures it.begin == old(it.begin)
       <==> it.f.policy == KeepEmptyTokens && it.f.delims.IsKeptToken(tokens[i]) && tokens[i + 1] == []
  {
    assert it.tok == tokens[i..][0];
    it.Increment();
    assert tokens[i..][1..] == tokens[i + 1..];
    assert it.tok == tokens[i + 1..][0];
  }

  /** Both tokens end at the same position. */
  predicate SharePosition(delims: Delimiters, policy: EmptyTokenPolicy, tokens: seq<string>, a: nat, b: nat)
    requires a < b < |tokens|
  {
    policy == KeepEmptyTokens && b == a + 1 && delims.IsKeptToken(tokens[a]) && tokens[b] == []
  }

  method Walk(it: TokenIterator, ghost tokens: seq<string>, a: nat, b: nat)
    requires it.Valid() && it.valid && a < b < |tokens| && it.Remaining() == tokens[a..]
    modifies it, it.f
    ensures it.Valid() && it.valid && it.Remaining() == tokens[b..]
    ensures it.begin == old(it.begin) <==> SharePosition(it.f.delims, it.f.policy, tokens, a, b)
  {
    Advance(it, tokens, a);
    for i := a + 1 to b
      invariant it.Valid() && it.valid && it.Remaining() == tokens[i..]
      invariant old(it.begin) <= it.begin
      invariant it.begin == old(it.begin) <==> SharePosition(it.f.delims, it.f.policy, tokens, a, i)
    {
      Advance(it, tokens, i);
    }
  }

  /**
   Two copies of one iterator, at tokens a and b. equal() looks at the end of the token only, so
   that it takes a kept delimiter and the empty field right behind it for the same position, and
   no other two tokens.
   */
  method ComparePositions(delims: Delimiters, policy: EmptyTokenPolicy, builder: Builder, input: string, a: nat, b: nat)
    returns (same: bool)
    requires a < b < |delims.Split(policy, input)|
    ensures same <==> SharePosition(delims, policy, delims.Split(policy, input), a, b)
  {
    var f := new CharSeparator(delims, policy, builder);
    var it := new TokenIterator(f, input, |input|);
    ghost var tokens := it.Remaining();
    assert tokens[0..] == tokens;
    if a > 0 {
      Walk(it, tokens, 0, a);
    }
    var at := new TokenIterator.CopyOf(it);
    Walk(it, tokens, a, b);
    same := at.Equal(it);
  }
}
