/**
 boost/token_functions.hpp: escaped_list_separator, driven by token_iterator, with fields
 written by a matching encoder. Throwing escaped_list_error is an outcome.
 */
module EscapedList {
  import opened Wrappers

  datatype EscapeError = CannotEndWithEscape | UnknownEscapeSequence

  datatype Outcome = Token(tok: string) | AtEnd | Error(error: EscapeError)

  /** The three sets of special characters. */
  datatype Specials = Specials(escape: string, c: string, quote: string) {
    predicate IsEscape(x: char) { x in escape }
    predicate IsC(x: char) { x in c }
    predicate IsQuote(x: char) { x in quote }

    predicate IsSpecial(x: char) {
      IsEscape(x) || IsC(x) || IsQuote(x)
    }

    /** do_escape: the character an escape sequence stands for. */
    function Unescape(s: string): (r: Escaped)
      requires s != []
    {
      if |s| == 1 then Bad(CannotEndWithEscape)
      else if s[1] == 'n' then Stands('\n')
      else if IsSpecial(s[1]) then Stands(s[1])
      else Bad(UnknownEscapeSequence)
    }

    /** The field at the start of s: its text, how much of s it takes, and whether a separator ended it. */
    function ScanField(s: string, inQuote: bool): (r: Field)
      ensures r.taken <= |s| && (s != [] ==> r.taken > 0)
      decreases |s|
    {
      if s == [] then Scanned([], 0, false)
      else if IsEscape(s[0]) then
        match Unescape(s)
        case Bad(e) => Malformed(e, 1)
        case Stands(x) => ScanField(s[2..], inQuote).After([x], 2)
      else if IsC(s[0]) && !inQuote then Scanned([], 1, true)
      else if !IsC(s[0]) && IsQuote(s[0]) then ScanField(s[1..], !inQuote).After([], 1)
      else ScanField(s[1..], inQuote).After([s[0]], 1)
    }

    /** All fields of the input from a call with last_ == last; an error ends the list. */
    function Fields(s: string, last: bool): (r: Listing)
      decreases |s|, last
    {
      if s == [] then Listing(if last then [[]] else [], None)
      else match ScanField(s, false)
        case Malformed(e, _) => Listing([], Some(e))
        case Scanned(tok, taken, last') => Fields(s[taken..], last').Cons(tok)
    }
  }

  datatype Escaped = Stands(x: char) | Bad(error: EscapeError)

  /** A field and how many characters it takes, or an error and how many were read when it was thrown. */
  datatype Field = Scanned(tok: string, taken: nat, ended: bool) | Malformed(error: EscapeError, taken: nat) {
    /** The same field with `prefix` in front, read from k further characters. */
    function After(prefix: string, k: nat): (f: Field) {
      match this
      case Malformed(e, taken) => Malformed(e, taken + k)
      case Scanned(tok, taken, ended) => Scanned(prefix + tok, taken + k, ended)
    }
  }

  datatype Listing = Listing(fields: seq<string>, error: Option<EscapeError>) {
    function Cons(tok: string): (l: Listing) {
      Listing([tok] + fields, error)
    }

    function Prepend(toks: seq<string>): (l: Listing) {
      Listing(toks + fields, error)
    }
  }

  class EscapedListSeparator {
    const sp: Specials
    var last: bool

    constructor (sp: Specials)
      ensures this.sp == sp && !last
    {
      this.sp, last := sp, false;
    }

    method Reset()
      modifies this
      ensures !last
    {
      last := false;
    }

    /** operator(): one field per call. */
    method Call(input: string, start: nat) returns (r: Outcome, next: nat)
      requires start <= |input|
      modifies this
      ensures start <= next <= |input|
      ensures CallResult(sp, input, start, old(last), r, next, last)
    {
      next := start;
      if next == |input| {
        if last {
          last := false;
          return Token([]), next;
        } else {
          return AtEnd, next;
        }
      }
      last := false;
      r, next, last := ReadField(input, start);
    }

    /** The loop of operator(); the last result becomes last_. */
    method ReadField(input: string, start: nat) returns (r: Outcome, next: nat, ended: bool)
      requires start < |input|
      ensures start <= next <= |input|
      ensures match sp.ScanField(input[start..], false)
              case Malformed(e, taken) => r == Error(e) && next == start + taken && !ended
              case Scanned(tok, taken, e) => r == Token(tok) && next == start + taken && ended == e
    {
      next := start;
      var inQuote, tok := false, [];
      AfterNothing(sp.ScanField(input[start..], false));
      while next < |input|
        invariant start <= next <= |input|
        invariant sp.ScanField(input[start..], false) == Whole(sp, input, start, next, inQuote, tok)
      {
        var step := ReadChar(input, start, next, inQuote, tok);
        match step
        case Fail(e, at) => return Error(e), at, false;
        case Separator => return Token(tok), next + 1, true;
        case Continue(next', inQuote', tok') => next, inQuote, tok := next', inQuote', tok';
      }
      assert tok + [] == tok;
      return Token(tok), next, false;
    }

    /** The loop body: one character, or one escape sequence. */
    method ReadChar(input: string, ghost start: nat, next: nat, inQuote: bool, tok: string) returns (step: CharStep)
      requires start <= next < |input|
      ensures var whole := Whole(sp, input, start, next, inQuote, tok);
              match step
              case Fail(e, at) => at <= |input| && start <= at && whole == Malformed(e, at - start)
              case Separator => whole == Scanned(tok, next + 1 - start, true)
              case Continue(next', inQuote', tok') =>
                next < next' <= |input| && whole == Whole(sp, input, start, next', inQuote', tok')
    {
      var c := input[next];
      if sp.IsEscape(c) {
        ScanEscape(sp, input, start, next, inQuote, tok);
        var x, at := DoEscape(input, next);
        return match x
          case Bad(e) => Fail(e, at)
          case Stands(y) => Continue(at + 1, inQuote, tok + [y]);
      } else if sp.IsC(c) {
        if !inQuote {
          assert tok + [] == tok;
          return Separator;
        }
        ScanText(sp, input, start, next, inQuote, tok);
        return Continue(next + 1, inQuote, tok + [c]);
      } else if sp.IsQuote(c) {
        ScanToggle(sp, input, start, next, inQuote, tok);
        return Continue(next + 1, !inQuote, tok);
      } else {
        ScanText(sp, input, start, next, inQuote, tok);
        return Continue(next + 1, inQuote, tok + [c]);
      }
    }

    /** do_escape, with `next` on the escape character. */
    method DoEscape(input: string, at: nat) returns (x: Escaped, next: nat)
      requires at < |input|
      ensures x == sp.Unescape(input[at..])
      ensures next == at + 1 && (x.Stands? ==> next < |input|)
    {
      next := at + 1;
      if next == |input| {
        return Bad(CannotEndWithEscape), next;
      }
      if input[next] == 'n' {
        return Stands('\n'), next;
      } else if sp.IsQuote(input[next]) {
        return Stands(input[next]), next;
      } else if sp.IsC(input[next]) {
        return Stands(input[next]), next;
      } else if sp.IsEscape(input[next]) {
        return Stands(input[next]), next;
      } else {
        return Bad(UnknownEscapeSequence), next;
      }
    }
  }

  /** How one iteration of the loop ends. */
  datatype CharStep = Fail(error: EscapeError, at: nat) | Separator | Continue(next: nat, inQuote: bool, tok: string)

  /** The field that starts at `start`, when the characters before `next` have become tok. */
  ghost function Whole(sp: Specials, input: string, start: nat, next: nat, inQuote: bool, tok: string): (f: Field)
    requires start <= next <= |input|
  {
    sp.ScanField(input[next..], inQuote).After(tok, next - start)
  }

  // One iteration of the loop, seen from the whole field, for each kind of character.

  lemma ScanEscape(sp: Specials, input: string, start: nat, next: nat, inQuote: bool, tok: string)
    requires start <= next < |input| && sp.IsEscape(input[next])
    ensures match sp.Unescape(input[next..])
            case Bad(e) => Whole(sp, input, start, next, inQuote, tok) == Malformed(e, next + 1 - start)
            case Stands(x) =>
              && next + 2 <= |input|
              && Whole(sp, input, start, next, inQuote, tok) == Whole(sp, input, start, next + 2, inQuote, tok + [x])
  {
    var s := input[next..];
    var y := sp.Unescape(s);
    if y.Stands? {
      assert s[2..] == input[next + 2..];
      AfterAfter(sp.ScanField(s[2..], inQuote), [y.x], 2, tok, next - start);
    }
  }

  lemma ScanText(sp: Specials, input: string, start: nat, next: nat, inQuote: bool, tok: string)
    requires start <= next < |input| && !sp.IsEscape(input[next])
    requires if sp.IsC(input[next]) then inQuote else !sp.IsQuote(input[next])
    ensures Whole(sp, input, start, next, inQuote, tok)
         == Whole(sp, input, start, next + 1, inQuote, tok + [input[next]])
  {
    var s := input[next..];
    assert s[1..] == input[next + 1..];
    AfterAfter(sp.ScanField(s[1..], inQuote), [s[0]], 1, tok, next - start);
  }

  lemma ScanToggle(sp: Specials, input: string, start: nat, next: nat, inQuote: bool, tok: string)
    requires start <= next < |input|
    requires !sp.IsEscape(input[next]) && !sp.IsC(input[next]) && sp.IsQuote(input[next])
    ensures Whole(sp, input, start, next, inQuote, tok) == Whole(sp, input, start, next + 1, !inQuote, tok)
  {
    var s := input[next..];
    assert s[1..] == input[next + 1..];
    assert tok + [] == tok;
    AfterAfter(sp.ScanField(s[1..], !inQuote), [], 1, tok, next - start);
  }

  lemma AfterAfter(f: Field, p: string, j: nat, q: string, k: nat)
    ensures f.After(p, j).After(q, k) == f.After(q + p, j + k)
  {
    if f.Scanned? {
      assert q + (p + f.tok) == (q + p) + f.tok;
    }
  }

  /**
   Iterating a tokenizer over the input: initialize(), then increment() until it is no longer
   valid. begins lists where begin_ stands at each field, which is all that equal() compares of
   two valid iterators.
   */
  method Tokenize(sp: Specials, input: string) returns (r: Listing, begins: seq<nat>)
    ensures r == sp.Fields(input, false)
    ensures |begins| == |r.fields|
    ensures forall a, b :: 0 <= a < b < |begins| ==>
      (begins[a] == begins[b] <==> b == a + 1 && begins[a] == |input|)
    ensures forall a :: 0 <= a < |begins| - 1 && begins[a] == |input| ==>
      a == |begins| - 2 && r.fields[a + 1] == []
  {
    var f := new EscapedListSeparator(sp);
    f.Reset();
    var begin: nat, fields: seq<string> := 0, [];
    begins := [];
    if begin == |input| {
      return Listing([], None), [];
    }
    assert input[0..] == input;
    while true
      invariant begin <= |input| && f.sp == sp
      invariant sp.Fields(input, false) == sp.Fields(input[begin..], f.last).Prepend(fields)
      invariant Positions(input, fields, begins, begin, f.last)
      decreases |input| - begin, f.last
    {
      ghost var last := f.last;
      var outcome, next := f.Call(input, begin);
      FieldsStep(sp, input, begin, last, fields, outcome, next, f.last);
      match outcome
      case AtEnd => return Listing(fields, None), begins;
      case Error(e) => return Listing(fields, Some(e)), begins;
      case Token(tok) =>
        PositionsStep(input, fields, begins, begin, last, tok, next, f.last);
        fields, begins, begin := fields + [tok], begins + [next], next;
    }
  }

  /** The positions grow, except that a last separator and the empty field after it share the end of the input. */
  ghost predicate Positions(input: string, fields: seq<string>, begins: seq<nat>, begin: nat, last: bool) {
    && |begins| == |fields|
    && (begins != [] ==> begins[|begins| - 1] == begin)
    && (begins == [] ==> begin < |input|)
    && (forall a, b :: 0 <= a < b < |begins| ==>
        begins[a] < begins[b] || (b == a + 1 == |begins| - 1 && begins[a] == begins[b]))
    && (forall a :: 0 <= a < |begins| - 1 ==>
        begins[a] < begin || (begins[a] == |input| && !last && a == |begins| - 2 && fields[a + 1] == []))
    && begin <= |input|
  }

  /** In "a," the field "a" and the empty field after it have the same position. */
  method SharedPosition() returns (first: Outcome, begin1: nat, second: Outcome, begin2: nat)
    ensures first == Token("a") && second == Token([]) && begin1 == begin2
  {
    var sp := Specials(['\\'], [','], ['"']);
    var f := new EscapedListSeparator(sp);
    var input := "a,";
    assert input[0..] == input && input[1..] == ",";
    assert sp.ScanField(",", false) == Scanned([], 1, true);
    assert sp.ScanField(input, false) == Scanned("a", 2, true);
    first, begin1 := f.Call(input, 0);
    second, begin2 := f.Call(input, begin1);
  }

  /** What a call from `start` with last_ == last returns and leaves behind. */
  ghost predicate CallResult(sp: Specials, input: string, start: nat, last: bool, r: Outcome, next: nat, last': bool)
    requires start <= |input|
  {
    if start == |input| then next == start && !last' && r == if last then Token([]) else AtEnd
    else match sp.ScanField(input[start..], false)
      case Malformed(e, taken) => r == Error(e) && next == start + taken && !last'
      case Scanned(tok, taken, ended) => r == Token(tok) && next == start + taken && last' == ended
  }

  /** A call takes some of the input, or delivers the empty field after a last separator. */
  ghost predicate Proceeds(input: string, begin: nat, last: bool, tok: string, next: nat, last': bool) {
    begin < next <= |input| || (next == begin == |input| && last && !last' && tok == [])
  }

  lemma PositionsStep(input: string, fields: seq<string>, begins: seq<nat>, begin: nat, last: bool,
                      tok: string, next: nat, last': bool)
    requires Positions(input, fields, begins, begin, last) && Proceeds(input, begin, last, tok, next, last')
    ensures Positions(input, fields + [tok], begins + [next], next, last')
  {
  }

  /** What one call contributes to the list, and that the calls come to an end. */
  lemma FieldsStep(sp: Specials, input: string, begin: nat, last: bool, fields: seq<string>,
                   r: Outcome, next: nat, last': bool)
    requires begin <= next <= |input| && CallResult(sp, input, begin, last, r, next, last')
    ensures var all := sp.Fields(input[begin..], last).Prepend(fields);
            match r
            case AtEnd => all == Listing(fields, None)
            case Error(e) => all == Listing(fields, Some(e))
            case Token(tok) => all == sp.Fields(input[next..], last').Prepend(fields + [tok])
    ensures r.Token? ==> Proceeds(input, begin, last, r.tok, next, last')
  {
    var s := input[begin..];
    assert fields + [] == fields;
    if s == [] {
      assert input[next..] == [];
      assert fields + [[]] == fields + [[]] + [];
    } else if r.Token? {
      assert s[next - begin..] == input[next..];
      var rest := sp.Fields(input[next..], last').fields;
      assert fields + ([r.tok] + rest) == fields + [r.tok] + rest;
    }
  }

  // ----- writing a list

  /** How one field is written: quoted or not, and with newlines as they are or as escape sequences. */
  datatype Style = Style(quoted: bool, escapeNewline: bool)

  /** The characters the writer uses. */
  datatype Writer = Writer(sp: Specials, e: char, c: char, q: char) {
    /** Each plays only its own role for the reader, and no special character is 'n'. */
    predicate Valid() {
      && sp.IsEscape(e)
      && sp.IsC(c) && !sp.IsEscape(c)
      && sp.IsQuote(q) && !sp.IsEscape(q) && !sp.IsC(q)
      && !sp.IsSpecial('n')
    }

    function WriteChar(x: char, st: Style): (s: string)
      ensures s != []
    {
      if sp.IsEscape(x) || sp.IsQuote(x) || (sp.IsC(x) && !st.quoted) then [e, x]
      else if x == '\n' && st.escapeNewline then [e, 'n']
      else [x]
    }

    function WriteChars(field: string, st: Style): (s: string) {
      if field == [] then [] else WriteChar(field[0], st) + WriteChars(field[1..], st)
    }

    function WriteField(field: string, st: Style): (s: string) {
      if st.quoted then [q] + WriteChars(field, st) + [q] else WriteChars(field, st)
    }

    function WriteList(fields: seq<string>, styles: seq<Style>): (s: string)
      requires |fields| == |styles|
    {
      if fields == [] then []
      else if |fields| == 1 then WriteField(fields[0], styles[0])
      else WriteField(fields[0], styles[0]) + [c] + WriteList(fields[1..], styles[1..])
    }

    lemma ScanChar(x: char, st: Style, rest: string)
      requires Valid()
      ensures var w := WriteChar(x, st);
              sp.ScanField(w + rest, st.quoted) == sp.ScanField(rest, st.quoted).After([x], |w|)
    {
      var w := WriteChar(x, st);
      assert (w + rest)[|w|..] == rest;
      assert (w + rest)[0] == w[0];
      if |w| == 2 {
        assert (w + rest)[1] == w[1];
      }
    }

    lemma {:induction false} ScanChars(field: string, st: Style, rest: string)
      requires Valid()
      ensures var w := WriteChars(field, st);
              sp.ScanField(w + rest, st.quoted) == sp.ScanField(rest, st.quoted).After(field, |w|)
      decreases |field|
    {
      var w := WriteChars(field, st);
      if field == [] {
        assert w + rest == rest;
        AfterNothing(sp.ScanField(rest, st.quoted));
      } else {
        var w0, w1 := WriteChar(field[0], st), WriteChars(field[1..], st);
        assert w + rest == w0 + (w1 + rest);
        ScanChar(field[0], st, w1 + rest);
        ScanChars(field[1..], st, rest);
        AfterAfter(sp.ScanField(rest, st.quoted), field[1..], |w1|, [field[0]], |w0|);
        assert [field[0]] + field[1..] == field;
      }
    }

    lemma ScanQuote(rest: string, inQuote: bool)
      requires Valid()
      ensures sp.ScanField([q] + rest, inQuote) == sp.ScanField(rest, !inQuote).After([], 1)
    {
      assert ([q] + rest)[1..] == rest;
    }

    /** A written field is read back, up to whatever follows it. */
    lemma ScanWritten(field: string, st: Style, rest: string)
      requires Valid()
      ensures var w := WriteField(field, st);
              sp.ScanField(w + rest, false) == sp.ScanField(rest, false).After(field, |w|)
    {
      if st.quoted {
        var w := WriteChars(field, st);
        var end := sp.ScanField(rest, false);
        assert WriteField(field, st) + rest == [q] + (w + ([q] + rest));
        ScanQuote(w + ([q] + rest), false);
        ScanChars(field, st, [q] + rest);
        ScanQuote(rest, true);
        AfterAfter(end, [], 1, field, |w|);
        AfterAfter(end, field + [], 1 + |w|, [], 1);
        assert [] + (field + []) == field;
      } else {
        ScanChars(field, st, rest);
      }
    }

    lemma ScanSeparated(field: string, st: Style, rest: string)
      requires Valid()
      ensures var w := WriteField(field, st);
              sp.ScanField(w + [c] + rest, false) == Scanned(field, |w| + 1, true)
    {
      var w := WriteField(field, st);
      assert w + [c] + rest == w + ([c] + rest);
      ScanWritten(field, st, [c] + rest);
      assert field + [] == field;
    }

    lemma ScanLast(field: string, st: Style)
      requires Valid()
      ensures var w := WriteField(field, st);
              sp.ScanField(w, false) == Scanned(field, |w|, false)
    {
      var w := WriteField(field, st);
      assert w + [] == w;
      ScanWritten(field, st, []);
      assert field + [] == field;
    }

    /** After a separator even an empty rest is one more (empty) field. */
    lemma {:induction false} FieldsOfWritten(fields: seq<string>, styles: seq<Style>, last: bool)
      requires Valid() && |fields| == |styles| >= 1
      requires last || WriteList(fields, styles) != []
      ensures sp.Fields(WriteList(fields, styles), last) == Listing(fields, None)
      decreases |fields|
    {
      if |fields| == 1 {
        assert fields == [fields[0]];
        FieldOfWritten(fields[0], styles[0], last);
      } else {
        var rest := WriteList(fields[1..], styles[1..]);
        FieldsOfWritten(fields[1..], styles[1..], true);
        FieldThenRest(fields[0], styles[0], rest, last);
        assert [fields[0]] + fields[1..] == fields;
      }
    }

    lemma FieldOfWritten(field: string, st: Style, last: bool)
      requires Valid() && (last || WriteField(field, st) != [])
      ensures sp.Fields(WriteField(field, st), last) == Listing([field], None)
    {
      var w := WriteField(field, st);
      ScanLast(field, st);
      EmptyWritten(field, st);
      assert w[|w|..] == [];
      assert [field] + [] == [field];
    }

    lemma FieldThenRest(field: string, st: Style, rest: string, last: bool)
      requires Valid()
      ensures sp.Fields(WriteField(field, st) + [c] + rest, last) == sp.Fields(rest, true).Cons(field)
    {
      var w := WriteField(field, st);
      ScanSeparated(field, st, rest);
      assert (w + [c] + rest)[|w| + 1..] == rest;
    }

    lemma EmptyWritten(field: string, st: Style)
      ensures WriteField(field, st) == [] <==> field == [] && !st.quoted
    {
    }

    /**
     Reading a written list returns the list, unless the list is one empty field written
     without quotes: that writes nothing, and nothing reads as no field at all.
     */
    lemma RoundTrip(fields: seq<string>, styles: seq<Style>)
      requires Valid() && |fields| == |styles|
      ensures sp.Fields(WriteList(fields, styles), false) == Listing(fields, None)
         <==> !(fields == [[]] && !styles[0].quoted)
    {
      if fields == [] {
      } else if WriteList(fields, styles) == [] {
        EmptyWritten(fields[0], styles[0]);
        assert |fields| == 1;
        assert fields == [fields[0]];
      } else {
        FieldsOfWritten(fields, styles, false);
        if fields == [[]] {
          EmptyWritten(fields[0], styles[0]);
        }
      }
    }
  }

  lemma AfterNothing(f: Field)
    ensures f.After([], 0) == f
  {
    if f.Scanned? {
      assert [] + f.tok == f.tok;
    }
  }
}
