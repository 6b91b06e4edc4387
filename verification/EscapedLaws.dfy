/**
 What escaped_list_separator reads, for every input and every error, in terms of the three strings
 of special characters themselves.
 */
module EscapedLaws {
  import opened Wrappers
  import opened EscapedList

  /** A text is made of single characters and of escape sequences. */
  datatype Piece = Single(c: char) | Escape(e: char, x: char) {
    function Text(): (s: string)
      ensures s != []
    {
      if Single? then [c] else [e, x]
    }
  }

  predicate ValidPiece(sp: Specials, p: Piece) {
    match p
    case Single(c) => c !in sp.escape
    case Escape(e, x) => e in sp.escape && (x == 'n' || x in sp.escape || x in sp.c || x in sp.quote)
  }

  predicate ValidPieces(sp: Specials, ps: seq<Piece>) {
    forall i :: 0 <= i < |ps| ==> ValidPiece(sp, ps[i])
  }

  function Text(ps: seq<Piece>): (s: string) {
    if ps == [] then [] else ps[0].Text() + Text(ps[1..])
  }

  predicate IsQuotePiece(sp: Specials, p: Piece) {
    p.Single? && p.c !in sp.c && p.c in sp.quote
  }

  /** What a piece that does not end a field adds to it. */
  function Meaning(sp: Specials, p: Piece): (s: string) {
    match p
    case Single(c) => if IsQuotePiece(sp, p) then [] else [c]
    case Escape(e, x) => if x == 'n' then ['\n'] else [x]
  }

  /** The fields of a text: separators outside quotes end them. */
  function FieldsOf(sp: Specials, ps: seq<Piece>, inQuote: bool): (fields: seq<string>)
    ensures fields != []
  {
    if ps == [] then [[]]
    else if ps[0].Single? && ps[0].c in sp.c && !inQuote then [[]] + FieldsOf(sp, ps[1..], false)
    else
      var rest := FieldsOf(sp, ps[1..], inQuote != IsQuotePiece(sp, ps[0]));
      [Meaning(sp, ps[0]) + rest[0]] + rest[1..]
  }

  /** Nothing, an escape character at the end of the text, or one before a character it does not go with. */
  predicate ValidTail(sp: Specials, tail: string) {
    tail != [] ==>
      && tail[0] in sp.escape
      && (|tail| >= 2 ==> tail[1] != 'n' && tail[1] !in sp.escape && tail[1] !in sp.c && tail[1] !in sp.quote)
  }

  function TailError(tail: string): (e: Option<EscapeError>) {
    if tail == [] then None
    else if |tail| == 1 then Some(CannotEndWithEscape)
    else Some(UnknownEscapeSequence)
  }

  /** An error loses the field it stands in. */
  function ListingOf(fields: seq<string>, tail: string): (l: Listing)
    requires fields != []
  {
    Listing(if tail == [] then fields else fields[..|fields| - 1], TailError(tail))
  }

  /** Every text is a sequence of pieces up to its end or to the first place with an error. */
  lemma {:induction false} PiecesExist(sp: Specials, s: string) returns (ps: seq<Piece>, tail: string)
    ensures s == Text(ps) + tail && ValidPieces(sp, ps) && ValidTail(sp, tail)
    decreases |s|
  {
    ps, tail := [], s;
    if s != [] {
      if s[0] !in sp.escape {
        ps, tail := PiecesExist(sp, s[1..]);
        ConsPiece(Single(s[0]), ps, tail, s);
        ps := [Single(s[0])] + ps;
      } else if |s| >= 2 && ValidPiece(sp, Escape(s[0], s[1])) {
        ps, tail := PiecesExist(sp, s[2..]);
        ConsPiece(Escape(s[0], s[1]), ps, tail, s);
        ps := [Escape(s[0], s[1])] + ps;
      }
    }
  }

  lemma {:induction false} ConsPiece(p: Piece, ps: seq<Piece>, tail: string, s: string)
    requires |p.Text()| <= |s| && s[..|p.Text()|] == p.Text() && s[|p.Text()|..] == Text(ps) + tail
    ensures s == Text([p] + ps) + tail
  {
    assert ([p] + ps)[1..] == ps;
    assert s == p.Text() + (Text(ps) + tail);
  }

  /** Reading stopped with this error right behind an escape character that cannot be one. */
  ghost predicate StopsAt(sp: Specials, s: string, taken: nat, error: EscapeError) {
    && 1 <= taken <= |s| && s[taken - 1] in sp.escape
    && ValidTail(sp, s[taken - 1..]) && Some(error) == TailError(s[taken - 1..])
  }

  lemma StopsFurther(sp: Specials, s: string, k: nat, taken: nat, error: EscapeError)
    requires k <= |s| && StopsAt(sp, s[k..], taken, error)
    ensures StopsAt(sp, s, taken + k, error)
  {
    assert s[k..][taken - 1..] == s[taken + k - 1..];
  }

  // ----- the reader, from the middle of a field

  ghost function Rest(sp: Specials, s: string, inQuote: bool): (l: Listing) {
    match sp.ScanField(s, inQuote)
    case Malformed(e, _) => Listing([], Some(e))
    case Scanned(tok, taken, ended) => sp.Fields(s[taken..], ended).Cons(tok)
  }

  function PrefixFirst(text: string, l: Listing): (r: Listing) {
    if l.fields == [] then l else Listing([text + l.fields[0]] + l.fields[1..], l.error)
  }

  /** Characters that add `text` to the field come off the front. */
  lemma {:induction false} RestStep(sp: Specials, s: string, q: bool, text: string, k: nat, s': string, q': bool)
    requires k <= |s| && s[k..] == s' && sp.ScanField(s, q) == sp.ScanField(s', q').After(text, k)
    ensures Rest(sp, s, q) == PrefixFirst(text, Rest(sp, s', q'))
  {
    var f := sp.ScanField(s', q');
    if f.Scanned? {
      assert s[f.taken + k..] == s'[f.taken..];
      var l := sp.Fields(s'[f.taken..], f.ended);
      assert ([f.tok] + l.fields)[1..] == l.fields;
    }
  }

  lemma {:induction false} RestSeparator(sp: Specials, c: char, s': string, s: string)
    requires c !in sp.escape && c in sp.c && s == [c] + s'
    ensures Rest(sp, s, false) == Rest(sp, s', false).Cons([])
  {
    assert s[0] == c && s[1..] == s';
    assert sp.ScanField(s, false) == Scanned([], 1, true);
    if s' == [] {
      assert s'[0..] == [];
      assert [""] + [] == [""];
    }
  }

  lemma {:induction false} RestPiece(sp: Specials, p: Piece, s': string, q: bool, s: string)
    requires ValidPiece(sp, p) && s == p.Text() + s'
    requires !(p.Single? && p.c in sp.c && !q)
    ensures Rest(sp, s, q) == PrefixFirst(Meaning(sp, p), Rest(sp, s', q != IsQuotePiece(sp, p)))
  {
    ScanPiece(sp, p, s', q, s);
    RestStep(sp, s, q, Meaning(sp, p), |p.Text()|, s', q != IsQuotePiece(sp, p));
  }

  lemma {:induction false} RestTail(sp: Specials, tail: string, q: bool)
    requires ValidTail(sp, tail)
    ensures Rest(sp, tail, q) == ListingOf([[]], tail)
  {
    if tail == [] {
      assert tail[0..] == [];
      assert [""] + [] == [""];
    } else {
      assert [""][..0] == [];
    }
  }

  lemma {:induction false} ScanPiece(sp: Specials, p: Piece, s': string, q: bool, s: string)
    requires ValidPiece(sp, p) && s == p.Text() + s'
    requires !(p.Single? && p.c in sp.c && !q)
    ensures sp.ScanField(s, q)
         == sp.ScanField(s', q != IsQuotePiece(sp, p)).After(Meaning(sp, p), |p.Text()|)
  {
    assert s[0] == p.Text()[0] && s[|p.Text()|..] == s';
    if p.Escape? {
      assert s[1] == p.x;
    }
  }

  /** Wherever reading a field fails, it stops behind such an escape character. */
  lemma {:induction false} ErrorAt(sp: Specials, s: string, q: bool, f: Field)
    requires f == sp.ScanField(s, q) && f.Malformed?
    ensures StopsAt(sp, s, f.taken, f.error)
    decreases |s|, 0
  {
    if s[0] !in sp.escape {
      assert s == [s[0]] + s[1..];
      ErrorAfter(sp, Single(s[0]), s[1..], q, s, f);
    } else if |s| >= 2 && ValidPiece(sp, Escape(s[0], s[1])) {
      assert s == [s[0], s[1]] + s[2..];
      ErrorAfter(sp, Escape(s[0], s[1]), s[2..], q, s, f);
    } else {
      ErrorHere(sp, s, q);
    }
  }

  lemma {:induction false} ErrorAfter(sp: Specials, p: Piece, s': string, q: bool, s: string, f: Field)
    requires ValidPiece(sp, p) && s == p.Text() + s' && !(p.Single? && p.c in sp.c && !q)
    requires f == sp.ScanField(s, q) && f.Malformed?
    ensures StopsAt(sp, s, f.taken, f.error)
    decreases |s'|, 1
  {
    var q', k := q != IsQuotePiece(sp, p), |p.Text()|;
    ScanPiece(sp, p, s', q, s);
    var f' := sp.ScanField(s', q');
    assert s[k..] == s';
    ErrorAt(sp, s', q', f');
    StopsFurther(sp, s, k, f'.taken, f'.error);
  }

  lemma {:induction false} ErrorHere(sp: Specials, s: string, q: bool)
    requires s != [] && s[0] in sp.escape && !(|s| >= 2 && ValidPiece(sp, Escape(s[0], s[1])))
    ensures TailError(s).Some? && sp.ScanField(s, q) == Malformed(TailError(s).value, 1)
    ensures StopsAt(sp, s, 1, TailError(s).value)
  {
    assert s[0..] == s;
  }

  lemma ListingPrefix(text: string, fields: seq<string>, tail: string)
    requires fields != []
    ensures ListingOf([text + fields[0]] + fields[1..], tail) == PrefixFirst(text, ListingOf(fields, tail))
  {
    var all, n := [text + fields[0]] + fields[1..], |fields|;
    if tail != [] && n > 1 {
      assert all[..n - 1] == [text + fields[0]] + fields[..n - 1][1..];
    }
  }

  lemma ListingCons(fields: seq<string>, tail: string)
    requires fields != []
    ensures ListingOf([[]] + fields, tail) == ListingOf(fields, tail).Cons([])
  {
    assert ([[]] + fields)[..|fields|] == [[]] + fields[..|fields| - 1];
  }

  lemma {:induction false} RestOfPieces(sp: Specials, ps: seq<Piece>, tail: string, q: bool, s: string)
    requires ValidPieces(sp, ps) && ValidTail(sp, tail) && s == Text(ps) + tail
    ensures Rest(sp, s, q) == ListingOf(FieldsOf(sp, ps, q), tail)
    decreases |ps|
  {
    if ps == [] {
      assert s == tail;
      RestTail(sp, tail, q);
    } else {
      var p, ps' := ps[0], ps[1..];
      assert ps == [p] + ps';
      var s' := Text(ps') + tail;
      assert s == p.Text() + s';
      RestOfPieces(sp, ps', tail, q != IsQuotePiece(sp, p), s');
      RestOfFirst(sp, p, ps', tail, q, s', s);
    }
  }

  lemma {:induction false} RestOfFirst(sp: Specials, p: Piece, ps: seq<Piece>, tail: string, q: bool, s': string, s: string)
    requires ValidPiece(sp, p) && s == p.Text() + s'
    requires var q' := q != IsQuotePiece(sp, p); Rest(sp, s', q') == ListingOf(FieldsOf(sp, ps, q'), tail)
    ensures Rest(sp, s, q) == ListingOf(FieldsOf(sp, [p] + ps, q), tail)
  {
    assert ([p] + ps)[1..] == ps;
    if p.Single? && p.c in sp.c && !q {
      RestSeparator(sp, p.c, s', s);
      ListingCons(FieldsOf(sp, ps, false), tail);
    } else {
      RestPiece(sp, p, s', q, s);
      ListingPrefix(Meaning(sp, p), FieldsOf(sp, ps, q != IsQuotePiece(sp, p)), tail);
    }
  }

  /**
   The fields of every input, and its error: an escape character at the end of the text, or one
   followed by a character that is neither 'n' nor special, and nothing else.
   */
  lemma {:induction false} FieldsLaw(sp: Specials, s: string, ps: seq<Piece>, tail: string)
    requires s == Text(ps) + tail && ValidPieces(sp, ps) && ValidTail(sp, tail)
    ensures s == [] ==> sp.Fields(s, false) == Listing([], None)
    ensures s != [] ==> sp.Fields(s, false) == ListingOf(FieldsOf(sp, ps, false), tail)
  {
    RestOfPieces(sp, ps, tail, false, s);
  }
}
