/**
 * The mutually nested quoted strings `_single_quoted_string` and
 * `_double_quoted_string`, and their union `string` (grammar.js:163-183).
 * A string holds either exactly one string of the other quote, or runs of
 * text and macros.
 */
module Strings {
  import opened Base
  import opened Combinators
  import opened Lexemes

  /** `[^'"(\$\(\))]`: anything but the two quotes, the parentheses and `$`. */
  predicate IsTextChar(c: char)
  {
    c != '\'' && c != '"' && c != '(' && c != ')' && c != '$'
  }

  /** One item of a string's body: a run of text characters, or a macro. */
  datatype Piece = Chars(chars: string) | PieceMacro(m: Macro)

  predicate PieceValid(p: Piece)
  {
    match p
    case Chars(chars) => Run1(chars, IsTextChar)
    case PieceMacro(m) => m.Valid()
  }

  function PieceText(p: Piece): string
  {
    match p
    case Chars(chars) => chars
    case PieceMacro(m) => m.Text()
  }

  /** Reads `s` as one body item, trying text before macro. */
  function ParsePiece(s: string): (r: Option<Piece>)
    ensures r.Some? ==> PieceValid(r.value) && PieceText(r.value) == s
  {
    if Run1(s, IsTextChar) then Some(Chars(s))
    else
      var m := ParseMacro(s);
      if m.Some? then Some(PieceMacro(m.value)) else None
  }

  lemma PieceSound(n: nat)
    ensures Sound(n, ParsePiece, PieceText, PieceValid)
  {
  }

  function QuoteChar(double: bool): char
  {
    if double then '"' else '\''
  }

  /** `string`: double-quoted when `double`, single-quoted otherwise. */
  datatype QuotedString = Nested(double: bool, inner: QuotedString) | Flat(double: bool, pieces: seq<Piece>)
  {
    predicate Valid()
    {
      match this
      case Nested(double, inner) => inner.double != double && inner.Valid()
      case Flat(_, pieces) => AllValid(pieces, PieceValid)
    }

    function Body(): string
    {
      match this
      case Nested(_, inner) => inner.Text()
      case Flat(_, pieces) => Concat(Texts(pieces, PieceText))
    }

    function Text(): string
    {
      match this
      case Nested(double, inner) => [QuoteChar(double)] + inner.Text() + [QuoteChar(double)]
      case Flat(double, pieces) => [QuoteChar(double)] + Concat(Texts(pieces, PieceText)) + [QuoteChar(double)]
    }
  }

  /** Reads `s` as one `string`: a nested string of the other quote if the inside is one, else text and macros. */
  function ParseString(s: string): (r: Option<QuotedString>)
    ensures r.Some? ==> r.value.Valid() && r.value.Text() == s
    decreases |s|
  {
    if |s| >= 2 && (s[0] == '\'' || s[0] == '"') && s[|s| - 1] == s[0] then
      var double := s[0] == '"';
      var inner := s[1..|s| - 1];
      Framed(s, [s[0]], [s[0]]);
      var n := ParseString(inner);
      if n.Some? && n.value.double != double then Some(Nested(double, n.value))
      else
        PieceSound(|inner| + 1);
        var ps := Many(inner, ParsePiece, PieceText, PieceValid);
        if ps.Some? then Some(Flat(double, ps.value)) else None
    else None
  }

  /** A string opens and closes with the quote its kind names. */
  lemma QuotesMatch(q: QuotedString)
    ensures |q.Text()| >= 2
    ensures q.Text()[0] == QuoteChar(q.double) && q.Text()[|q.Text()| - 1] == QuoteChar(q.double)
    ensures q.Text()[1..|q.Text()| - 1] == q.Body()
  {
    Pieces([QuoteChar(q.double)], q.Body(), [QuoteChar(q.double)]);
  }

  lemma PieceAccepted(p: Piece)
    requires PieceValid(p)
    ensures PieceText(p) != "" && ParsePiece(PieceText(p)).Some?
  {
    if p.PieceMacro? { MacroRoundTrip(p.m); }
  }

  /** Every well-formed string is accepted, and keeps its kind and its nesting. */
  lemma {:induction false} StringComplete(q: QuotedString)
    requires q.Valid()
    ensures ParseString(q.Text()).Some?
    ensures ParseString(q.Text()).value.double == q.double
    ensures q.Nested? ==> ParseString(q.Text()).value.Nested?
  {
    var s := q.Text();
    QuotesMatch(q);
    match q
    case Nested(double, inner) =>
      StringComplete(inner);
    case Flat(double, pieces) =>
      PieceSound(|q.Body()| + 1);
      forall i | 0 <= i < |pieces|
        ensures PieceText(pieces[i]) != "" && Accepts(ParsePiece, PieceText(pieces[i]))
      {
        PieceAccepted(pieces[i]);
      }
      ManyComplete(pieces, ParsePiece, PieceText, PieceValid);
    QuotesMatch(ParseString(s).value);
  }

  predicate IsQuote(c: char) { c == '\'' || c == '"' }

  /** The kind of a parsed string is the quote it opens with. */
  lemma ParsedKind(s: string)
    ensures ParseString(s).Some? ==> |s| >= 2 && s[0] == QuoteChar(ParseString(s).value.double)
  {
    if ParseString(s).Some? {
      QuotesMatch(ParseString(s).value);
    }
  }

  lemma MacroHasNoQuote(m: Macro)
    requires m.Valid()
    ensures forall j :: 0 <= j < |m.Text()| ==> !IsQuote(m.Text()[j])
  {
    var open := if m.percent then "%[" else "$(";
    var close := if m.percent then "]" else ")";
    assert m.Text() == open + m.name + close;
    forall j | 2 <= j < 2 + |m.name|
      ensures !IsQuote(m.Text()[j])
    {
      assert m.Text()[j] == m.name[j - 2];
    }
  }

  /** Text runs and macros never contain a quote. */
  lemma {:induction false} PiecesHaveNoQuote(ps: seq<Piece>)
    requires AllValid(ps, PieceValid)
    ensures forall j :: 0 <= j < |Concat(Texts(ps, PieceText))| ==> !IsQuote(Concat(Texts(ps, PieceText))[j])
  {
    if ps != [] {
      var head, tail := PieceText(ps[0]), Concat(Texts(ps[1..], PieceText));
      assert ps == [ps[0]] + ps[1..];
      TextsCons(ps[0], ps[1..], PieceText);
      ConcatCons(head, Texts(ps[1..], PieceText));
      assert AllValid(ps[1..], PieceValid) by {
        forall i | 0 <= i < |ps[1..]|
          ensures PieceValid(ps[1..][i])
        {
          assert ps[1..][i] == ps[i + 1];
        }
      }
      PiecesHaveNoQuote(ps[1..]);
      if ps[0].PieceMacro? { MacroHasNoQuote(ps[0].m); }
      forall j | 0 <= j < |head + tail|
        ensures !IsQuote((head + tail)[j])
      {
        if j >= |head| { assert (head + tail)[j] == tail[j - |head|]; }
      }
    }
  }

  /** A run of text and macros contains no quote. */
  lemma FlatHasNoQuote(t: string)
    ensures Sound(|t| + 1, ParsePiece, PieceText, PieceValid)
    ensures Many(t, ParsePiece, PieceText, PieceValid).Some? ==> forall j :: 0 <= j < |t| ==> !IsQuote(t[j])
  {
    PieceSound(|t| + 1);
    var ps := Many(t, ParsePiece, PieceText, PieceValid);
    if ps.Some? {
      PiecesHaveNoQuote(ps.value);
    }
  }

  /** A string cannot hold a string of its own quote: the nested string must use the other one. */
  lemma SameQuoteRejected(q: QuotedString)
    requires q.Valid()
    ensures ParseString([QuoteChar(q.double)] + q.Text() + [QuoteChar(q.double)]).None?
  {
    var c := QuoteChar(q.double);
    var s := [c] + q.Text() + [c];
    Pieces([c], q.Text(), [c]);
    QuotesMatch(q);
    ParsedKind(q.Text());
    FlatHasNoQuote(q.Text());
  }
}
