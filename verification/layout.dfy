/**
 * Layout between tokens: the line-continuation `backslash`, the separator
 * `_space` and its optional form, and the comma separator of the `ARRAY`
 * combinator (grammar.js:31-45, 55-58).
 */
module Layout {
  import opened Base

  /**
   * `_space`: either one blank, or a `backslash` continuation, which is
   * white space, a backslash, an optional carriage return, a line feed and
   * white space again.
   */
  datatype Space = Blank | Continuation(before: string, crlf: bool, after: string)
  {
    predicate Valid()
    {
      Continuation? ==> All(before, IsWhitespace) && All(after, IsWhitespace)
    }

    function Text(): string
    {
      match this
      case Blank => " "
      case Continuation(before, crlf, after) =>
        before + "\\" + (if crlf then "\r\n" else "\n") + after
    }
  }

  /** A continuation whose backslash sits at index `i` of `s`. */
  function ContinuationAt(s: string, i: nat): (r: Option<Space>)
    requires i <= |s|
    ensures r.Some? ==> r.value.Valid() && r.value.Text() == s
    ensures r.Some? ==> i < |s| && s[i] == '\\' && All(s[..i], IsWhitespace)
  {
    if i < |s| && s[i] == '\\' && All(s[..i], IsWhitespace) then
      var t := s[i + 1..];
      assert s == s[..i] + "\\" + t;
      if |t| >= 2 && t[0] == '\r' && t[1] == '\n' && All(t[2..], IsWhitespace) then
        assert t == "\r\n" + t[2..];
        Some(Continuation(s[..i], true, t[2..]))
      else if |t| >= 1 && t[0] == '\n' && All(t[1..], IsWhitespace) then
        assert t == "\n" + t[1..];
        Some(Continuation(s[..i], false, t[1..]))
      else None
    else None
  }

  /** Reads `s` as one `_space`. */
  function ParseSpace(s: string): (r: Option<Space>)
    ensures r.Some? ==> r.value.Valid() && r.value.Text() == s
  {
    if s == " " then Some(Blank)
    else FirstSome(0, |s|, (i: nat) requires i <= |s| => ContinuationAt(s, i))
  }

  /** A `_space` is never empty, and each of its characters is white space or the backslash. */
  lemma SpaceShape(sp: Space)
    requires sp.Valid()
    ensures |sp.Text()| > 0
    ensures forall i :: 0 <= i < |sp.Text()| ==> IsWhitespace(sp.Text()[i]) || sp.Text()[i] == '\\'
  {
  }

  /** `_space` is unambiguous: the parser gives back exactly the separator that was printed. */
  lemma {:induction false} SpaceRoundTrip(sp: Space)
    requires sp.Valid()
    ensures ParseSpace(sp.Text()) == Some(sp)
  {
    if sp.Continuation? {
      var s := sp.Text();
      ContinuationFound(sp);
      forall k | 0 <= k <= |s| && ContinuationAt(s, k).Some?
        ensures k == |sp.before|
      {
        ContinuationOnly(sp, k);
      }
      FirstSomeUnique(0, |s|, (i: nat) requires i <= |s| => ContinuationAt(s, i), |sp.before|, sp);
    }
  }

  /** A continuation is read back from the split at its backslash. */
  lemma ContinuationFound(sp: Space)
    requires sp.Continuation? && sp.Valid()
    ensures ContinuationAt(sp.Text(), |sp.before|) == Some(sp)
  {
    var s := sp.Text();
    var i0 := |sp.before|;
    var t := (if sp.crlf then "\r\n" else "\n") + sp.after;
    assert s == sp.before + "\\" + t;
    assert s[..i0] == sp.before;
    assert s[i0 + 1..] == t;
    if sp.crlf {
      assert t[2..] == sp.after;
    } else {
      assert t[1..] == sp.after;
    }
  }

  /** The first backslash of a continuation is the one its white space ends at. */
  lemma ContinuationOnly(sp: Space, k: nat)
    requires sp.Continuation? && sp.Valid()
    requires k < |sp.Text()| && sp.Text()[k] == '\\' && All(sp.Text()[..k], IsWhitespace)
    ensures k == |sp.before|
  {
    var rest := "\\" + (if sp.crlf then "\r\n" else "\n") + sp.after;
    assert sp.Text() == sp.before + rest;
    FirstBackslash(sp.before, rest, k);
  }

  /** In white space followed by a backslash, the first backslash ends the white space. */
  lemma FirstBackslash(b: string, rest: string, k: nat)
    requires All(b, IsWhitespace) && |rest| > 0 && rest[0] == '\\'
    requires k < |b + rest| && (b + rest)[k] == '\\' && All((b + rest)[..k], IsWhitespace)
    ensures k == |b|
  {
    var s := b + rest;
    assert s[|b|] == '\\';
    forall j | 0 <= j < |b|
      ensures s[j] != '\\'
    {
      assert s[j] == b[j];
    }
    PrefixAll(s, k, IsWhitespace);
  }

  /** `optional($._space)`. */
  function OptText(o: Option<Space>): string
  {
    if o.Some? then o.value.Text() else ""
  }

  predicate OptValid(o: Option<Space>)
  {
    o.Some? ==> o.value.Valid()
  }

  /** Reads `s` as an optional `_space`: the empty text is the absent one. */
  function ParseOptSpace(s: string): (r: Option<Option<Space>>)
    ensures r.Some? ==> OptValid(r.value) && OptText(r.value) == s
  {
    if s == "" then Some(None)
    else match ParseSpace(s)
      case Some(sp) => Some(Some(sp))
      case None => None
  }

  lemma OptSpaceRoundTrip(o: Option<Space>)
    requires OptValid(o)
    ensures ParseOptSpace(OptText(o)) == Some(o)
  {
    if o.Some? {
      SpaceRoundTrip(o.value);
      SpaceShape(o.value);
    }
  }

  /** The separator `optional($._space), ",", optional($._space)` between two `ARRAY` elements. */
  datatype Sep = Sep(before: Option<Space>, after: Option<Space>)
  {
    predicate Valid() { OptValid(before) && OptValid(after) }

    function Text(): string { OptText(before) + "," + OptText(after) }
  }

  /** A separator whose comma sits at index `c` of `s`. */
  function SepAt(s: string, c: nat): (r: Option<Sep>)
    requires c <= |s|
    ensures r.Some? ==> r.value.Valid() && r.value.Text() == s
    ensures r.Some? ==> c < |s| && s[c] == ','
  {
    if c < |s| && s[c] == ',' then
      var b := ParseOptSpace(s[..c]);
      var a := ParseOptSpace(s[c + 1..]);
      if b.Some? && a.Some? then
        assert s == s[..c] + "," + s[c + 1..];
        Some(Sep(b.value, a.value))
      else None
    else None
  }

  function ParseSep(s: string): (r: Option<Sep>)
    ensures r.Some? ==> r.value.Valid() && r.value.Text() == s
  {
    FirstSome(0, |s|, (c: nat) requires c <= |s| => SepAt(s, c))
  }

  lemma OptTextNoComma(o: Option<Space>)
    requires OptValid(o)
    ensures forall i :: 0 <= i < |OptText(o)| ==> OptText(o)[i] != ','
  {
    if o.Some? { SpaceShape(o.value); }
  }

  /** The comma separator is unambiguous: a separator's text contains exactly one comma. */
  lemma SepRoundTrip(sep: Sep)
    requires sep.Valid()
    ensures ParseSep(sep.Text()) == Some(sep)
  {
    var b, a := OptText(sep.before), OptText(sep.after);
    var s := sep.Text();
    var c0 := |b|;
    assert s == b + [','] + a;
    OptTextNoComma(sep.before);
    OptTextNoComma(sep.after);
    OnlyAt(b, ',', a);
    Pieces(b, ",", a);
    OptSpaceRoundTrip(sep.before);
    OptSpaceRoundTrip(sep.after);
    assert SepAt(s, c0) == Some(sep);
    forall k | 0 <= k <= |s| && SepAt(s, k).Some?
      ensures SepAt(s, k) == Some(sep)
    {
      assert s[k] == ',';
    }
    FirstSomeUnique(0, |s|, (c: nat) requires c <= |s| => SepAt(s, c), c0, sep);
  }
}
