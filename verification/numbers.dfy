/**
 * Numeric leaves: `integer` with its optional width suffix, `float`,
 * `number` and `range` (grammar.js:134-151, 188-193).
 */
module Numbers {
  import opened Base

  /** The width suffixes `byte_indicator`, `short_indicator` and `long_indicator`, in either case. */
  datatype IntSuffix = Byte(upper: bool) | Short(upper: bool) | Long(upper: bool)
  {
    function Char(): char
    {
      match this
      case Byte(u) => if u then 'B' else 'b'
      case Short(u) => if u then 'S' else 's'
      case Long(u) => if u then 'L' else 'l'
    }
  }

  /** The suffix that the letter `c` writes, if it writes one. */
  function SuffixOf(c: char): (r: Option<IntSuffix>)
    ensures r.Some? ==> r.value.Char() == c
  {
    match c
    case 'B' => Some(Byte(true))
    case 'b' => Some(Byte(false))
    case 'S' => Some(Short(true))
    case 's' => Some(Short(false))
    case 'L' => Some(Long(true))
    case 'l' => Some(Long(false))
    case _ => None
  }

  lemma SuffixOfChar(x: IntSuffix)
    ensures SuffixOf(x.Char()) == Some(x)
  {
  }

  function SignText(negative: bool): string
  {
    if negative then "-" else ""
  }

  function SuffixText(o: Option<IntSuffix>): string
  {
    if o.Some? then [o.value.Char()] else ""
  }

  /** `integer`: an optional minus, one or more digits, an optional width suffix. */
  datatype IntegerLit = IntegerLit(negative: bool, digits: string, suffix: Option<IntSuffix>)
  {
    predicate Valid() { Run1(digits, IsDigit) }

    function Text(): string { SignText(negative) + digits + SuffixText(suffix) }
  }

  /** Splits off the leading minus sign, if any. */
  function Unsigned(s: string): (r: (bool, string))
    ensures SignText(r.0) + r.1 == s
    ensures r.0 <==> |s| > 0 && s[0] == '-'
  {
    if |s| > 0 && s[0] == '-' then
      assert s == "-" + s[1..];
      (true, s[1..])
    else (false, s)
  }

  lemma UnsignedOf(negative: bool, t: string)
    requires |t| > 0 && t[0] != '-'
    ensures Unsigned(SignText(negative) + t) == (negative, t)
  {
    if negative {
      assert (SignText(negative) + t)[1..] == t;
    } else {
      assert SignText(negative) + t == t;
    }
  }

  /** Reads `s` as one `integer`. */
  function ParseInteger(s: string): (r: Option<IntegerLit>)
    ensures r.Some? ==> r.value.Valid() && r.value.Text() == s
  {
    var u := Unsigned(s);
    var neg, t := u.0, u.1;
    if |t| > 0 && SuffixOf(t[|t| - 1]).Some? then
      var d := t[..|t| - 1];
      assert t == d + [t[|t| - 1]];
      if Run1(d, IsDigit) then Some(IntegerLit(neg, d, SuffixOf(t[|t| - 1]))) else None
    else if Run1(t, IsDigit) then Some(IntegerLit(neg, t, None))
    else None
  }

  /** `integer` is unambiguous: the parser gives back the literal that was printed. */
  lemma IntegerRoundTrip(x: IntegerLit)
    requires x.Valid()
    ensures ParseInteger(x.Text()) == Some(x)
  {
    var s := x.Text();
    var t := x.digits + SuffixText(x.suffix);
    assert s == SignText(x.negative) + t;
    assert t[0] == x.digits[0];
    UnsignedOf(x.negative, t);
    if x.suffix.Some? {
      SuffixOfChar(x.suffix.value);
      assert t[..|t| - 1] == x.digits;
    } else {
      assert t == x.digits;
      assert IsDigit(t[|t| - 1]);
      assert SuffixOf(t[|t| - 1]) == None;
      assert Unsigned(s) == (x.negative, t);
      assert Run1(t, IsDigit);
    }
  }

  /**
   * The shape of an accepted `integer`, read off its characters: a digit
   * right after the optional minus, only digits up to the last character,
   * and a last character that is a digit or one suffix letter.
   */
  lemma IntegerShape(s: string)
    requires ParseInteger(s).Some?
    ensures |s| >= 1
    ensures var a := if s[0] == '-' then 1 else 0;
      a < |s| && IsDigit(s[a]) && (forall j :: a <= j < |s| - 1 ==> IsDigit(s[j]))
      && (IsDigit(s[|s| - 1]) || s[|s| - 1] in "BbSsLl")
  {
    var x := ParseInteger(s).value;
    var a := SignText(x.negative);
    assert s == a + x.digits + SuffixText(x.suffix);
    forall j | |a| <= j < |a| + |x.digits|
      ensures IsDigit(s[j])
    {
      assert s[j] == x.digits[j - |a|];
    }
  }

  /** `float`: an optional minus, optional whole digits, a point and at least one digit. */
  datatype FloatLit = FloatLit(negative: bool, whole: string, frac: string)
  {
    predicate Valid() { All(whole, IsDigit) && Run1(frac, IsDigit) }

    function Text(): string { SignText(negative) + whole + "." + frac }
  }

  /** Reads `s` as one `float`. */
  function ParseFloat(s: string): (r: Option<FloatLit>)
    ensures r.Some? ==> r.value.Valid() && r.value.Text() == s
  {
    var u := Unsigned(s);
    FloatBody(u.0, u.1)
  }

  /** Reads the unsigned part `t` of a `float`; its point is the first one in `t`. */
  function FloatBody(negative: bool, t: string): (r: Option<FloatLit>)
    ensures r.Some? ==> r.value.Valid() && r.value.Text() == SignText(negative) + t
  {
    var i := IndexOf(t, '.');
    if i < |t| && All(t[..i], IsDigit) && Run1(t[i + 1..], IsDigit) then
      assert t == t[..i] + "." + t[i + 1..];
      Some(FloatLit(negative, t[..i], t[i + 1..]))
    else None
  }

  /** `float` is unambiguous: the parser gives back the literal that was printed. */
  lemma FloatRoundTrip(x: FloatLit)
    requires x.Valid()
    ensures ParseFloat(x.Text()) == Some(x)
  {
    var t := x.whole + "." + x.frac;
    assert x.Text() == SignText(x.negative) + t;
    assert t[0] != '-' by {
      if x.whole != [] { assert t[0] == x.whole[0]; }
    }
    UnsignedOf(x.negative, t);
    FloatBodyRoundTrip(x);
  }

  lemma FloatBodyRoundTrip(x: FloatLit)
    requires x.Valid()
    ensures FloatBody(x.negative, x.whole + "." + x.frac) == Some(x)
  {
    var t := x.whole + "." + x.frac;
    var i := |x.whole|;
    forall j | 0 <= j < i
      ensures t[j] != '.'
    {
      assert t[j] == x.whole[j];
    }
    assert t[i] == '.';
    assert IndexOf(t, '.') == i;
    Pieces(x.whole, ".", x.frac);
  }

  /** A `float` ends in a digit: it takes no suffix letter, and a text ending in the point, such as `1.`, is not one. */
  lemma FloatEndsInDigit(s: string)
    requires ParseFloat(s).Some?
    ensures |s| >= 2 && IsDigit(s[|s| - 1])
  {
    var x := ParseFloat(s).value;
    assert s[|s| - 1] == x.frac[|x.frac| - 1];
  }

  lemma OnePointIsNotFloat()
    ensures ParseFloat("1.") == None
  {
    assert IndexOf("1.", '.') == 1;
    assert "1."[2..] == "";
  }

  /** `number`: a whole number without suffix, or a `float`. */
  datatype Number = Integral(i: IntegerLit) | Fractional(f: FloatLit)
  {
    predicate Valid()
    {
      match this
      case Integral(i) => i.Valid() && i.suffix.None?
      case Fractional(f) => f.Valid()
    }

    function Text(): string
    {
      match this
      case Integral(i) => i.Text()
      case Fractional(f) => f.Text()
    }
  }

  /** Reads `s` as one `number`, trying the whole-number form first. */
  function ParseNumber(s: string): (r: Option<Number>)
    ensures r.Some? ==> r.value.Valid() && r.value.Text() == s
  {
    var i := ParseInteger(s);
    if i.Some? && i.value.suffix.None? then Some(Integral(i.value))
    else
      var f := ParseFloat(s);
      if f.Some? then Some(Fractional(f.value)) else None
  }

  /** Every point in `t` is followed by a digit. */
  predicate PointsFollowed(t: string)
  {
    forall j :: 0 <= j < |t| && t[j] == '.' ==> j + 1 < |t| && IsDigit(t[j + 1])
  }

  /** A `number` is not empty, and each of its points is followed by a digit. */
  lemma NumberShape(n: Number)
    requires n.Valid()
    ensures |n.Text()| > 0 && PointsFollowed(n.Text())
  {
    var t := n.Text();
    match n
    case Integral(i) =>
      forall j | 0 <= j < |t|
        ensures t[j] != '.'
      {
        if i.negative && j == 0 {
        } else {
          assert t[j] == i.digits[j - |SignText(i.negative)|];
        }
      }
    case Fractional(f) =>
      var a := |SignText(f.negative)| + |f.whole|;
      forall j | 0 <= j < |t| && j != a
        ensures t[j] != '.'
      {
        if j < a && !(f.negative && j == 0) {
          assert t[j] == f.whole[j - |SignText(f.negative)|];
        } else if j > a {
          assert t[j] == f.frac[j - a - 1];
        }
      }
      assert t[a + 1] == f.frac[0];
  }

  /** An `integer` contains no point. */
  lemma IntegerHasNoPoint(s: string)
    ensures ParseInteger(s).Some? ==> forall j :: 0 <= j < |s| ==> s[j] != '.'
  {
    var r := ParseInteger(s);
    if r.Some? {
      LiteralHasNoPoint(r.value);
    }
  }

  lemma LiteralHasNoPoint(x: IntegerLit)
    requires x.Valid()
    ensures forall j :: 0 <= j < |x.Text()| ==> x.Text()[j] != '.'
  {
    var a, d, u := SignText(x.negative), x.digits, SuffixText(x.suffix);
    var t := x.Text();
    assert t == a + d + u;
    forall j | 0 <= j < |t|
      ensures t[j] != '.'
    {
      if j < |a| {
        assert t[j] == a[j];
      } else if j < |a| + |d| {
        assert t[j] == d[j - |a|];
      } else {
        assert t[j] == u[j - |a| - |d|];
      }
    }
  }

  /** `number` is unambiguous: a `float` always contains a point, which an `integer` never does. */
  lemma NumberRoundTrip(n: Number)
    requires n.Valid()
    ensures ParseNumber(n.Text()) == Some(n)
  {
    match n
    case Integral(i) => IntegerRoundTrip(i);
    case Fractional(f) =>
      FloatRoundTrip(f);
      var t := n.Text();
      assert t[|SignText(f.negative)| + |f.whole|] == '.';
      IntegerHasNoPoint(t);
  }

  function OptNumberText(o: Option<Number>): string
  {
    if o.Some? then o.value.Text() else ""
  }

  /** Reads `s` as an optional `number`: the empty text is the absent one. */
  function ParseOptNumber(s: string): (r: Option<Option<Number>>)
    ensures r.Some? ==> (r.value.Some? ==> r.value.value.Valid()) && OptNumberText(r.value) == s
  {
    if s == "" then Some(None)
    else
      var n := ParseNumber(s);
      if n.Some? then Some(Some(n.value)) else None
  }

  /** `range`: `N..`, `..N` or `N..M`; at least one bound is present. */
  datatype Range = Range(low: Option<Number>, high: Option<Number>)
  {
    predicate Valid()
    {
      (low.Some? || high.Some?)
      && (low.Some? ==> low.value.Valid())
      && (high.Some? ==> high.value.Valid())
    }

    function Text(): string { OptNumberText(low) + ".." + OptNumberText(high) }
  }

  /** A range whose `..` starts at index `i` of `s`. */
  function RangeAt(s: string, i: nat): (r: Option<Range>)
    requires i <= |s|
    ensures r.Some? ==> r.value.Valid() && r.value.Text() == s
    ensures r.Some? ==> i + 2 <= |s| && s[i..i + 2] == ".." && OptNumberText(r.value.low) == s[..i]
  {
    if i + 2 <= |s| && s[i..i + 2] == ".." then
      var lo := ParseOptNumber(s[..i]);
      var hi := ParseOptNumber(s[i + 2..]);
      if lo.Some? && hi.Some? && (lo.value.Some? || hi.value.Some?) then
        SplitAt(s, i, "..");
        Some(Range(lo.value, hi.value))
      else None
    else None
  }

  /** Reads `s` as one `range`. */
  function ParseRange(s: string): (r: Option<Range>)
    ensures r.Some? ==> r.value.Valid() && r.value.Text() == s
  {
    FirstSome(0, |s|, (i: nat) requires i <= |s| => RangeAt(s, i))
  }

  lemma OptNumberShape(o: Option<Number>)
    requires o.Some? ==> o.value.Valid()
    ensures PointsFollowed(OptNumberText(o))
    ensures o.Some? ==> |OptNumberText(o)| > 0
  {
    if o.Some? { NumberShape(o.value); }
  }

  lemma OptNumberRoundTrip(o: Option<Number>)
    requires o.Some? ==> o.value.Valid()
    ensures ParseOptNumber(OptNumberText(o)) == Some(o)
  {
    if o.Some? {
      NumberRoundTrip(o.value);
      NumberShape(o.value);
    }
  }

  /** `range` is unambiguous: its `..` can sit at one place only, since the point of a bound is always followed by a digit. */
  lemma RangeRoundTrip(x: Range)
    requires x.Valid()
    ensures ParseRange(x.Text()) == Some(x)
  {
    var s := x.Text();
    var lo, hi := OptNumberText(x.low), OptNumberText(x.high);
    var i0 := |lo|;
    OptNumberShape(x.low);
    OptNumberShape(x.high);
    Pieces(lo, "..", hi);
    OptNumberRoundTrip(x.low);
    OptNumberRoundTrip(x.high);
    assert RangeAt(s, i0) == Some(x);
    forall k | 0 <= k <= |s| && RangeAt(s, k).Some?
      ensures k == i0
    {
      RangeSplitUnique(s, lo, hi, k);
      OptNumberShape(RangeAt(s, k).value.low);
    }
    FirstSomeUnique(0, |s|, (i: nat) requires i <= |s| => RangeAt(s, i), i0, x);
  }

  /** Where a `..` may start in `lo + ".." + hi`, when the points of `lo` and `hi` are followed by digits. */
  lemma RangeSplitUnique(s: string, lo: string, hi: string, k: nat)
    requires s == lo + ".." + hi && PointsFollowed(lo) && PointsFollowed(hi)
    requires k + 2 <= |s|
    ensures s[k..k + 2] == ".." ==> k == |lo| || (k == |lo| + 1 && !PointsFollowed(s[..k]))
  {
    var i0 := |lo|;
    assert s[k..k + 2][0] == s[k] && s[k..k + 2][1] == s[k + 1];
    if k < i0 && s[k] == '.' {
      assert lo[k] == '.';
      assert s[k + 1] == lo[k + 1];
    } else if k == i0 + 1 {
      assert s[..k][i0] == '.';
    } else if k > i0 + 1 && s[k] == '.' {
      assert hi[k - i0 - 2] == '.';
      assert hi[k - i0 - 1] == s[k + 1];
    }
  }

  /** A bare `..` is not a range. */
  lemma BareDotsNotRange()
    ensures ParseRange("..") == None
  {
    assert RangeAt("..", 0) == None by {
      assert ".."[..0] == "" && ".."[2..] == "";
    }
    assert RangeAt("..", 1) == None;
    assert RangeAt("..", 2) == None;
  }
}
