/**
 * NBT paths (grammar.js:318-342): a root name or macro followed by `.`,
 * then one or more nodes, each a string, or a name or macro with an
 * optional bracketed index or compound filter, and each followed by an
 * optional `.`.
 */
module Paths {
  import opened Base
  import opened Combinators
  import opened Numbers
  import opened Lexemes
  import opened Strings
  import opened Nbt
  import opened Selectors

  /** `[a-zA-Z_]`: the characters of a root name. */
  predicate IsRootChar(c: char) { IsLetter(c) || c == '_' }

  /** `[a-zA-Z0-9_]`: the characters of a node name. */
  predicate IsFieldChar(c: char) { IsLetter(c) || IsDigit(c) || c == '_' }

  /** The first node of a path, with the `.` that ends it. */
  datatype PathRoot = RootName(name: string) | RootMacro(m: Macro)
  {
    predicate Valid()
    {
      match this
      case RootName(name) => Run1(name, IsRootChar)
      case RootMacro(m) => m.Valid()
    }

    function Text(): string
    {
      match this
      case RootName(name) => name + "."
      case RootMacro(m) => m.Text() + "."
    }
  }

  /** Reads `s` as a root: everything up to and including the first `.`. */
  function ParseRoot(s: string): (r: Option<PathRoot>)
    ensures r.Some? ==> r.value.Valid() && r.value.Text() == s
  {
    if |s| > 0 && s[|s| - 1] == '.' then
      var head := s[..|s| - 1];
      assert s == head + ".";
      if Run1(head, IsRootChar) then Some(RootName(head))
      else
        var m := ParseMacro(head);
        if m.Some? then Some(RootMacro(m.value)) else None
    else None
  }

  /** A node name: a run of name characters, or a macro. */
  datatype NodeName = FieldName(name: string) | FieldMacro(m: Macro)
  {
    predicate Valid()
    {
      match this
      case FieldName(name) => Run1(name, IsFieldChar)
      case FieldMacro(m) => m.Valid()
    }

    function Text(): string
    {
      match this
      case FieldName(name) => name
      case FieldMacro(m) => m.Text()
    }
  }

  function ParseNodeName(s: string): (r: Option<NodeName>)
    ensures r.Some? ==> r.value.Valid() && r.value.Text() == s
  {
    if Run1(s, IsFieldChar) then Some(FieldName(s))
    else
      var m := ParseMacro(s);
      if m.Some? then Some(FieldMacro(m.value)) else None
  }

  /** What may follow a node name: `[number]`, `[macro]`, or an `nbt_compound`. */
  datatype Subscript = IndexSub(n: Number) | IndexMacro(m: Macro) | MatchSub(c: Items<Pair>)
  {
    predicate Valid()
    {
      match this
      case IndexSub(n) => n.Valid()
      case IndexMacro(m) => m.Valid()
      case MatchSub(c) => ItemsValid(c, PairValid)
    }

    function Text(): string
    {
      match this
      case IndexSub(n) => "[" + n.Text() + "]"
      case IndexMacro(m) => "[" + m.Text() + "]"
      case MatchSub(c) => ItemsText("{", "}", c, PairText)
    }
  }

  /** Reads `s` as a subscript, the bracketed forms (number before macro) before the compound. */
  function ParseSubscript(s: string): (r: Option<Subscript>)
    ensures r.Some? ==> r.value.Valid() && r.value.Text() == s
  {
    if |s| >= 2 && s[0] == '[' && s[|s| - 1] == ']' then
      var inside := s[1..|s| - 1];
      Framed(s, "[", "]");
      var n := ParseNumber(inside);
      if n.Some? then Some(IndexSub(n.value))
      else
        var m := ParseMacro(inside);
        if m.Some? then Some(IndexMacro(m.value)) else None
    else
      PairSound(|s|);
      var c := Array("{", "}", s, ParsePair, PairText, PairValid);
      if c.Some? then Some(MatchSub(c.value)) else None
  }

  /** A node: a string, or a name with an optional subscript. */
  datatype Node = QuotedNode(str: QuotedString) | Step(name: NodeName, sub: Option<Subscript>)
  {
    predicate Valid()
    {
      match this
      case QuotedNode(str) => str.Valid()
      case Step(name, sub) => name.Valid() && (sub.Some? ==> sub.value.Valid())
    }

    function Text(): string
    {
      match this
      case QuotedNode(str) => str.Text()
      case Step(name, sub) => name.Text() + (if sub.Some? then sub.value.Text() else "")
    }
  }

  /** Reads `s` as a node: a string first, then a name and subscript split at the first place that works. */
  function ParseNode(s: string): (r: Option<Node>)
    ensures r.Some? ==> r.value.Valid() && r.value.Text() == s
  {
    var q := ParseString(s);
    if q.Some? then Some(QuotedNode(q.value))
    else FirstSome(1, |s|, (k: nat) requires 1 <= k <= |s| => StepAt(s, k))
  }

  /** The name ends at index `k`; a subscript fills the rest, if there is a rest. */
  function StepAt(s: string, k: nat): (r: Option<Node>)
    requires 1 <= k <= |s|
    ensures r.Some? ==> r.value.Valid() && r.value.Text() == s
  {
    var name := ParseNodeName(s[..k]);
    if name.None? then None
    else if k == |s| then Some(Step(name.value, None))
    else
      var sub := ParseSubscript(s[k..]);
      if sub.None? then None
      else
        assert s == s[..k] + s[k..];
        Some(Step(name.value, Some(sub.value)))
  }

  /** One node of the repeated part, with the optional `.` after it. */
  datatype PathSegment = PathSegment(node: Node, dot: bool)

  predicate SegmentValid(x: PathSegment) { x.node.Valid() }

  function SegmentText(x: PathSegment): string
  {
    x.node.Text() + (if x.dot then "." else "")
  }

  /** Reads `s` as one segment; a final `.` is the optional dot, since no node ends with one. */
  function ParseSegment(s: string): (r: Option<PathSegment>)
    ensures r.Some? ==> SegmentValid(r.value) && SegmentText(r.value) == s
  {
    if |s| > 0 && s[|s| - 1] == '.' then
      var n := ParseNode(s[..|s| - 1]);
      if n.Some? then
        LastSplit(s);
        Some(PathSegment(n.value, true))
      else None
    else
      var n := ParseNode(s);
      if n.Some? then Some(PathSegment(n.value, false)) else None
  }

  lemma SegmentSound(n: nat)
    ensures Sound(n, ParseSegment, SegmentText, SegmentValid)
  {
  }

  /** `path`. */
  datatype Path = Path(root: PathRoot, segments: seq<PathSegment>)
  {
    predicate Valid()
    {
      root.Valid() && |segments| > 0 && AllValid(segments, SegmentValid)
    }

    function Text(): string
    {
      root.Text() + Concat(Texts(segments, SegmentText))
    }
  }

  /** Reads `s` as a `path`; the root ends at the first `.`, which no root name or macro contains. */
  function ParsePath(s: string): (r: Option<Path>)
    ensures r.Some? ==> r.value.Valid() && r.value.Text() == s
  {
    var i := IndexOf(s, '.');
    if i == |s| then None
    else
      var root := ParseRoot(s[..i + 1]);
      if root.None? then None
      else
        var rest := s[i + 1..];
        SegmentSound(|rest| + 1);
        var segs := Many1(rest, ParseSegment, SegmentText, SegmentValid);
        if segs.None? then None
        else
          assert s == s[..i + 1] + rest;
          Some(Path(root.value, segs.value))
  }
  // ---------------------------------------------------------------------------
  // completeness

  /** A macro is written with `$(`, `%[`, name characters, and `)` or `]`: never with a `.`. */
  lemma MacroHasNoPoint(m: Macro)
    requires m.Valid()
    ensures forall j :: 0 <= j < |m.Text()| ==> m.Text()[j] != '.'
  {
    var t := m.Text();
    forall j | 0 <= j < |t|
      ensures t[j] != '.'
    {
      if 2 <= j < |t| - 1 { assert t[j] == m.name[j - 2]; }
    }
  }

  /** A root is read back exactly, and its only `.` is the last character. */
  lemma RootRoundTrip(r: PathRoot)
    requires r.Valid()
    ensures ParseRoot(r.Text()) == Some(r)
    ensures forall j :: 0 <= j < |r.Text()| - 1 ==> r.Text()[j] != '.'
  {
    var s := r.Text();
    match r
    case RootName(name) =>
      assert s[..|s| - 1] == name;
      forall j | 0 <= j < |s| - 1
        ensures s[j] != '.'
      {
        assert s[j] == name[j];
      }
    case RootMacro(m) =>
      assert s[..|s| - 1] == m.Text();
      MacroRoundTrip(m);
      MacroEnds(m.Text());
      MacroHasNoPoint(m);
      forall j | 0 <= j < |s| - 1
        ensures s[j] != '.'
      {
        assert s[j] == m.Text()[j];
      }
  }

  lemma NodeNameRoundTrip(x: NodeName)
    requires x.Valid()
    ensures ParseNodeName(x.Text()) == Some(x)
  {
    if x.FieldMacro? {
      MacroRoundTrip(x.m);
      MacroEnds(x.m.Text());
    }
  }

  lemma SubscriptComplete(x: Subscript)
    requires x.Valid()
    ensures ParseSubscript(x.Text()).Some?
  {
    var s := x.Text();
    match x
    case IndexSub(n) =>
      Pieces("[", n.Text(), "]");
      NumberRoundTrip(n);
    case IndexMacro(m) =>
      Pieces("[", m.Text(), "]");
      MacroRoundTrip(m);
    case MatchSub(c) =>
      PairSound(|s|);
      forall i | 0 <= i < |c.elems|
        ensures PairText(c.elems[i]) != "" && Accepts(ParsePair, PairText(c.elems[i]))
      {
        PairComplete(c.elems[i]);
      }
      ArrayComplete("{", "}", c, ParsePair, PairText, PairValid);
      ArrayOpens("{", "}", c, PairText);
  }

  /** A subscript ends with `]` or `}`. */
  lemma SubscriptEnds(x: Subscript)
    ensures |x.Text()| > 0 && (x.Text()[|x.Text()| - 1] == ']' || x.Text()[|x.Text()| - 1] == '}')
  {
    if x.MatchSub? { ArrayOpens("{", "}", x.c, PairText); }
  }

  /** Every well-formed node is accepted, and none ends with a `.`. */
  lemma NodeComplete(n: Node)
    requires n.Valid()
    ensures |n.Text()| > 0 && ParseNode(n.Text()).Some?
    ensures n.Text()[|n.Text()| - 1] != '.'
  {
    match n
    case QuotedNode(str) =>
      StringComplete(str);
      QuotesMatch(str);
      assert ParseString(n.Text()).Some?;
    case Step(name, sub) =>
      StepComplete(name, sub);
      StepEnd(name, sub);
  }

  /** A name and its subscript are accepted as a node. */
  lemma StepComplete(name: NodeName, sub: Option<Subscript>)
    requires name.Valid() && (sub.Some? ==> sub.value.Valid())
    ensures ParseNode(Step(name, sub).Text()).Some?
  {
    var a := name.Text();
    var b := if sub.Some? then sub.value.Text() else "";
    var s := Step(name, sub).Text();
    assert s == a + b;
    Parts(a, b);
    NodeNameRoundTrip(name);
    if sub.Some? {
      SubscriptComplete(sub.value);
    }
    assert StepAt(s, |a|).Some?;
    StepFound(s, |a|);
  }

  lemma StepFound(s: string, k: nat)
    requires 1 <= k <= |s| && StepAt(s, k).Some?
    ensures ParseNode(s).Some?
  {
    FirstSomeFinds(1, |s|, (k: nat) requires 1 <= k <= |s| => StepAt(s, k), k);
  }

  /** A name with its optional subscript is not empty and does not end with a `.`. */
  lemma StepEnd(name: NodeName, sub: Option<Subscript>)
    requires name.Valid()
    ensures var s := Step(name, sub).Text(); |s| > 0 && s[|s| - 1] != '.'
  {
    var a := name.Text();
    var s := Step(name, sub).Text();
    NodeNameRoundTrip(name);
    if name.FieldMacro? { MacroEnds(a); }
    if sub.Some? {
      SubscriptEnds(sub.value);
      var b := sub.value.Text();
      assert s == a + b;
      assert s[|s| - 1] == b[|b| - 1];
    } else {
      assert s == a;
    }
  }

  lemma SegmentComplete(x: PathSegment)
    requires SegmentValid(x)
    ensures SegmentText(x) != "" && ParseSegment(SegmentText(x)).Some?
  {
    var s := SegmentText(x);
    NodeComplete(x.node);
    if x.dot {
      assert s[..|s| - 1] == x.node.Text();
      assert ParseNode(s[..|s| - 1]).Some?;
    } else {
      assert s == x.node.Text();
    }
  }

  /** Every well-formed path is accepted. */
  lemma PathComplete(p: Path)
    requires p.Valid()
    ensures ParsePath(p.Text()).Some?
  {
    var s := p.Text();
    var rt := p.root.Text();
    var rest := Concat(Texts(p.segments, SegmentText));
    RootRoundTrip(p.root);
    Pieces(rt, rest, "");
    forall j | 0 <= j < |rt| - 1
      ensures s[j] != '.'
    {
      assert s[j] == rt[j];
    }
    assert s[|rt| - 1] == '.';
    assert IndexOf(s, '.') == |rt| - 1;
    SegmentSound(|rest| + 1);
    forall i | 0 <= i < |p.segments|
      ensures SegmentText(p.segments[i]) != "" && Accepts(ParseSegment, SegmentText(p.segments[i]))
    {
      SegmentComplete(p.segments[i]);
    }
    ManyComplete(p.segments, ParseSegment, SegmentText, SegmentValid);
  }

  /** Node names are not split at a fixed place: `a.bc` is one node `bc`, or `b` and `c` back to back. */
  lemma SegmentAmbiguity()
    ensures var one := Path(RootName("a"), [PathSegment(Step(FieldName("bc"), None), false)]);
      var two := Path(RootName("a"), [PathSegment(Step(FieldName("b"), None), false), PathSegment(Step(FieldName("c"), None), false)]);
      one.Valid() && two.Valid() && one != two && one.Text() == "a.bc" == two.Text()
  {
    var one := [PathSegment(Step(FieldName("bc"), None), false)];
    var two := [PathSegment(Step(FieldName("b"), None), false), PathSegment(Step(FieldName("c"), None), false)];
    assert SegmentText(one[0]) == "bc";
    assert SegmentText(two[0]) == "b" && SegmentText(two[1]) == "c";
    assert Texts(one, SegmentText) == ["bc"] + Texts([], SegmentText);
    assert two[1..] == [two[1]];
    assert Texts(two, SegmentText) == ["b"] + Texts([two[1]], SegmentText);
    assert Texts([two[1]], SegmentText) == ["c"] + Texts([], SegmentText);
    assert Texts(two, SegmentText) == ["b", "c"];
    assert Concat(["b", "c"]) == "bc";
    assert Concat(["bc"]) == "bc";
    assert All("a", IsRootChar) && All("bc", IsFieldChar) && All("b", IsFieldChar) && All("c", IsFieldChar);
    assert SegmentValid(two[0]) && SegmentValid(two[1]) && SegmentValid(one[0]);
    assert AllValid(one, SegmentValid) && AllValid(two, SegmentValid);
    var p1, p2 := Path(RootName("a"), one), Path(RootName("a"), two);
    assert p1.Valid() && p2.Valid();
    assert p1 != p2 by { assert |p1.segments| != |p2.segments|; }
    assert p1.Text() == "a." + "bc" == "a.bc";
  }
}
