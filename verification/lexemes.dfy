/**
 * Lexical leaves of the grammar: `macro`, `word`, `resource`, `position` and
 * `rotation`, `operator`, and the closed keyword lists `boolean`, `type`,
 * `heightmap`, `scoreboard_criteria` (with `_color`) and `slot`
 * (grammar.js:80-85, 128-132, 153-159, 185-186, 195-241).
 */
module Lexemes {
  import opened Base
  import opened Numbers
  import opened Combinators

  // ---------------------------------------------------------------------------
  // macro

  /** `macro`: `$(name)`, or `%[name]` as written by the Mime preprocessor. */
  datatype Macro = Macro(percent: bool, name: string)
  {
    predicate Valid() { Run1(name, IsIdentChar) }

    function Text(): string
    {
      if percent then "%[" + name + "]" else "$(" + name + ")"
    }
  }

  /** The macro framed by `open` and `close` in `s`. */
  function MacroIn(s: string, percent: bool, open: string, close: string): (r: Option<Macro>)
    requires open == (if percent then "%[" else "$(") && close == (if percent then "]" else ")")
    ensures r.Some? ==> r.value.Valid() && r.value.Text() == s && r.value.percent == percent
  {
    if |s| >= 3 && s[..2] == open && s[|s| - 1..] == close && Run1(s[2..|s| - 1], IsIdentChar) then
      Framed(s, open, close);
      Some(Macro(percent, s[2..|s| - 1]))
    else None
  }

  /** Reads `s` as one `macro`. */
  function ParseMacro(s: string): (r: Option<Macro>)
    ensures r.Some? ==> r.value.Valid() && r.value.Text() == s
  {
    Or(MacroIn(s, false, "$(", ")"), MacroIn(s, true, "%[", "]"))
  }

  lemma MacroRoundTrip(m: Macro)
    requires m.Valid()
    ensures ParseMacro(m.Text()) == Some(m)
  {
    if m.percent {
      Pieces("%[", m.name, "]");
      assert m.Text()[0] == '%';
    } else {
      Pieces("$(", m.name, ")");
    }
  }

  /** A macro begins with `$` or `%`, and ends with `)` or `]`. */
  lemma MacroEnds(s: string)
    ensures ParseMacro(s).Some? ==> |s| >= 4 && (s[0] == '$' || s[0] == '%') && (s[|s| - 1] == ')' || s[|s| - 1] == ']')
  {
    if ParseMacro(s).Some? {
      var m := ParseMacro(s).value;
      if m.percent {
        assert s == "%[" + m.name + "]";
      } else {
        assert s == "$(" + m.name + ")";
      }
    }
  }

  // ---------------------------------------------------------------------------
  // word

  /** `[0-9a-zA-Z_+\-]`. */
  predicate IsWordChar(c: char)
  {
    IsDigit(c) || IsLetter(c) || c == '_' || c == '+' || c == '-'
  }

  /** `[a-zA-Z_\+\-]`: a word char that is not a digit. */
  predicate IsWordStart(c: char)
  {
    IsLetter(c) || c == '_' || c == '+' || c == '-'
  }

  /** `word`: `#` and word chars, or an optional `.` then a word char that is not a digit and more word chars. */
  datatype Word = Tag(name: string) | Plain(dot: bool, name: string)
  {
    predicate Valid()
    {
      match this
      case Tag(name) => Run1(name, IsWordChar)
      case Plain(_, name) => |name| > 0 && IsWordStart(name[0]) && All(name, IsWordChar)
    }

    function Text(): string
    {
      match this
      case Tag(name) => "#" + name
      case Plain(dot, name) => (if dot then "." else "") + name
    }
  }

  function PlainWord(dot: bool, name: string): (r: Option<Word>)
    ensures r.Some? ==> r.value.Valid() && r.value == Plain(dot, name)
  {
    if |name| > 0 && IsWordStart(name[0]) && All(name, IsWordChar) then Some(Plain(dot, name)) else None
  }

  /** Reads `s` as one `word`. */
  function ParseWord(s: string): (r: Option<Word>)
    ensures r.Some? ==> r.value.Valid() && r.value.Text() == s
  {
    if |s| > 0 && s[0] == '#' then
      assert s == "#" + s[1..];
      if Run1(s[1..], IsWordChar) then Some(Tag(s[1..])) else None
    else if |s| > 0 && s[0] == '.' then
      assert s == "." + s[1..];
      PlainWord(true, s[1..])
    else PlainWord(false, s)
  }

  lemma WordRoundTrip(w: Word)
    requires w.Valid()
    ensures ParseWord(w.Text()) == Some(w)
  {
    var s := w.Text();
    match w
    case Tag(name) => assert s[1..] == name;
    case Plain(dot, name) =>
      if dot {
        assert s[1..] == name;
      } else {
        assert s == name;
      }
  }

  // ---------------------------------------------------------------------------
  // resource

  /** `[a-z_]`-namespaced or `./`-relative start of a `resource`. */
  datatype ResourceHead = Relative | Namespaced(tag: bool, ns: string)
  {
    predicate Valid() { Namespaced? ==> Run1(ns, IsIdentChar) }

    function Text(): string
    {
      match this
      case Relative => "./"
      case Namespaced(tag, ns) => (if tag then "#" else "") + ns + ":"
    }
  }

  /** `[a-z0-9_\.\+\-]`. */
  predicate IsSegmentChar(c: char)
  {
    IsLower(c) || IsDigit(c) || c == '_' || c == '.' || c == '+' || c == '-'
  }

  /** One item of a resource's path: a macro, a `/`, or a run of segment chars. */
  datatype ResourcePart = PartMacro(m: Macro) | Slash | Segment(chars: string)

  predicate PartValid(p: ResourcePart)
  {
    match p
    case PartMacro(m) => m.Valid()
    case Slash => true
    case Segment(chars) => Run1(chars, IsSegmentChar)
  }

  function PartText(p: ResourcePart): string
  {
    match p
    case PartMacro(m) => m.Text()
    case Slash => "/"
    case Segment(chars) => chars
  }

  /** Reads `s` as one path item, trying the alternatives in the order the grammar lists them. */
  function ParsePart(s: string): (r: Option<ResourcePart>)
    ensures r.Some? ==> PartValid(r.value) && PartText(r.value) == s
  {
    var m := ParseMacro(s);
    if m.Some? then Some(PartMacro(m.value))
    else if s == "/" then Some(Slash)
    else if Run1(s, IsSegmentChar) then Some(Segment(s))
    else None
  }

  lemma PartSound(n: nat)
    ensures Sound(n, ParsePart, PartText, PartValid)
  {
  }

  /** `resource`: a head, then one or more path items written back to back. */
  datatype Resource = Resource(head: ResourceHead, parts: seq<ResourcePart>)
  {
    predicate Valid() { head.Valid() && |parts| > 0 && AllValid(parts, PartValid) }

    function Text(): string { head.Text() + Concat(Texts(parts, PartText)) }
  }

  /** The head at the start of `s`, and where it ends. */
  function ParseHead(s: string): (r: Option<(ResourceHead, nat)>)
    ensures r.Some? ==> r.value.1 <= |s| && r.value.0.Valid() && r.value.0.Text() == s[..r.value.1]
  {
    if |s| >= 2 && s[..2] == "./" then Some((Relative, 2))
    else
      var i := IndexOf(s, ':');
      var tag := |s| > 0 && s[0] == '#';
      var a := if tag then 1 else 0;
      if a <= i < |s| && Run1(s[a..i], IsIdentChar) then
        assert s[..i + 1] == (if tag then "#" else "") + s[a..i] + ":";
        Some((Namespaced(tag, s[a..i]), i + 1))
      else None
  }

  /** Reads `s` as one `resource`; path items are split at the first place that works. */
  function ParseResource(s: string): (r: Option<Resource>)
    ensures r.Some? ==> r.value.Valid() && r.value.Text() == s
  {
    var h := ParseHead(s);
    if h.None? then None
    else
      var rest := s[h.value.1..];
      PartSound(|rest| + 1);
      var ps := Many1(rest, ParsePart, PartText, PartValid);
      if ps.None? then None
      else
        assert s == s[..h.value.1] + rest;
        Some(Resource(h.value.0, ps.value))
  }

  /** A head never contains a `/`-free prefix that is itself another head: it is read back exactly. */
  lemma HeadRoundTrip(h: ResourceHead, rest: string)
    requires h.Valid()
    ensures ParseHead(h.Text() + rest) == Some((h, |h.Text()|))
  {
    if h.Relative? {
      assert (h.Text() + rest)[..2] == "./";
    } else {
      NamespacedRoundTrip(h.tag, h.ns, rest);
    }
  }

  /** A namespace head is read back up to its first `:`. */
  lemma NamespacedRoundTrip(tag: bool, ns: string, rest: string)
    requires Run1(ns, IsIdentChar)
    ensures ParseHead(Namespaced(tag, ns).Text() + rest) == Some((Namespaced(tag, ns), |Namespaced(tag, ns).Text()|))
  {
    if tag {
      assert Namespaced(tag, ns).Text() + rest == "#" + (ns + ":" + rest);
      TaggedRoundTrip(ns, rest);
    } else {
      assert Namespaced(tag, ns).Text() + rest == ns + ":" + rest;
      UntaggedRoundTrip(ns, rest);
    }
  }

  lemma TaggedRoundTrip(ns: string, rest: string)
    requires Run1(ns, IsIdentChar)
    ensures ParseHead("#" + (ns + ":" + rest)) == Some((Namespaced(true, ns), |ns| + 2))
  {
    var s := "#" + (ns + ":" + rest);
    ColonAfter(ns, rest);
    assert forall j :: 1 <= j <= |ns| + 1 ==> s[j] == (ns + ":" + rest)[j - 1];
    IndexOfIs(s, ':', |ns| + 1);
    assert s[1..|ns| + 1] == ns;
  }

  lemma UntaggedRoundTrip(ns: string, rest: string)
    requires Run1(ns, IsIdentChar)
    ensures ParseHead(ns + ":" + rest) == Some((Namespaced(false, ns), |ns| + 1))
  {
    var s := ns + ":" + rest;
    ColonAfter(ns, rest);
    IndexOfIs(s, ':', |ns|);
    assert s[0..|ns|] == ns;
  }

  /** In an identifier followed by `:`, the first `:` ends the identifier. */
  lemma ColonAfter(ns: string, rest: string)
    requires All(ns, IsIdentChar)
    ensures |ns + ":" + rest| > |ns| && (ns + ":" + rest)[|ns|] == ':'
    ensures forall j :: 0 <= j < |ns| ==> (ns + ":" + rest)[j] != ':' && IsIdentChar((ns + ":" + rest)[j])
  {
  }

  /** A resource is accepted once its head is read and its path items are accepted. */
  lemma ResourceFrom(s: string, h: ResourceHead, n: nat)
    requires n <= |s| && ParseHead(s) == Some((h, n))
    requires Sound(|s[n..]| + 1, ParsePart, PartText, PartValid) && Many1(s[n..], ParsePart, PartText, PartValid).Some?
    ensures ParseResource(s).Some?
  {
  }

  /** Every well-formed resource is accepted, although its path items may come back split differently. */
  lemma ResourceComplete(x: Resource)
    requires x.Valid()
    ensures ParseResource(x.Text()).Some?
  {
    var s := x.Text();
    var body := Concat(Texts(x.parts, PartText));
    HeadRoundTrip(x.head, body);
    Pieces(x.head.Text(), body, "");
    assert s[|x.head.Text()|..] == body by {
      assert s == x.head.Text() + body + "";
    }
    assert Many1(body, ParsePart, PartText, PartValid).Some? by {
      PartSound(|body| + 1);
      forall i | 0 <= i < |x.parts|
        ensures PartText(x.parts[i]) != "" && Accepts(ParsePart, PartText(x.parts[i]))
      {
        PartAccepted(x.parts[i]);
      }
      ManyComplete(x.parts, ParsePart, PartText, PartValid);
    }
    PartSound(|body| + 1);
    ResourceFrom(s, x.head, |x.head.Text()|);
  }

  lemma PartAccepted(p: ResourcePart)
    requires PartValid(p)
    ensures PartText(p) != "" && ParsePart(PartText(p)).Some?
  {
    if p.PartMacro? { MacroRoundTrip(p.m); }
  }

  /** The path items of a resource are not unique: `a:bc` is one segment or two. */
  lemma ResourceSplitWitness()
    ensures Resource(Namespaced(false, "a"), [Segment("bc")]).Text()
         == Resource(Namespaced(false, "a"), [Segment("b"), Segment("c")]).Text()
  {
    assert Texts([Segment("b"), Segment("c")], PartText) == ["b", "c"] by {
      assert [Segment("b"), Segment("c")][1..] == [Segment("c")];
    }
    assert Concat(["b", "c"]) == "bc" by {
      assert ["b", "c"][1..] == ["c"];
    }
  }

  // ---------------------------------------------------------------------------
  // position / rotation

  /** `position` starts with `~`, `rotation` with `^`. */
  datatype CoordKind = Position | Rotation

  /** The optional offset after `~` or `^`: an `integer`, a `float` or a `macro`. */
  datatype Offset = IntOffset(i: IntegerLit) | FloatOffset(f: FloatLit) | MacroOffset(m: Macro)
  {
    predicate Valid()
    {
      match this
      case IntOffset(i) => i.Valid()
      case FloatOffset(f) => f.Valid()
      case MacroOffset(m) => m.Valid()
    }

    function Text(): string
    {
      match this
      case IntOffset(i) => i.Text()
      case FloatOffset(f) => f.Text()
      case MacroOffset(m) => m.Text()
    }
  }

  datatype Coordinate = Coordinate(kind: CoordKind, offset: Option<Offset>)
  {
    predicate Valid() { offset.Some? ==> offset.value.Valid() }

    function Text(): string
    {
      (if kind == Position then "~" else "^") + (if offset.Some? then offset.value.Text() else "")
    }
  }

  function ParseOffset(s: string): (r: Option<Offset>)
    ensures r.Some? ==> r.value.Valid() && r.value.Text() == s
  {
    var i := ParseInteger(s);
    if i.Some? then Some(IntOffset(i.value))
    else
      var f := ParseFloat(s);
      if f.Some? then Some(FloatOffset(f.value))
      else
        var m := ParseMacro(s);
        if m.Some? then Some(MacroOffset(m.value)) else None
  }

  /** Reads `s` as one `position` or `rotation`. */
  function ParseCoordinate(s: string): (r: Option<Coordinate>)
    ensures r.Some? ==> r.value.Valid() && r.value.Text() == s
  {
    if |s| > 0 && (s[0] == '~' || s[0] == '^') then
      var kind := if s[0] == '~' then Position else Rotation;
      assert s == [s[0]] + s[1..];
      if |s| == 1 then Some(Coordinate(kind, None))
      else
        var o := ParseOffset(s[1..]);
        if o.Some? then Some(Coordinate(kind, Some(o.value))) else None
    else None
  }

  /** An `integer` or `float` begins with a minus, a point or a digit, which no macro does. */
  lemma NumericStart(s: string)
    ensures ParseInteger(s).Some? || ParseFloat(s).Some? ==> |s| > 0 && (s[0] == '-' || s[0] == '.' || IsDigit(s[0]))
  {
    if ParseInteger(s).Some? {
      var x := ParseInteger(s).value;
      if !x.negative { assert s[0] == x.digits[0]; }
    } else if ParseFloat(s).Some? {
      var x := ParseFloat(s).value;
      if !x.negative && x.whole != [] { assert s[0] == x.whole[0]; }
    }
  }

  /** The three offset forms never overlap, so the offset is read back exactly. */
  lemma OffsetRoundTrip(o: Offset)
    requires o.Valid()
    ensures ParseOffset(o.Text()) == Some(o)
  {
    var s := o.Text();
    match o
    case IntOffset(i) => IntegerRoundTrip(i);
    case FloatOffset(f) =>
      FloatRoundTrip(f);
      IntegerHasNoPoint(s);
      assert s[|SignText(f.negative)| + |f.whole|] == '.';
    case MacroOffset(m) =>
      MacroRoundTrip(m);
      MacroEnds(s);
      NumericStart(s);
  }

  lemma CoordinateRoundTrip(c: Coordinate)
    requires c.Valid()
    ensures ParseCoordinate(c.Text()) == Some(c)
  {
    var s := c.Text();
    if c.offset.Some? {
      OffsetRoundTrip(c.offset.value);
      assert s[1..] == c.offset.value.Text();
    }
  }

  // ---------------------------------------------------------------------------
  // operator and keyword lists

  /** `operator`. */
  datatype Operator = Assign | AddAssign | SubAssign | MulAssign | DivAssign | ModAssign | Swap | Less | Greater
  {
    function Text(): string
    {
      match this
      case Assign => "="
      case AddAssign => "+="
      case SubAssign => "-="
      case MulAssign => "*="
      case DivAssign => "/="
      case ModAssign => "%="
      case Swap => "><"
      case Less => "<"
      case Greater => ">"
    }
  }

  function ParseOperator(s: string): (r: Option<Operator>)
    ensures r.Some? ==> r.value.Text() == s
  {
    match s
    case "=" => Some(Assign)
    case "+=" => Some(AddAssign)
    case "-=" => Some(SubAssign)
    case "*=" => Some(MulAssign)
    case "/=" => Some(DivAssign)
    case "%=" => Some(ModAssign)
    case "><" => Some(Swap)
    case "<" => Some(Less)
    case ">" => Some(Greater)
    case _ => None
  }

  lemma OperatorRoundTrip(o: Operator)
    ensures ParseOperator(o.Text()) == Some(o)
  {
  }

  /** `boolean`. */
  datatype BoolLit = FalseLit | TrueLit
  {
    function Text(): string { if TrueLit? then "true" else "false" }
  }

  function ParseBool(s: string): (r: Option<BoolLit>)
    ensures r.Some? ==> r.value.Text() == s
  {
    match s
    case "false" => Some(FalseLit)
    case "true" => Some(TrueLit)
    case _ => None
  }

  lemma BoolRoundTrip(b: BoolLit)
    ensures ParseBool(b.Text()) == Some(b)
  {
  }

  /** `type`: the NBT primitive type names. */
  datatype TypeName = ByteType | ShortType | IntType | LongType | FloatType | DoubleType
  {
    function Text(): string
    {
      match this
      case ByteType => "byte"
      case ShortType => "short"
      case IntType => "int"
      case LongType => "long"
      case FloatType => "float"
      case DoubleType => "double"
    }
  }

  function ParseTypeName(s: string): (r: Option<TypeName>)
    ensures r.Some? ==> r.value.Text() == s
  {
    match s
    case "byte" => Some(ByteType)
    case "short" => Some(ShortType)
    case "int" => Some(IntType)
    case "long" => Some(LongType)
    case "float" => Some(FloatType)
    case "double" => Some(DoubleType)
    case _ => None
  }

  lemma TypeNameRoundTrip(t: TypeName)
    ensures ParseTypeName(t.Text()) == Some(t)
  {
  }

  /** `heightmap`. */
  datatype Heightmap = WorldSurface | MotionBlocking | MotionBlockingNoLeaves | OceanFloor
  {
    function Text(): string
    {
      match this
      case WorldSurface => "world_surface"
      case MotionBlocking => "motion_blocking"
      case MotionBlockingNoLeaves => "motion_blocking_no_leaves"
      case OceanFloor => "ocean_floor"
    }
  }

  function ParseHeightmap(s: string): (r: Option<Heightmap>)
    ensures r.Some? ==> r.value.Text() == s
  {
    match s
    case "world_surface" => Some(WorldSurface)
    case "motion_blocking" => Some(MotionBlocking)
    case "motion_blocking_no_leaves" => Some(MotionBlockingNoLeaves)
    case "ocean_floor" => Some(OceanFloor)
    case _ => None
  }

  lemma HeightmapRoundTrip(h: Heightmap)
    ensures ParseHeightmap(h.Text()) == Some(h)
  {
  }

  /** `_color`: the sixteen team colours. */
  datatype Color =
    | Black | DarkBlue | DarkGreen | DarkAqua | DarkRed | DarkPurple | Gold | Gray
    | DarkGray | Blue | Green | Aqua | Red | LightPurple | Yellow | White
  {
    function Text(): string
    {
      match this
      case Black => "black"
      case DarkBlue => "dark_blue"
      case DarkGreen => "dark_green"
      case DarkAqua => "dark_aqua"
      case DarkRed => "dark_red"
      case DarkPurple => "dark_purple"
      case Gold => "gold"
      case Gray => "gray"
      case DarkGray => "dark_gray"
      case Blue => "blue"
      case Green => "green"
      case Aqua => "aqua"
      case Red => "red"
      case LightPurple => "light_purple"
      case Yellow => "yellow"
      case White => "white"
    }
  }

  function ParseColor(s: string): (r: Option<Color>)
    ensures r.Some? ==> r.value.Text() == s
  {
    match s
    case "black" => Some(Black)
    case "dark_blue" => Some(DarkBlue)
    case "dark_green" => Some(DarkGreen)
    case "dark_aqua" => Some(DarkAqua)
    case "dark_red" => Some(DarkRed)
    case "dark_purple" => Some(DarkPurple)
    case "gold" => Some(Gold)
    case "gray" => Some(Gray)
    case "dark_gray" => Some(DarkGray)
    case "blue" => Some(Blue)
    case "green" => Some(Green)
    case "aqua" => Some(Aqua)
    case "red" => Some(Red)
    case "light_purple" => Some(LightPurple)
    case "yellow" => Some(Yellow)
    case "white" => Some(White)
    case _ => None
  }

  lemma ColorRoundTrip(c: Color)
    ensures ParseColor(c.Text()) == Some(c)
  {
  }

  /** Every colour name begins with a lower-case letter. */
  lemma ColorStart(s: string)
    ensures ParseColor(s).Some? ==> |s| > 0 && IsLower(s[0])
  {
  }

  /** The plain `scoreboard_criteria` names. */
  datatype Criterion =
    | Dummy | Trigger | DeathCount | PlayerKillCount | TotalKillCount | Health | Xp | Level | Food | Air | ArmorPoints
  {
    function Text(): string
    {
      match this
      case Dummy => "dummy"
      case Trigger => "trigger"
      case DeathCount => "deathCount"
      case PlayerKillCount => "playerKillCount"
      case TotalKillCount => "totalKillCount"
      case Health => "health"
      case Xp => "xp"
      case Level => "level"
      case Food => "food"
      case Air => "air"
      case ArmorPoints => "armor"
    }
  }

  function ParseCriterion(s: string): (r: Option<Criterion>)
    ensures r.Some? ==> r.value.Text() == s
  {
    match s
    case "dummy" => Some(Dummy)
    case "trigger" => Some(Trigger)
    case "deathCount" => Some(DeathCount)
    case "playerKillCount" => Some(PlayerKillCount)
    case "totalKillCount" => Some(TotalKillCount)
    case "health" => Some(Health)
    case "xp" => Some(Xp)
    case "level" => Some(Level)
    case "food" => Some(Food)
    case "air" => Some(Air)
    case "armor" => Some(ArmorPoints)
    case _ => None
  }

  /** The team of a `teamkill.` or `killedByTeam.` criterion: a colour or a macro. */
  datatype TeamRef = TeamColor(color: Color) | TeamMacro(m: Macro)
  {
    predicate Valid() { TeamMacro? ==> m.Valid() }

    function Text(): string
    {
      match this
      case TeamColor(c) => c.Text()
      case TeamMacro(m) => m.Text()
    }
  }

  /** `scoreboard_criteria`. */
  datatype Criteria = Named(c: Criterion) | TeamKill(team: TeamRef) | KilledByTeam(team: TeamRef)
  {
    predicate Valid() { !Named? ==> team.Valid() }

    function Text(): string
    {
      match this
      case Named(c) => c.Text()
      case TeamKill(t) => "teamkill." + t.Text()
      case KilledByTeam(t) => "killedByTeam." + t.Text()
    }
  }

  function ParseTeamRef(s: string): (r: Option<TeamRef>)
    ensures r.Some? ==> r.value.Valid() && r.value.Text() == s
  {
    var c := ParseColor(s);
    if c.Some? then Some(TeamColor(c.value))
    else
      var m := ParseMacro(s);
      if m.Some? then Some(TeamMacro(m.value)) else None
  }

  /** Reads `s` as one `scoreboard_criteria`. */
  function ParseCriteria(s: string): (r: Option<Criteria>)
    ensures r.Some? ==> r.value.Valid() && r.value.Text() == s
  {
    var c := ParseCriterion(s);
    if c.Some? then Some(Named(c.value))
    else if StartsWith(s, "teamkill.") then
      SplitAt(s, 0, "teamkill.");
      var t := ParseTeamRef(s[9..]);
      if t.Some? then Some(TeamKill(t.value)) else None
    else if StartsWith(s, "killedByTeam.") then
      SplitAt(s, 0, "killedByTeam.");
      var t := ParseTeamRef(s[13..]);
      if t.Some? then Some(KilledByTeam(t.value)) else None
    else None
  }

  lemma TeamRefRoundTrip(t: TeamRef)
    requires t.Valid()
    ensures ParseTeamRef(t.Text()) == Some(t)
  {
    match t
    case TeamColor(c) =>
      ColorRoundTrip(c);
    case TeamMacro(m) =>
      MacroRoundTrip(m);
      MacroEnds(m.Text());
      ColorStart(m.Text());
  }

  lemma CriterionRoundTrip(c: Criterion)
    ensures ParseCriterion(c.Text()) == Some(c)
  {
  }

  /** No plain criterion name contains a point. */
  lemma CriterionHasNoPoint(s: string)
    ensures ParseCriterion(s).Some? ==> forall j :: 0 <= j < |s| ==> s[j] != '.'
  {
  }

  /** The two team criteria are read back through their prefixes. */
  lemma TeamCriteriaText(prefix: string, t: TeamRef)
    requires prefix == "teamkill." || prefix == "killedByTeam."
    ensures StartsWith(prefix + t.Text(), prefix) && (prefix + t.Text())[|prefix|..] == t.Text()
    ensures ParseCriterion(prefix + t.Text()).None?
    ensures StartsWith(prefix + t.Text(), "teamkill.") <==> prefix == "teamkill."
  {
    var s := prefix + t.Text();
    Pieces("", prefix, t.Text());
    assert s[|prefix| - 1] == '.';
    CriterionHasNoPoint(s);
    assert s[0] == prefix[0];
    assert s[..9][0] == s[0] by { assert |s| >= 9; }
  }

  /** `scoreboard_criteria` is unambiguous: the parser gives back the criteria that were printed. */
  lemma CriteriaRoundTrip(x: Criteria)
    requires x.Valid()
    ensures ParseCriteria(x.Text()) == Some(x)
  {
    match x
    case Named(c) => CriterionRoundTrip(c);
    case TeamKill(t) => TeamKillRoundTrip(t);
    case KilledByTeam(t) => KilledByTeamRoundTrip(t);
  }

  lemma TeamKillRoundTrip(t: TeamRef)
    requires t.Valid()
    ensures ParseCriteria("teamkill." + t.Text()) == Some(TeamKill(t))
  {
    TeamRefRoundTrip(t);
    TeamCriteriaText("teamkill.", t);
  }

  lemma KilledByTeamRoundTrip(t: TeamRef)
    requires t.Valid()
    ensures ParseCriteria("killedByTeam." + t.Text()) == Some(KilledByTeam(t))
  {
    TeamRefRoundTrip(t);
    TeamCriteriaText("killedByTeam.", t);
  }

  // ---------------------------------------------------------------------------
  // slot

  /** The containers whose slots are written `name.` and one index character. */
  datatype SlotGroup = ContainerSlots | HotbarSlots | InventorySlots | EnderchestSlots | VillagerSlots | HorseSlots | CraftingSlots
  {
    function Text(): string
    {
      match this
      case ContainerSlots => "container"
      case HotbarSlots => "hotbar"
      case InventorySlots => "inventory"
      case EnderchestSlots => "enderchest"
      case VillagerSlots => "villager"
      case HorseSlots => "horse"
      case CraftingSlots => "player.crafting"
    }
  }

  function ParseSlotGroup(s: string): (r: Option<SlotGroup>)
    ensures r.Some? ==> r.value.Text() == s
  {
    match s
    case "container" => Some(ContainerSlots)
    case "hotbar" => Some(HotbarSlots)
    case "inventory" => Some(InventorySlots)
    case "enderchest" => Some(EnderchestSlots)
    case "villager" => Some(VillagerSlots)
    case "horse" => Some(HorseSlots)
    case "player.crafting" => Some(CraftingSlots)
    case _ => None
  }

  /** The groups whose slots are written `name.` and `*` or a lower-case name. */
  datatype Equipment = WeaponSlots | ArmorSlots | HorseEquipment
  {
    function Text(): string
    {
      match this
      case WeaponSlots => "weapon"
      case ArmorSlots => "armor"
      case HorseEquipment => "horse"
    }
  }

  function ParseEquipment(s: string): (r: Option<Equipment>)
    ensures r.Some? ==> r.value.Text() == s
  {
    match s
    case "weapon" => Some(WeaponSlots)
    case "armor" => Some(ArmorSlots)
    case "horse" => Some(HorseEquipment)
    case _ => None
  }

  /**
   * `[\*(\d+)]`: a character class, so exactly one of `*`, `(`, a digit,
   * `+` or `)`; `container.12` is not a slot, while `container.(` is.
   */
  predicate IsSlotIndex(c: char)
  {
    c == '*' || c == '(' || IsDigit(c) || c == '+' || c == ')'
  }

  /** `slot`. */
  datatype Slot = Indexed(group: SlotGroup, index: char) | Contents | PlayerCursor | Equipped(equipment: Equipment, name: string)
  {
    predicate Valid()
    {
      match this
      case Indexed(_, index) => IsSlotIndex(index)
      case Equipped(_, name) => name == "*" || Run1(name, IsLower)
      case _ => true
    }

    function Text(): string
    {
      match this
      case Indexed(g, index) => g.Text() + "." + [index]
      case Contents => "contents"
      case PlayerCursor => "player.cursor"
      case Equipped(e, name) => e.Text() + "." + name
    }
  }

  /** Reads `s` as one `slot`, trying the patterns in the order the grammar lists them. */
  function ParseSlot(s: string): (r: Option<Slot>)
    ensures r.Some? ==> r.value.Valid() && r.value.Text() == s
  {
    var n := |s|;
    var g := if n >= 2 then ParseSlotGroup(s[..n - 2]) else None;
    if n >= 2 && s[n - 2] == '.' && IsSlotIndex(s[n - 1]) && g.Some? then
      assert s == s[..n - 2] + "." + [s[n - 1]];
      Some(Indexed(g.value, s[n - 1]))
    else if s == "contents" then Some(Contents)
    else if s == "player.cursor" then Some(PlayerCursor)
    else
      var i := IndexOf(s, '.');
      var e := ParseEquipment(s[..i]);
      if i < n && e.Some? && (s[i + 1..] == "*" || Run1(s[i + 1..], IsLower)) then
        assert s == s[..i] + "." + s[i + 1..];
        Some(Equipped(e.value, s[i + 1..]))
      else None
  }

  lemma IndexedRoundTrip(g: SlotGroup, index: char)
    requires IsSlotIndex(index)
    ensures ParseSlot(Indexed(g, index).Text()) == Some(Indexed(g, index))
  {
    SlotGroupRoundTrip(g);
    IndexedAt(g.Text(), index, g);
  }

  /** A group name read as `g`, a `.` and an index are read as that indexed slot. */
  lemma IndexedAt(t: string, index: char, g: SlotGroup)
    requires IsSlotIndex(index) && ParseSlotGroup(t) == Some(g)
    ensures ParseSlot(t + "." + [index]) == Some(Indexed(g, index))
  {
    var s := t + "." + [index];
    Pieces(t, ".", [index]);
    assert s[..|s| - 2] == t;
    assert s[|s| - 2] == '.' && s[|s| - 1] == index;
  }

  lemma SlotGroupRoundTrip(g: SlotGroup)
    ensures ParseSlotGroup(g.Text()) == Some(g)
  {
  }

  lemma EquippedRoundTrip(e: Equipment, name: string)
    requires name == "*" || Run1(name, IsLower)
    requires !(e == HorseEquipment && name == "*")
    ensures ParseSlot(Equipped(e, name).Text()) == Some(Equipped(e, name))
  {
    var s := Equipped(e, name).Text();
    var i := |e.Text()|;
    Pieces(e.Text(), ".", name);
    assert s[i] == '.';
    assert forall j :: 0 <= j < i ==> s[j] == e.Text()[j];
    IndexOfIs(s, '.', i);
    assert s[..i] == e.Text() && s[i + 1..] == name;
    assert s != "contents" && s != "player.cursor";
    NotIndexed(e, name);
    EquipmentRoundTrip(e);
  }

  lemma EquipmentRoundTrip(e: Equipment)
    ensures ParseEquipment(e.Text()) == Some(e)
  {
  }

  /** An equipment slot other than `horse.*` does not fit any indexed pattern. */
  lemma NotIndexed(e: Equipment, name: string)
    requires name == "*" || Run1(name, IsLower)
    requires !(e == HorseEquipment && name == "*")
    ensures var s := Equipped(e, name).Text();
      !(|s| >= 2 && s[|s| - 2] == '.' && IsSlotIndex(s[|s| - 1]) && ParseSlotGroup(s[..|s| - 2]).Some?)
  {
    var s := Equipped(e, name).Text();
    if |name| == 1 && name != "*" {
      assert s[|s| - 1] == name[0];
    } else if name == "*" {
      assert s[..|s| - 2] == e.Text();
    }
  }

  /** Every slot is read back exactly, except `horse.*`, which the earlier indexed pattern claims. */
  lemma SlotRoundTrip(x: Slot)
    requires x.Valid()
    ensures ParseSlot(x.Text()).Some?
    ensures x != Equipped(HorseEquipment, "*") ==> ParseSlot(x.Text()) == Some(x)
  {
    match x
    case Indexed(g, index) => IndexedRoundTrip(g, index);
    case Contents =>
    case PlayerCursor =>
    case Equipped(e, name) =>
      if x == Equipped(HorseEquipment, "*") {
        HorseStarAmbiguous();
      } else {
        EquippedRoundTrip(e, name);
      }
  }

  /** `horse.*` is written alike by both the indexed and the equipment pattern, and is read as the indexed one. */
  lemma HorseStarAmbiguous()
    ensures Equipped(HorseEquipment, "*").Text() == Indexed(HorseSlots, '*').Text()
    ensures ParseSlot("horse.*") == Some(Indexed(HorseSlots, '*'))
  {
    SlotGroupRoundTrip(HorseSlots);
    IndexedAt("horse", '*', HorseSlots);
    assert "horse" + "." + ['*'] == "horse.*";
  }

  /** The index is one character: `container.` and two digits is no slot, `container.(` is one. */
  lemma SlotIndexIsOneChar(d1: char, d2: char)
    requires IsDigit(d1) && IsDigit(d2)
    ensures ParseSlot("container." + [d1, d2]) == None
    ensures ParseSlot("container.(") == Some(Indexed(ContainerSlots, '('))
  {
    var t := "container.(";
    assert t[..9] == "container" && t[9] == '.';
    var s := "container." + [d1, d2];
    assert |s| == 12 && s[10] == d1;
    assert s[..9] == "container" && s[9] == '.';
    assert forall j :: 0 <= j < 9 ==> s[j] == s[..9][j];
    IndexOfIs(s, '.', 9);
    UnknownEquipment(s);
  }

  /** A text whose last but one character is not `.` and whose part before the first `.` names no equipment is no slot. */
  lemma UnknownEquipment(s: string)
    requires |s| >= 2 && s[|s| - 2] != '.' && s != "contents" && s != "player.cursor"
    requires IndexOf(s, '.') < |s| && ParseEquipment(s[..IndexOf(s, '.')]).None?
    ensures ParseSlot(s) == None
  {
  }
}
