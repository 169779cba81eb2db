/**
 * The `ARGUMENT` union (grammar.js:14-29): every kind of value a command
 * or an `execute` subcommand takes. The grammar's `choice` is unordered;
 * this model tries the alternatives in the order the list writes them.
 */
module Arguments {
  import opened Base
  import opened Numbers
  import opened Lexemes
  import opened Strings
  import opened Nbt
  import opened Selectors
  import opened Paths

  /** One `ARGUMENT`; `position` and `rotation` share `ACoordinate`, told apart by its kind. */
  datatype Argument =
    | AMacro(m: Macro)
    | ABool(b: BoolLit)
    | AType(t: TypeName)
    | AInt(i: IntegerLit)
    | AFloat(f: FloatLit)
    | ACoordinate(c: Coordinate)
    | AString(str: QuotedString)
    | ASelector(sel: Selector)
    | AResource(res: Resource)
    | ARange(range: Range)
    | ANbt(n: Nbt)
    | APath(path: Path)
    | AOperator(op: Operator)
    | ASlot(slot: Slot)
    | AHeightmap(h: Heightmap)
    | ACriteria(criteria: Criteria)
  {
    predicate Valid()
    {
      match this
      case AMacro(m) => m.Valid()
      case ABool(_) => true
      case AType(_) => true
      case AInt(i) => i.Valid()
      case AFloat(f) => f.Valid()
      case ACoordinate(c) => c.Valid()
      case AString(str) => str.Valid()
      case ASelector(sel) => sel.Valid()
      case AResource(res) => res.Valid()
      case ARange(range) => range.Valid()
      case ANbt(n) => NbtValid(n)
      case APath(path) => path.Valid()
      case AOperator(_) => true
      case ASlot(slot) => slot.Valid()
      case AHeightmap(_) => true
      case ACriteria(criteria) => criteria.Valid()
    }

    function Text(): string
    {
      match this
      case AMacro(m) => m.Text()
      case ABool(b) => b.Text()
      case AType(t) => t.Text()
      case AInt(i) => i.Text()
      case AFloat(f) => f.Text()
      case ACoordinate(c) => c.Text()
      case AString(str) => str.Text()
      case ASelector(sel) => sel.Text()
      case AResource(res) => res.Text()
      case ARange(range) => range.Text()
      case ANbt(n) => NbtText(n)
      case APath(path) => path.Text()
      case AOperator(op) => op.Text()
      case ASlot(slot) => slot.Text()
      case AHeightmap(h) => h.Text()
      case ACriteria(criteria) => criteria.Text()
    }
  }

  /** `macro` and `_primitive_type`. */
  function ParseSimpleArgument(s: string): (r: Option<Argument>)
    ensures r.Some? ==> r.value.Valid() && r.value.Text() == s
  {
    var m := ParseMacro(s);
    if m.Some? then Some(AMacro(m.value))
    else
      var b := ParseBool(s);
      if b.Some? then Some(ABool(b.value))
      else
        var t := ParseTypeName(s);
        if t.Some? then Some(AType(t.value))
        else
          var i := ParseInteger(s);
          if i.Some? then Some(AInt(i.value))
          else
            var f := ParseFloat(s);
            if f.Some? then Some(AFloat(f.value)) else None
  }

  /** `position`, `rotation`, `string`, `selector` and `resource`. */
  function ParseNamingArgument(s: string): (r: Option<Argument>)
    ensures r.Some? ==> r.value.Valid() && r.value.Text() == s
  {
    var c := ParseCoordinate(s);
    if c.Some? then Some(ACoordinate(c.value))
    else
      var q := ParseString(s);
      if q.Some? then Some(AString(q.value))
      else
        var sel := ParseSelector(s);
        if sel.Some? then Some(ASelector(sel.value))
        else
          var res := ParseResource(s);
          if res.Some? then Some(AResource(res.value)) else None
  }

  /** `range`, `_nbt_type`, `path` and `operator`. */
  function ParseStructuredArgument(s: string): (r: Option<Argument>)
    ensures r.Some? ==> r.value.Valid() && r.value.Text() == s
  {
    var g := ParseRange(s);
    if g.Some? then Some(ARange(g.value))
    else
      var n := ParseNbt(s);
      if n.Some? then Some(ANbt(n.value))
      else
        var p := ParsePath(s);
        if p.Some? then Some(APath(p.value))
        else
          var o := ParseOperator(s);
          if o.Some? then Some(AOperator(o.value)) else None
  }

  /** `slot`, `heightmap` and `scoreboard_criteria`. */
  function ParseKeywordArgument(s: string): (r: Option<Argument>)
    ensures r.Some? ==> r.value.Valid() && r.value.Text() == s
  {
    var x := ParseSlot(s);
    if x.Some? then Some(ASlot(x.value))
    else
      var h := ParseHeightmap(s);
      if h.Some? then Some(AHeightmap(h.value))
      else
        var c := ParseCriteria(s);
        if c.Some? then Some(ACriteria(c.value)) else None
  }

  /** Reads `s` as one `ARGUMENT`, the first alternative in list order that accepts it. */
  function ParseArgument(s: string): (r: Option<Argument>)
    ensures r.Some? ==> r.value.Valid() && r.value.Text() == s
  {
    var a := ParseSimpleArgument(s);
    if a.Some? then a
    else
      var b := ParseNamingArgument(s);
      if b.Some? then b
      else
        var c := ParseStructuredArgument(s);
        if c.Some? then c else ParseKeywordArgument(s)
  }

  lemma SimpleAlternatives(s: string)
    ensures ParseMacro(s).Some? || ParseBool(s).Some? || ParseTypeName(s).Some? || ParseInteger(s).Some? || ParseFloat(s).Some?
            ==> ParseSimpleArgument(s).Some?
  {
  }

  lemma NamingAlternatives(s: string)
    ensures ParseCoordinate(s).Some? || ParseString(s).Some? || ParseSelector(s).Some? || ParseResource(s).Some?
            ==> ParseNamingArgument(s).Some?
  {
  }

  lemma StructuredAlternatives(s: string)
    ensures ParseRange(s).Some? || ParseNbt(s).Some? || ParsePath(s).Some? || ParseOperator(s).Some?
            ==> ParseStructuredArgument(s).Some?
  {
  }

  lemma KeywordAlternatives(s: string)
    ensures ParseSlot(s).Some? || ParseHeightmap(s).Some? || ParseCriteria(s).Some?
            ==> ParseKeywordArgument(s).Some?
  {
  }

  lemma ArgumentAlternatives(s: string)
    ensures ParseSimpleArgument(s).Some? || ParseNamingArgument(s).Some? || ParseStructuredArgument(s).Some? || ParseKeywordArgument(s).Some?
            ==> ParseArgument(s).Some?
  {
  }

  /** Every well-formed argument is accepted, possibly as an earlier alternative with the same text. */
  lemma ArgumentComplete(a: Argument)
    requires a.Valid()
    ensures a.Text() != "" && ParseArgument(a.Text()).Some?
  {
    ArgumentAlternatives(a.Text());
    if a.AMacro? || a.ABool? || a.AType? || a.AInt? || a.AFloat? {
      SimpleComplete(a);
    } else if a.ACoordinate? || a.AString? || a.ASelector? || a.AResource? {
      NamingComplete(a);
    } else if a.ARange? || a.ANbt? || a.APath? || a.AOperator? {
      StructuredComplete(a);
    } else {
      KeywordComplete(a);
    }
  }

  lemma SimpleComplete(a: Argument)
    requires a.Valid() && (a.AMacro? || a.ABool? || a.AType? || a.AInt? || a.AFloat?)
    ensures a.Text() != "" && ParseSimpleArgument(a.Text()).Some?
  {
    var s := a.Text();
    SimpleAlternatives(s);
    if a.AMacro? {
      MacroRoundTrip(a.m);
      MacroEnds(s);
    } else if a.ABool? {
      BoolRoundTrip(a.b);
    } else if a.AType? {
      TypeNameRoundTrip(a.t);
    } else if a.AInt? {
      IntegerRoundTrip(a.i);
    } else {
      FloatRoundTrip(a.f);
    }
  }

  lemma NamingComplete(a: Argument)
    requires a.Valid() && (a.ACoordinate? || a.AString? || a.ASelector? || a.AResource?)
    ensures a.Text() != "" && ParseNamingArgument(a.Text()).Some?
  {
    var s := a.Text();
    NamingAlternatives(s);
    if a.ACoordinate? {
      CoordinateRoundTrip(a.c);
    } else if a.AString? {
      StringComplete(a.str);
      QuotesMatch(a.str);
    } else if a.ASelector? {
      SelectorComplete(a.sel);
      SelectorNonEmpty(a.sel);
    } else {
      ResourceComplete(a.res);
      assert |a.res.head.Text()| > 0;
    }
  }

  lemma StructuredComplete(a: Argument)
    requires a.Valid() && (a.ARange? || a.ANbt? || a.APath? || a.AOperator?)
    ensures a.Text() != "" && ParseStructuredArgument(a.Text()).Some?
  {
    var s := a.Text();
    StructuredAlternatives(s);
    if a.ARange? {
      RangeRoundTrip(a.range);
    } else if a.ANbt? {
      NbtComplete(a.n);
    } else if a.APath? {
      PathComplete(a.path);
      assert |a.path.root.Text()| > 0;
    } else {
      OperatorRoundTrip(a.op);
    }
  }

  lemma KeywordComplete(a: Argument)
    requires a.Valid() && (a.ASlot? || a.AHeightmap? || a.ACriteria?)
    ensures a.Text() != "" && ParseKeywordArgument(a.Text()).Some?
  {
    var s := a.Text();
    KeywordAlternatives(s);
    if a.ASlot? {
      SlotRoundTrip(a.slot);
    } else if a.AHeightmap? {
      HeightmapRoundTrip(a.h);
    } else {
      CriteriaRoundTrip(a.criteria);
      CriteriaNonEmpty(a.criteria);
    }
  }


  lemma SelectorNonEmpty(sel: Selector)
    requires sel.Valid()
    ensures sel.Text() != ""
  {
    match sel
    case Targeted(target, _) =>
      if target.WordTarget? { WordStart(target.w); }
    case MacroSelector(m, _) =>
  }

  lemma CriteriaNonEmpty(c: Criteria)
    ensures c.Text() != ""
  {
  }
}
