/**
 * Entity selectors (grammar.js:302-316): a target such as `@e`, `*` or a
 * plain word, with optional arguments in brackets or a bracketed index, or
 * a macro followed by bracketed arguments.
 */
module Selectors {
  import opened Base
  import opened Combinators
  import opened Numbers
  import opened Lexemes
  import opened Nbt

  /** The head of a selector: one of the six `@` variables, `*`, or a `word`. */
  datatype Target = SelfTarget | AllPlayers | AllEntities | NearestPlayer | NearestEntity | RandomPlayer | Everyone | WordTarget(w: Word)
  {
    predicate Valid() { WordTarget? ==> w.Valid() }

    function Text(): string
    {
      match this
      case SelfTarget => "@s"
      case AllPlayers => "@a"
      case AllEntities => "@e"
      case NearestPlayer => "@p"
      case NearestEntity => "@n"
      case RandomPlayer => "@r"
      case Everyone => "*"
      case WordTarget(w) => w.Text()
    }
  }

  function ParseTarget(s: string): (r: Option<Target>)
    ensures r.Some? ==> r.value.Valid() && r.value.Text() == s
  {
    match s
    case "@s" => Some(SelfTarget)
    case "@a" => Some(AllPlayers)
    case "@e" => Some(AllEntities)
    case "@p" => Some(NearestPlayer)
    case "@n" => Some(NearestEntity)
    case "@r" => Some(RandomPlayer)
    case "*" => Some(Everyone)
    case _ =>
      var w := ParseWord(s);
      if w.Some? then Some(WordTarget(w.value)) else None
  }

  /** A word begins with `#`, `.` or a word char, never with `@` or `*`. */
  lemma WordStart(w: Word)
    requires w.Valid()
    ensures |w.Text()| > 0 && w.Text()[0] != '@' && w.Text()[0] != '*' && w.Text()[0] != '['
  {
    match w
    case Tag(_) =>
    case Plain(dot, name) =>
      if !dot { assert w.Text()[0] == name[0]; }
  }

  /** A target is never written with a `[`. */
  lemma TargetHasNoBracket(t: Target)
    requires t.Valid()
    ensures forall j :: 0 <= j < |t.Text()| ==> t.Text()[j] != '['
  {
    if t.WordTarget? {
      var s := t.Text();
      forall j | 0 <= j < |s|
        ensures s[j] != '['
      {
        match t.w
        case Tag(name) =>
          if j > 0 { assert s[j] == name[j - 1]; }
        case Plain(dot, name) =>
          if dot {
            if j > 0 { assert s[j] == name[j - 1]; }
          } else {
            assert s[j] == name[j];
          }
      }
    }
  }

  /** The target of a selector is read back exactly. */
  lemma TargetRoundTrip(t: Target)
    requires t.Valid()
    ensures ParseTarget(t.Text()) == Some(t)
  {
    if t.WordTarget? {
      WordStart(t.w);
      WordRoundTrip(t.w);
    }
  }

  lemma PairSound(n: nat)
    ensures Sound(n, ParsePair, PairText, PairValid)
  {
  }

  /** `ARRAY("[", "]", _key_value_pair)`: the bracketed arguments of a selector. */
  function ParseArguments(s: string): (r: Option<Items<Pair>>)
    ensures r.Some? ==> ItemsValid(r.value, PairValid) && ItemsText("[", "]", r.value, PairText) == s
  {
    PairSound(|s|);
    Array("[", "]", s, ParsePair, PairText, PairValid)
  }

  lemma ArgumentsComplete(it: Items<Pair>)
    requires ItemsValid(it, PairValid)
    ensures ParseArguments(ItemsText("[", "]", it, PairText)).Some?
  {
    PairSound(|ItemsText("[", "]", it, PairText)|);
    forall i | 0 <= i < |it.elems|
      ensures PairText(it.elems[i]) != "" && Accepts(ParsePair, PairText(it.elems[i]))
    {
      PairComplete(it.elems[i]);
    }
    ArrayComplete("[", "]", it, ParsePair, PairText, PairValid);
  }

  /** What may follow a target: bracketed arguments, or a bracketed `number`. */
  datatype Filter = Arguments(items: Items<Pair>) | IndexFilter(index: Number)
  {
    predicate Valid()
    {
      match this
      case Arguments(items) => ItemsValid(items, PairValid)
      case IndexFilter(index) => index.Valid()
    }

    function Text(): string
    {
      match this
      case Arguments(items) => ItemsText("[", "]", items, PairText)
      case IndexFilter(index) => "[" + index.Text() + "]"
    }
  }

  /** Reads `s` as a filter, trying the arguments before the index as the grammar lists them. */
  function ParseFilter(s: string): (r: Option<Filter>)
    ensures r.Some? ==> r.value.Valid() && r.value.Text() == s
  {
    var a := ParseArguments(s);
    if a.Some? then Some(Arguments(a.value)) else ParseIndexFilter(s)
  }

  lemma Brackets(s: string)
    requires |s| >= 2 && s[0] == '[' && s[|s| - 1] == ']'
    ensures s == "[" + s[1..|s| - 1] + "]"
  {
    Framed(s, "[", "]");
  }

  /** Reads `s` as a bracketed `number`. */
  function ParseIndexFilter(s: string): (r: Option<Filter>)
    ensures r.Some? ==> r.value.IndexFilter? && r.value.Valid() && r.value.Text() == s
  {
    if |s| >= 2 && s[0] == '[' && s[|s| - 1] == ']' then
      var n := ParseNumber(s[1..|s| - 1]);
      if n.Some? then
        Brackets(s);
        Some(IndexFilter(n.value))
      else None
    else None
  }

  lemma FilterComplete(f: Filter)
    requires f.Valid()
    ensures ParseFilter(f.Text()).Some?
  {
    match f
    case Arguments(items) => ArgumentsComplete(items);
    case IndexFilter(index) =>
      var s := f.Text();
      Pieces("[", index.Text(), "]");
      NumberRoundTrip(index);
      IndexFound(s);
      FilterAlternatives(s);
  }

  lemma IndexFound(s: string)
    requires |s| >= 2 && s[0] == '[' && s[|s| - 1] == ']' && ParseNumber(s[1..|s| - 1]).Some?
    ensures ParseIndexFilter(s).Some?
  {
  }

  /** `ParseFilter` succeeds when one of its alternatives does. */
  lemma FilterAlternatives(s: string)
    ensures ParseArguments(s).Some? || ParseIndexFilter(s).Some? ==> ParseFilter(s).Some?
  {
  }

  /** `selector`. */
  datatype Selector = Targeted(target: Target, filter: Option<Filter>) | MacroSelector(m: Macro, items: Items<Pair>)
  {
    predicate Valid()
    {
      match this
      case Targeted(target, filter) => target.Valid() && (filter.Some? ==> filter.value.Valid())
      case MacroSelector(m, items) => m.Valid() && ItemsValid(items, PairValid)
    }

    function Text(): string
    {
      match this
      case Targeted(target, filter) => target.Text() + (if filter.Some? then filter.value.Text() else "")
      case MacroSelector(m, items) => m.Text() + ItemsText("[", "]", items, PairText)
    }
  }

  /**
   * Reads `s` as a `selector`. A target never contains `[`, so the target
   * ends at the first `[`; a macro selector is tried when that fails.
   */
  function ParseSelector(s: string): (r: Option<Selector>)
    ensures r.Some? ==> r.value.Valid() && r.value.Text() == s
  {
    var t := TargetedSelector(s);
    if t.Some? then t else MacroSelectorOf(s)
  }

  function TargetedSelector(s: string): (r: Option<Selector>)
    ensures r.Some? ==> r.value.Valid() && r.value.Text() == s
  {
    var i := IndexOf(s, '[');
    var t := ParseTarget(s[..i]);
    if t.None? then None
    else if i == |s| then Some(Targeted(t.value, None))
    else
      var f := ParseFilter(s[i..]);
      if f.None? then None
      else
        Halves(s, i);
        Some(Targeted(t.value, Some(f.value)))
  }

  function MacroSelectorOf(s: string): (r: Option<Selector>)
    ensures r.Some? ==> r.value.Valid() && r.value.Text() == s
  {
    FirstSome(1, |s|, (k: nat) requires 1 <= k <= |s| => MacroSelectorAt(s, k))
  }

  /** The macro ends at index `k`, and the arguments fill the rest. */
  function MacroSelectorAt(s: string, k: nat): (r: Option<Selector>)
    requires 1 <= k <= |s|
    ensures r.Some? ==> r.value.Valid() && r.value.Text() == s
  {
    var m := ParseMacro(s[..k]);
    var a := ParseArguments(s[k..]);
    if m.Some? && a.Some? then
      assert s == s[..k] + s[k..];
      Some(MacroSelector(m.value, a.value))
    else None
  }

  /** Every well-formed selector is accepted. */
  lemma SelectorComplete(x: Selector)
    requires x.Valid()
    ensures ParseSelector(x.Text()).Some?
  {
    match x
    case Targeted(target, filter) => TargetedComplete(target, filter);
    case MacroSelector(m, items) => MacroSelectorComplete(m, items);
  }

  /** A well-formed target with an optional filter is accepted. */
  lemma TargetedComplete(target: Target, filter: Option<Filter>)
    requires target.Valid() && (filter.Some? ==> filter.value.Valid())
    ensures ParseSelector(Targeted(target, filter).Text()).Some?
  {
    TargetHasNoBracket(target);
    TargetRoundTrip(target);
    var ft := if filter.Some? then filter.value.Text() else "";
    if filter.Some? {
      FilterComplete(filter.value);
      FilterOpens(filter.value);
    }
    TargetedFound(target.Text(), ft);
  }

  /** A filter begins with `[`. */
  lemma FilterOpens(f: Filter)
    requires f.Valid()
    ensures |f.Text()| > 0 && f.Text()[0] == '['
  {
    match f
    case Arguments(items) => ArrayOpens("[", "]", items, PairText);
    case IndexFilter(_) =>
  }

  /** An accepted target without `[`, then nothing or an accepted filter, is accepted as a selector. */
  lemma TargetedFound(t: string, f: string)
    requires ParseTarget(t).Some? && forall j :: 0 <= j < |t| ==> t[j] != '['
    requires f == "" || (f[0] == '[' && ParseFilter(f).Some?)
    ensures ParseSelector(t + f).Some?
  {
    var s := t + f;
    Parts(t, f);
    if f != "" {
      assert s[|t|] == '[';
    }
    assert forall j :: 0 <= j < |t| ==> s[j] == t[j];
    IndexOfIs(s, '[', |t|);
    assert TargetedSelector(s).Some?;
  }

  /** A well-formed macro followed by well-formed arguments is accepted. */
  lemma MacroSelectorComplete(m: Macro, items: Items<Pair>)
    requires m.Valid() && ItemsValid(items, PairValid)
    ensures ParseSelector(MacroSelector(m, items).Text()).Some?
  {
    MacroRoundTrip(m);
    ArgumentsComplete(items);
    MacroArgumentsFound(m.Text(), ItemsText("[", "]", items, PairText));
  }

  /** An accepted macro followed by accepted arguments is accepted as a selector. */
  lemma MacroArgumentsFound(m: string, a: string)
    requires |m| > 0 && ParseMacro(m).Some? && ParseArguments(a).Some?
    ensures ParseSelector(m + a).Some?
  {
    var s := m + a;
    Parts(m, a);
    assert MacroSelectorAt(s, |m|).Some?;
    FirstSomeFinds(1, |s|, (k: nat) requires 1 <= k <= |s| => MacroSelectorAt(s, k), |m|);
    assert MacroSelectorOf(s).Some?;
  }

  /** A selector with a target and no filter is read back exactly. */
  lemma BareTargetRoundTrip(t: Target)
    requires t.Valid()
    ensures ParseSelector(t.Text()) == Some(Targeted(t, None))
  {
    TargetHasNoBracket(t);
    TargetRoundTrip(t);
    assert IndexOf(t.Text(), '[') == |t.Text()|;
    assert t.Text()[..|t.Text()|] == t.Text();
  }
}
