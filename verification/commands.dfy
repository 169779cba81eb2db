/**
 * Commands and `execute` chains (grammar.js:105-124): a command name from
 * the command vocabulary followed by space-separated keywords and
 * arguments, and `execute`, space-separated subcommands and arguments, a
 * mandatory ` run `, then a nested chain or a command. The three word lists
 * the grammar loads from its data files are parameters of the model.
 */
module Commands {
  import opened Base
  import opened Layout
  import opened Combinators
  import opened Arguments

  /** The words the grammar loads from its data files: command names, `execute` subcommands, command keywords. */
  datatype Vocabulary = Vocabulary(commands: set<string>, subcommands: set<string>, keywords: set<string>)

  /** A word from a vocabulary (`command_keyword` or `subcommand_identifier`), or an `ARGUMENT`. */
  datatype Item = Ident(name: string) | Arg(a: Argument)

  predicate ItemValid(names: set<string>, x: Item)
  {
    match x
    case Ident(name) => name in names
    case Arg(a) => a.Valid()
  }

  function ItemText(x: Item): string
  {
    match x
    case Ident(name) => name
    case Arg(a) => a.Text()
  }

  /** Reads `s` as an item: a vocabulary word first, as the grammar lists it, then an argument. */
  function ParseItem(names: set<string>, s: string): (r: Option<Item>)
    ensures r.Some? ==> ItemValid(names, r.value) && ItemText(r.value) == s
  {
    if s in names then Some(Ident(s))
    else
      var a := ParseArgument(s);
      if a.Some? then Some(Arg(a.value)) else None
  }

  lemma ItemComplete(names: set<string>, x: Item)
    requires ItemValid(names, x) && (x.Ident? ==> x.name != "")
    ensures ItemText(x) != "" && ParseItem(names, ItemText(x)).Some?
  {
    if x.Arg? { ArgumentComplete(x.a); }
  }

  /** `seq($._space, item)`: one repeated element of a command or an `execute`. */
  datatype Spaced = Spaced(space: Space, item: Item)

  predicate SpacedValid(names: set<string>, x: Spaced)
  {
    x.space.Valid() && ItemValid(names, x.item)
  }

  function SpacedText(x: Spaced): string
  {
    x.space.Text() + ItemText(x.item)
  }

  /** Reads `s` as a separator and an item, splitting at the first place that works. */
  function ParseSpaced(names: set<string>, s: string): (r: Option<Spaced>)
    ensures r.Some? ==> SpacedValid(names, r.value) && SpacedText(r.value) == s
  {
    FirstSome(1, |s|, (k: nat) requires 1 <= k <= |s| => SpacedAt(names, s, k))
  }

  function SpacedAt(names: set<string>, s: string, k: nat): (r: Option<Spaced>)
    requires 1 <= k <= |s|
    ensures r.Some? ==> SpacedValid(names, r.value) && SpacedText(r.value) == s
  {
    var sp := ParseSpace(s[..k]);
    var x := ParseItem(names, s[k..]);
    if sp.Some? && x.Some? then
      assert s == s[..k] + s[k..];
      Some(Spaced(sp.value, x.value))
    else None
  }

  lemma SpacedComplete(names: set<string>, x: Spaced)
    requires SpacedValid(names, x) && (x.item.Ident? ==> x.item.name != "")
    ensures SpacedText(x) != "" && ParseSpaced(names, SpacedText(x)).Some?
  {
    var s := SpacedText(x);
    var k := |x.space.Text()|;
    SpaceShape(x.space);
    SpaceRoundTrip(x.space);
    ItemComplete(names, x.item);
    Pieces(x.space.Text(), ItemText(x.item), "");
    assert SpacedAt(names, s, k).Some?;
    FirstSomeFinds(1, |s|, (k: nat) requires 1 <= k <= |s| => SpacedAt(names, s, k), k);
  }

  /** `repeat(seq($._space, item))` over the whole of `s`. */
  function ParseSpacedRun(names: set<string>, s: string): (r: Option<seq<Spaced>>)
    ensures r.Some? ==> AllValid(r.value, (x: Spaced) => SpacedValid(names, x)) && Concat(Texts(r.value, SpacedText)) == s
  {
    Many(s, (t: string) => ParseSpaced(names, t), SpacedText, (x: Spaced) => SpacedValid(names, x))
  }

  /** No vocabulary word is empty: the grammar's `choice` of literal words has no empty alternative. */
  predicate NoEmptyWord(names: set<string>)
  {
    "" !in names
  }

  lemma SpacedRunComplete(names: set<string>, xs: seq<Spaced>)
    requires NoEmptyWord(names)
    requires forall i :: 0 <= i < |xs| ==> SpacedValid(names, xs[i])
    ensures ParseSpacedRun(names, Concat(Texts(xs, SpacedText))).Some?
  {
    var elem := (t: string) => ParseSpaced(names, t);
    var valid := (x: Spaced) => SpacedValid(names, x);
    forall i | 0 <= i < |xs|
      ensures SpacedText(xs[i]) != "" && Accepts(elem, SpacedText(xs[i]))
    {
      SpacedComplete(names, xs[i]);
    }
    ManyComplete(xs, elem, SpacedText, valid);
  }

  // ---------------------------------------------------------------------------
  // command

  /** `command`: a command name, then keywords and arguments, each after a separator. */
  datatype Command = Command(name: string, args: seq<Spaced>)

  predicate CommandValid(voc: Vocabulary, c: Command)
  {
    c.name in voc.commands && forall i :: 0 <= i < |c.args| ==> SpacedValid(voc.keywords, c.args[i])
  }

  function CommandText(c: Command): string
  {
    c.name + Concat(Texts(c.args, SpacedText))
  }

  /** Reads `s` as a `command`, trying each command name that `s` begins with, shortest first. */
  function ParseCommand(voc: Vocabulary, s: string): (r: Option<Command>)
    ensures r.Some? ==> CommandValid(voc, r.value) && CommandText(r.value) == s
  {
    FirstSome(0, |s|, (k: nat) requires k <= |s| => CommandAt(voc, s, k))
  }

  function CommandAt(voc: Vocabulary, s: string, k: nat): (r: Option<Command>)
    requires k <= |s|
    ensures r.Some? ==> CommandValid(voc, r.value) && CommandText(r.value) == s
  {
    if s[..k] in voc.commands then
      var args := ParseSpacedRun(voc.keywords, s[k..]);
      if args.Some? then
        assert s == s[..k] + s[k..];
        Some(Command(s[..k], args.value))
      else None
    else None
  }

  lemma CommandComplete(voc: Vocabulary, c: Command)
    requires NoEmptyWord(voc.keywords) && CommandValid(voc, c)
    ensures ParseCommand(voc, CommandText(c)).Some?
  {
    var s := CommandText(c);
    var k := |c.name|;
    Pieces(c.name, Concat(Texts(c.args, SpacedText)), "");
    SpacedRunComplete(voc.keywords, c.args);
    assert CommandAt(voc, s, k).Some?;
    FirstSomeFinds(0, |s|, (k: nat) requires k <= |s| => CommandAt(voc, s, k), k);
  }

  // ---------------------------------------------------------------------------
  // execute

  /** `$._space, "run", $._space`. */
  datatype RunWord = RunWord(before: Space, after: Space)
  {
    predicate Valid() { before.Valid() && after.Valid() }

    function Text(): string { before.Text() + "run" + after.Text() }
  }

  /** Reads `s` as a separator, `run` and a separator, trying each place for `run`. */
  function ParseRunWord(s: string): (r: Option<RunWord>)
    ensures r.Some? ==> r.value.Valid() && r.value.Text() == s
  {
    FirstSome(0, |s|, (i: nat) requires i <= |s| => RunWordAt(s, i))
  }

  function RunWordAt(s: string, i: nat): (r: Option<RunWord>)
    requires i <= |s|
    ensures r.Some? ==> r.value.Valid() && r.value.Text() == s
    ensures r.Some? ==> i + 3 <= |s| && s[i..i + 3] == "run"
  {
    if i + 3 <= |s| && s[i..i + 3] == "run" then
      var b := ParseSpace(s[..i]);
      var a := ParseSpace(s[i + 3..]);
      if b.Some? && a.Some? then
        SplitAt(s, i, "run");
        Some(RunWord(b.value, a.value))
      else None
    else None
  }

  lemma RunWordComplete(w: RunWord)
    requires w.Valid()
    ensures ParseRunWord(w.Text()).Some?
  {
    var s := w.Text();
    var i := |w.before.Text()|;
    Pieces(w.before.Text(), "run", w.after.Text());
    SpaceRoundTrip(w.before);
    SpaceRoundTrip(w.after);
    assert RunWordAt(s, i).Some?;
    FirstSomeFinds(0, |s|, (i: nat) requires i <= |s| => RunWordAt(s, i), i);
  }

  /** The run word is unambiguous: separators hold no `r`, so `run` can sit in one place only. */
  lemma RunWordRoundTrip(w: RunWord)
    requires w.Valid()
    ensures ParseRunWord(w.Text()) == Some(w)
  {
    var s := w.Text();
    var i := |w.before.Text()|;
    Pieces(w.before.Text(), "run", w.after.Text());
    SpaceRoundTrip(w.before);
    SpaceRoundTrip(w.after);
    assert RunWordAt(s, i) == Some(w);
    forall k | 0 <= k <= |s| && RunWordAt(s, k).Some?
      ensures k == i
    {
      assert s[k] == s[k..k + 3][0] == 'r';
      OnlyR(w, k);
    }
    FirstSomeUnique(0, |s|, (i: nat) requires i <= |s| => RunWordAt(s, i), i, w);
  }

  /** The only `r` in a run word is the one of `run`. */
  lemma OnlyR(w: RunWord, k: nat)
    requires w.Valid() && k < |w.Text()| && w.Text()[k] == 'r'
    ensures k == |w.before.Text()|
  {
    var b, a := w.before.Text(), w.after.Text();
    SpaceShape(w.before);
    SpaceShape(w.after);
    assert forall j :: 0 <= j < |"un" + a| ==> ("un" + a)[j] != 'r' by {
      forall j | 0 <= j < |"un" + a|
        ensures ("un" + a)[j] != 'r'
      {
        if j >= 2 { assert ("un" + a)[j] == a[j - 2]; }
      }
    }
    assert w.Text() == b + ['r'] + ("un" + a);
    OnlyAt(b, 'r', "un" + a);
  }

  /** What `run` runs: another `execute_statement`, or a `command`. */
  datatype Runnable = Chain(e: Execute) | Run(c: Command)

  /** `execute_statement`. */
  datatype Execute = Execute(subs: seq<Spaced>, run: RunWord, body: Runnable)

  predicate RunnableValid(voc: Vocabulary, r: Runnable)
  {
    match r
    case Chain(e) => ExecuteValid(voc, e)
    case Run(c) => CommandValid(voc, c)
  }

  predicate ExecuteValid(voc: Vocabulary, e: Execute)
  {
    (forall i :: 0 <= i < |e.subs| ==> SpacedValid(voc.subcommands, e.subs[i]))
    && e.run.Valid() && RunnableValid(voc, e.body)
  }

  function RunnableText(r: Runnable): string
  {
    match r
    case Chain(e) => ExecuteText(e)
    case Run(c) => CommandText(c)
  }

  function ExecuteText(e: Execute): string
  {
    "execute" + Concat(Texts(e.subs, SpacedText)) + e.run.Text() + RunnableText(e.body)
  }

  /** Reads `s` as what `run` runs: an `execute_statement` first, as the grammar lists it, then a `command`. */
  function ParseRunnable(voc: Vocabulary, s: string): (r: Option<Runnable>)
    ensures r.Some? ==> RunnableValid(voc, r.value) && RunnableText(r.value) == s
    decreases |s|, 3
  {
    var e := ParseExecute(voc, s);
    if e.Some? then Some(Chain(e.value))
    else
      var c := ParseCommand(voc, s);
      if c.Some? then Some(Run(c.value)) else None
  }

  /** Reads `s` as an `execute_statement`, trying each place where the subcommands could end. */
  function ParseExecute(voc: Vocabulary, s: string): (r: Option<Execute>)
    ensures r.Some? ==> ExecuteValid(voc, r.value) && ExecuteText(r.value) == s
    decreases |s|, 2
  {
    if StartsWith(s, "execute") then
      FirstSome(7, |s|, (k: nat) requires 7 <= k <= |s| => ExecuteAt(voc, s, k))
    else None
  }

  /** The subcommands span indices 7 to `k` of `s`. */
  function ExecuteAt(voc: Vocabulary, s: string, k: nat): (r: Option<Execute>)
    requires 7 <= k <= |s| && StartsWith(s, "execute")
    ensures r.Some? ==> ExecuteValid(voc, r.value) && ExecuteText(r.value) == s
    decreases |s|, 1
  {
    var subs := ParseSpacedRun(voc.subcommands, s[7..k]);
    if subs.None? then None
    else FirstSome(k, |s|, (b: nat) requires k <= b <= |s| => BodyAt(voc, s, k, b, subs.value))
  }

  /** ` run ` spans indices `k` to `b` of `s`, and the rest is what it runs. */
  function BodyAt(voc: Vocabulary, s: string, k: nat, b: nat, subs: seq<Spaced>): (r: Option<Execute>)
    requires 7 <= k <= b <= |s| && StartsWith(s, "execute")
    requires (forall i :: 0 <= i < |subs| ==> SpacedValid(voc.subcommands, subs[i])) && Concat(Texts(subs, SpacedText)) == s[7..k]
    ensures r.Some? ==> ExecuteValid(voc, r.value) && ExecuteText(r.value) == s
    decreases |s|, 0
  {
    var w := ParseRunWord(s[k..b]);
    if w.None? then None
    else
      var body := ParseRunnable(voc, s[b..]);
      if body.None? then None
      else
        ExecuteJoin(s, k, b);
        Some(Execute(subs, w.value, body.value))
  }

  lemma ExecuteJoin(s: string, k: nat, b: nat)
    requires 7 <= k <= b <= |s| && StartsWith(s, "execute")
    ensures s == "execute" + s[7..k] + s[k..b] + s[b..]
  {
    assert s == s[..7] + s[7..k] + s[k..b] + s[b..];
  }

  /** Where the pieces of an `execute_statement`'s text sit. */
  lemma ExecuteSlices(e: Execute)
    ensures StartsWith(ExecuteText(e), "execute")
    ensures 7 + |Concat(Texts(e.subs, SpacedText))| + |e.run.Text()| <= |ExecuteText(e)|
    ensures var s, k := ExecuteText(e), 7 + |Concat(Texts(e.subs, SpacedText))|;
      s[7..k] == Concat(Texts(e.subs, SpacedText))
      && s[k..k + |e.run.Text()|] == e.run.Text()
      && s[k + |e.run.Text()|..] == RunnableText(e.body)
  {
    Quarters("execute", Concat(Texts(e.subs, SpacedText)), e.run.Text(), RunnableText(e.body));
  }

  /** The four pieces of `p + a + w + b`, recovered by slicing. */
  lemma Quarters(p: string, a: string, w: string, b: string)
    ensures var s := p + a + w + b;
      s[..|p|] == p && s[|p|..|p| + |a|] == a
      && s[|p| + |a|..|p| + |a| + |w|] == w && s[|p| + |a| + |w|..] == b
  {
  }

  /** The search over the end of ` run ` finds the split at `b`. */
  lemma BodyFound(voc: Vocabulary, s: string, k: nat, b: nat, subs: seq<Spaced>)
    requires 7 <= k <= b <= |s| && StartsWith(s, "execute")
    requires (forall i :: 0 <= i < |subs| ==> SpacedValid(voc.subcommands, subs[i])) && Concat(Texts(subs, SpacedText)) == s[7..k]
    requires BodyAt(voc, s, k, b, subs).Some?
    ensures FirstSome(k, |s|, (b: nat) requires k <= b <= |s| => BodyAt(voc, s, k, b, subs)).Some?
  {
    FirstSomeFinds(k, |s|, (b: nat) requires k <= b <= |s| => BodyAt(voc, s, k, b, subs), b);
  }

  lemma BodyAtFound(voc: Vocabulary, s: string, k: nat, b: nat, subs: seq<Spaced>)
    requires 7 <= k <= b <= |s| && StartsWith(s, "execute")
    requires (forall i :: 0 <= i < |subs| ==> SpacedValid(voc.subcommands, subs[i])) && Concat(Texts(subs, SpacedText)) == s[7..k]
    requires ParseRunWord(s[k..b]).Some? && ParseRunnable(voc, s[b..]).Some?
    ensures BodyAt(voc, s, k, b, subs).Some?
  {
  }

  /** The search over the end of the subcommands finds the split at `k`. */
  lemma ExecuteFound(voc: Vocabulary, s: string, k: nat)
    requires 7 <= k <= |s| && StartsWith(s, "execute")
    requires ExecuteAt(voc, s, k).Some?
    ensures ParseExecute(voc, s).Some?
  {
    FirstSomeFinds(7, |s|, (k: nat) requires 7 <= k <= |s| => ExecuteAt(voc, s, k), k);
    ExecuteSearched(voc, s);
  }

  lemma ExecuteSearched(voc: Vocabulary, s: string)
    requires StartsWith(s, "execute")
    requires FirstSome(7, |s|, (k: nat) requires 7 <= k <= |s| => ExecuteAt(voc, s, k)).Some?
    ensures ParseExecute(voc, s).Some?
  {
  }

  /** No vocabulary holds the empty word. */
  predicate WellFormed(voc: Vocabulary)
  {
    NoEmptyWord(voc.subcommands) && NoEmptyWord(voc.keywords)
  }

  /** Every well-formed `execute_statement` is accepted. */
  lemma {:induction false} ExecuteComplete(voc: Vocabulary, e: Execute)
    requires WellFormed(voc) && ExecuteValid(voc, e)
    ensures ParseExecute(voc, ExecuteText(e)).Some?
    decreases e
  {
    var s := ExecuteText(e);
    var k := 7 + |Concat(Texts(e.subs, SpacedText))|;
    var b := k + |e.run.Text()|;
    ExecuteSlices(e);
    SpacedRunComplete(voc.subcommands, e.subs);
    RunWordComplete(e.run);
    RunnableComplete(voc, e.body);
    var subs := ParseSpacedRun(voc.subcommands, s[7..k]);
    assert subs.Some?;
    BodyAtFound(voc, s, k, b, subs.value);
    BodyFound(voc, s, k, b, subs.value);
    assert ExecuteAt(voc, s, k).Some?;
    ExecuteFound(voc, s, k);
  }

  /** Every well-formed chain or command is accepted after `run`. */
  lemma {:induction false} RunnableComplete(voc: Vocabulary, r: Runnable)
    requires WellFormed(voc) && RunnableValid(voc, r)
    ensures ParseRunnable(voc, RunnableText(r)).Some?
    decreases r
  {
    match r
    case Chain(e) => ExecuteComplete(voc, e);
    case Run(c) => CommandComplete(voc, c);
  }

  /** `run` stands at index `i` of `s`, with a separator character on each side. */
  predicate RunAt(s: string, i: nat)
  {
    1 <= i && i + 4 <= |s| && s[i..i + 3] == "run" && LayoutChar(s[i - 1]) && LayoutChar(s[i + 3])
  }

  /** The text of every `execute_statement` holds ` run ` after its subcommands. */
  lemma RunInText(e: Execute)
    requires e.run.Valid()
    ensures RunAt(ExecuteText(e), 7 + |Concat(Texts(e.subs, SpacedText))| + |e.run.before.Text()|)
  {
    SpaceShape(e.run.before);
    SpaceShape(e.run.after);
    RunBetween("execute" + Concat(Texts(e.subs, SpacedText)), e.run.before.Text(), e.run.after.Text(), RunnableText(e.body));
  }

  /** `run` between a separator ending in a layout character and one starting with one stands at `RunAt`. */
  lemma RunBetween(x: string, before: string, after: string, y: string)
    requires |before| > 0 && |after| > 0 && LayoutChar(before[|before| - 1]) && LayoutChar(after[0])
    ensures RunAt(x + (before + "run" + after) + y, |x| + |before|)
  {
    var s := x + (before + "run" + after) + y;
    var i := |x| + |before|;
    assert s[i..i + 3] == "run";
    assert s[i - 1] == before[|before| - 1];
    assert s[i + 3] == after[0];
  }

  /** Whatever `ParseExecute` accepts holds ` run ` somewhere after `execute`. */
  lemma ExecuteHasRun(voc: Vocabulary, s: string)
    ensures ParseExecute(voc, s).Some? ==> exists i :: 7 <= i && RunAt(s, i)
  {
    var r := ParseExecute(voc, s);
    if r.Some? {
      RunInText(r.value);
    }
  }

  /** A chain of subcommands without ` run ` is not an `execute_statement`. */
  lemma ExecuteWithoutRun(voc: Vocabulary, s: string)
    requires forall i :: 7 <= i ==> !RunAt(s, i)
    ensures ParseExecute(voc, s) == None
  {
    ExecuteHasRun(voc, s);
  }

  /** `execute run <command>` is accepted for every command name of the vocabulary. */
  lemma ExecuteRunCommand(voc: Vocabulary, name: string)
    requires WellFormed(voc) && name in voc.commands
    ensures ParseRunnable(voc, "execute run " + name).Some?
    ensures ParseExecute(voc, "execute run " + name).Some?
  {
    var e := Execute([], RunWord(Blank, Blank), Run(Command(name, [])));
    assert ExecuteText(e) == "execute run " + name;
    ExecuteComplete(voc, e);
  }

  // ---------------------------------------------------------------------------
  // statements

  /** A character of `line_contents`: anything but a line break. */
  predicate InLine(c: char) { !IsLineBreak(c) }

  /**
   * What a `_statement` holds before its line break: a `mime_comment`
   * (`#!`, an identifier, a separator, the rest of the line), a `comment`
   * (`#`, one character other than `!`, the rest of the line), or an
   * `execute_statement` or `command` after an optional `$`.
   */
  datatype Line =
    | MimeComment(name: string, space: Space, contents: string)
    | Comment(first: char, contents: string)
    | Code(indicator: bool, body: Runnable)

  predicate LineValid(voc: Vocabulary, l: Line)
  {
    match l
    case MimeComment(name, space, contents) => Run1(name, IsIdentChar) && space.Valid() && All(contents, InLine)
    case Comment(first, contents) => first != '!' && All(contents, InLine)
    case Code(_, body) => RunnableValid(voc, body)
  }

  function LineText(l: Line): string
  {
    match l
    case MimeComment(name, space, contents) => "#!" + name + space.Text() + contents
    case Comment(first, contents) => "#" + [first] + contents
    case Code(indicator, body) => if indicator then "$" + RunnableText(body) else RunnableText(body)
  }

  /** Reads `s` as a `mime_comment`: its identifier is the run of identifier characters after `#!`. */
  function ParseMime(s: string): (r: Option<Line>)
    ensures r.Some? ==> r.value.MimeComment? && LineValid(Vocabulary({}, {}, {}), r.value) && LineText(r.value) == s
  {
    if StartsWith(s, "#!") then
      var k := 2 + IdentEnd(s[2..]);
      assert s[2..k] == s[2..][..k - 2];
      MimeFrom(s, k)
    else None
  }

  /** The identifier ends at `k`; the search runs over the end of the separator. */
  function MimeFrom(s: string, k: nat): (r: Option<Line>)
    requires 2 <= k <= |s| && StartsWith(s, "#!") && All(s[2..k], IsIdentChar)
    ensures r.Some? ==> r.value.MimeComment? && LineValid(Vocabulary({}, {}, {}), r.value) && LineText(r.value) == s
  {
    FirstSome(k, |s|, (j: nat) requires k <= j <= |s| => MimeAt(s, k, j))
  }

  /** The length of the longest prefix of `s` made of identifier characters. */
  function IdentEnd(s: string): (n: nat)
    ensures n <= |s| && All(s[..n], IsIdentChar)
    ensures n < |s| ==> !IsIdentChar(s[n])
  {
    if s != [] && IsIdentChar(s[0]) then
      var n := 1 + IdentEnd(s[1..]);
      assert s[..n] == [s[0]] + s[1..][..n - 1];
      n
    else 0
  }

  /** The identifier ends at `k` and the separator at `j`. */
  function MimeAt(s: string, k: nat, j: nat): (r: Option<Line>)
    requires 2 <= k <= j <= |s| && StartsWith(s, "#!") && All(s[2..k], IsIdentChar)
    ensures r.Some? ==> r.value.MimeComment? && LineValid(Vocabulary({}, {}, {}), r.value) && LineText(r.value) == s
  {
    var sp := ParseSpace(s[k..j]);
    if k > 2 && sp.Some? && All(s[j..], InLine) then
      Cuts(s, 2, k, j);
      Some(MimeComment(s[2..k], sp.value, s[j..]))
    else None
  }

  /** Reads `s` as a `comment`. */
  function ParseComment(s: string): (r: Option<Line>)
    ensures r.Some? ==> r.value.Comment? && LineValid(Vocabulary({}, {}, {}), r.value) && LineText(r.value) == s
  {
    if |s| >= 2 && s[0] == '#' && s[1] != '!' && All(s[2..], InLine) then
      assert s == "#" + [s[1]] + s[2..];
      Some(Comment(s[1], s[2..]))
    else None
  }

  /** Reads `s` as code: with the `$` macro indicator first, then without it. */
  function ParseCode(voc: Vocabulary, s: string): (r: Option<Line>)
    ensures r.Some? ==> r.value.Code? && LineValid(voc, r.value) && LineText(r.value) == s
  {
    var marked := if |s| > 0 && s[0] == '$' then ParseRunnable(voc, s[1..]) else None;
    if marked.Some? then
      FirstSplit(s);
      Some(Code(true, marked.value))
    else
      var plain := ParseRunnable(voc, s);
      if plain.Some? then Some(Code(false, plain.value)) else None
  }

  /** Reads `s` as the contents of a line, trying the alternatives in the grammar's order. */
  function ParseLine(voc: Vocabulary, s: string): (r: Option<Line>)
    ensures r.Some? ==> LineValid(voc, r.value) && LineText(r.value) == s
  {
    var m := ParseMime(s);
    if m.Some? then Some(m.value)
    else
      var c := ParseComment(s);
      if c.Some? then Some(c.value) else ParseCode(voc, s)
  }

  /** `_statement`: indentation, optional contents, and a `_newline`. */
  datatype Statement = Statement(indent: string, line: Option<Line>, crlf: bool)

  predicate StatementValid(voc: Vocabulary, st: Statement)
  {
    All(st.indent, IsWhitespace) && (st.line.Some? ==> LineValid(voc, st.line.value))
  }

  function NewlineText(crlf: bool): string
  {
    if crlf then "\r\n" else "\n"
  }

  function StatementText(st: Statement): string
  {
    st.indent + (if st.line.Some? then LineText(st.line.value) else "") + NewlineText(st.crlf)
  }

  /** Reads `s` as one `_statement`: `\r\n` is tried as the line break before `\n`. */
  function ParseStatement(voc: Vocabulary, s: string): (r: Option<Statement>)
    ensures r.Some? ==> StatementValid(voc, r.value) && StatementText(r.value) == s
    ensures r.Some? ==> |s| > 0 && s[|s| - 1] == '\n'
  {
    var crlf := StatementWith(voc, s, true);
    if crlf.Some? then crlf else StatementWith(voc, s, false)
  }

  /** Reads `s` as a `_statement` ending in the given line break. */
  function StatementWith(voc: Vocabulary, s: string, crlf: bool): (r: Option<Statement>)
    ensures r.Some? ==> StatementValid(voc, r.value) && StatementText(r.value) == s
    ensures r.Some? ==> |s| > 0 && s[|s| - 1] == '\n'
  {
    if |NewlineText(crlf)| <= |s| && s[|s| - |NewlineText(crlf)|..] == NewlineText(crlf) then
      FirstSome(0, |s| - |NewlineText(crlf)|, (i: nat) requires i <= |s| - |NewlineText(crlf)| => StatementAt(voc, s, crlf, i))
    else None
  }

  /** The indentation ends at `i`. */
  function StatementAt(voc: Vocabulary, s: string, crlf: bool, i: nat): (r: Option<Statement>)
    requires |NewlineText(crlf)| <= |s| && s[|s| - |NewlineText(crlf)|..] == NewlineText(crlf)
    requires i <= |s| - |NewlineText(crlf)|
    ensures r.Some? ==> StatementValid(voc, r.value) && StatementText(r.value) == s
    ensures r.Some? ==> |s| > 0 && s[|s| - 1] == '\n'
  {
    var n := |s| - |NewlineText(crlf)|;
    var body := s[i..n];
    Quarters(s[..i], body, NewlineText(crlf), "");
    assert s == s[..i] + body + NewlineText(crlf) + "";
    assert s[|s| - 1] == NewlineText(crlf)[|NewlineText(crlf)| - 1];
    if !All(s[..i], IsWhitespace) then None
    else if body == "" then Some(Statement(s[..i], None, crlf))
    else
      var l := ParseLine(voc, body);
      if l.Some? then Some(Statement(s[..i], Some(l.value), crlf)) else None
  }

  /** `source_file`: a run of statements. */
  function ParseSourceFile(voc: Vocabulary, s: string): (r: Option<seq<Statement>>)
    ensures r.Some? ==> AllValid(r.value, (st: Statement) => StatementValid(voc, st)) && Concat(Texts(r.value, StatementText)) == s
  {
    Many(s, (t: string) => ParseStatement(voc, t), StatementText, (st: Statement) => StatementValid(voc, st))
  }

  // ---------------------------------------------------------------------------
  // completeness of statements

  /** `IdentEnd` stops exactly where the identifier stops. */
  lemma {:induction false} IdentEndOf(a: string, b: string)
    requires All(a, IsIdentChar) && (b != [] ==> !IsIdentChar(b[0]))
    ensures IdentEnd(a + b) == |a|
  {
    if a != [] {
      assert (a + b)[1..] == a[1..] + b;
      IdentEndOf(a[1..], b);
    } else {
      assert a + b == b;
    }
  }

  /** Every well-formed `mime_comment` is accepted. */
  lemma MimeComplete(l: Line)
    requires l.MimeComment? && LineValid(Vocabulary({}, {}, {}), l)
    ensures ParseMime(LineText(l)).Some?
  {
    SpaceShape(l.space);
    SpaceRoundTrip(l.space);
    MimeFound(l.name, l.space.Text(), l.contents);
  }

  /** An identifier, an accepted separator and line contents after `#!` are accepted as a `mime_comment`. */
  lemma MimeFound(name: string, sp: string, contents: string)
    requires Run1(name, IsIdentChar) && |sp| > 0 && !IsIdentChar(sp[0]) && ParseSpace(sp).Some?
    requires All(contents, InLine)
    ensures ParseMime("#!" + name + sp + contents).Some?
  {
    var s := "#!" + name + sp + contents;
    var k := 2 + |name|;
    MimeShape(name, sp, contents);
    assert MimeAt(s, k, k + |sp|).Some?;
    MimeSearch(s, k, k + |sp|);
  }

  /** Where the pieces of a `mime_comment` sit, and that the identifier ends before the separator. */
  lemma MimeShape(name: string, sp: string, contents: string)
    requires All(name, IsIdentChar) && |sp| > 0 && !IsIdentChar(sp[0])
    ensures var s := "#!" + name + sp + contents; var k := 2 + |name|;
      StartsWith(s, "#!") && s[2..k] == name && s[k..k + |sp|] == sp && s[k + |sp|..] == contents
      && IdentEnd(s[2..]) == |name|
  {
    var s := "#!" + name + sp + contents;
    Quarters("#!", name, sp, contents);
    assert s[2..] == name + (sp + contents);
    IdentEndOf(name, sp + contents);
  }

  /** The search over the end of the separator finds the split at `j`. */
  lemma MimeSearch(s: string, k: nat, j: nat)
    requires StartsWith(s, "#!") && k == 2 + IdentEnd(s[2..]) && k <= j <= |s|
    requires All(s[2..k], IsIdentChar) && MimeAt(s, k, j).Some?
    ensures ParseMime(s).Some?
  {
    FirstSomeFinds(k, |s|, (j: nat) requires k <= j <= |s| => MimeAt(s, k, j), j);
    assert MimeFrom(s, k).Some?;
  }

  /** Every well-formed line is accepted by one of the alternatives. */
  lemma LineComplete(voc: Vocabulary, l: Line)
    requires WellFormed(voc) && LineValid(voc, l)
    ensures ParseLine(voc, LineText(l)).Some?
  {
    if l.MimeComment? {
      MimeComplete(l);
    } else if l.Comment? {
      CommentRoundTrip(l.first, l.contents);
    } else {
      CodeComplete(voc, l);
    }
    LineAlternatives(voc, LineText(l));
  }

  /** Every well-formed code line is accepted as code. */
  lemma CodeComplete(voc: Vocabulary, l: Line)
    requires WellFormed(voc) && l.Code? && LineValid(voc, l)
    ensures ParseCode(voc, LineText(l)).Some?
  {
    RunnableComplete(voc, l.body);
    if l.indicator {
      MarkedFound(voc, RunnableText(l.body));
    } else {
      PlainFound(voc, RunnableText(l.body));
    }
  }

  /** `ParseLine` succeeds when one of its alternatives does. */
  lemma LineAlternatives(voc: Vocabulary, s: string)
    ensures ParseMime(s).Some? || ParseComment(s).Some? || ParseCode(voc, s).Some? ==> ParseLine(voc, s).Some?
  {
  }

  /** `comment` is unambiguous: the comment is read back as itself. */
  lemma CommentRoundTrip(first: char, contents: string)
    requires first != '!' && All(contents, InLine)
    ensures ParseComment("#" + [first] + contents) == Some(Comment(first, contents))
  {
    var s := "#" + [first] + contents;
    assert s[2..] == contents;
  }

  /** Code after the `$` indicator is accepted as marked code. */
  lemma MarkedFound(voc: Vocabulary, r: string)
    requires ParseRunnable(voc, r).Some?
    ensures ParseCode(voc, "$" + r).Some?
  {
    assert ("$" + r)[1..] == r;
  }

  /** Code without the indicator is accepted, with or without reading a leading `$` as one. */
  lemma PlainFound(voc: Vocabulary, r: string)
    requires ParseRunnable(voc, r).Some?
    ensures ParseCode(voc, r).Some?
  {
  }

  /** The search over the end of the indentation finds the split at `i`. */
  lemma StatementFound(voc: Vocabulary, s: string, crlf: bool, i: nat)
    requires |NewlineText(crlf)| <= |s| && s[|s| - |NewlineText(crlf)|..] == NewlineText(crlf)
    requires i <= |s| - |NewlineText(crlf)| && StatementAt(voc, s, crlf, i).Some?
    ensures ParseStatement(voc, s).Some?
  {
    FirstSomeFinds(0, |s| - |NewlineText(crlf)|, (i: nat) requires i <= |s| - |NewlineText(crlf)| => StatementAt(voc, s, crlf, i), i);
    SearchFound(voc, s, crlf);
    WithFound(voc, s, crlf);
  }

  /** A successful search over the indentation makes `StatementWith` succeed. */
  lemma SearchFound(voc: Vocabulary, s: string, crlf: bool)
    requires |NewlineText(crlf)| <= |s| && s[|s| - |NewlineText(crlf)|..] == NewlineText(crlf)
    requires FirstSome(0, |s| - |NewlineText(crlf)|, (i: nat) requires i <= |s| - |NewlineText(crlf)| => StatementAt(voc, s, crlf, i)).Some?
    ensures StatementWith(voc, s, crlf).Some?
  {
  }

  /** A statement read with either line break is a statement. */
  lemma WithFound(voc: Vocabulary, s: string, crlf: bool)
    requires StatementWith(voc, s, crlf).Some?
    ensures ParseStatement(voc, s).Some?
  {
  }

  /** Every well-formed statement is accepted. */
  lemma StatementComplete(voc: Vocabulary, st: Statement)
    requires WellFormed(voc) && StatementValid(voc, st)
    ensures ParseStatement(voc, StatementText(st)).Some?
  {
    var body := if st.line.Some? then LineText(st.line.value) else "";
    if st.line.Some? {
      LineComplete(voc, st.line.value);
    }
    StatementOf(voc, st.indent, body, st.crlf);
  }

  /** Indentation, accepted contents (or none) and a line break are accepted as a statement. */
  lemma StatementOf(voc: Vocabulary, indent: string, body: string, crlf: bool)
    requires All(indent, IsWhitespace) && (body == "" || ParseLine(voc, body).Some?)
    ensures ParseStatement(voc, indent + body + NewlineText(crlf)).Some?
  {
    var s := indent + body + NewlineText(crlf);
    Pieces(indent, body, NewlineText(crlf));
    assert StatementAt(voc, s, crlf, |indent|).Some?;
    StatementFound(voc, s, crlf, |indent|);
  }

  /** Every run of well-formed statements is accepted as a `source_file`. */
  lemma SourceFileComplete(voc: Vocabulary, sts: seq<Statement>)
    requires WellFormed(voc)
    requires forall i :: 0 <= i < |sts| ==> StatementValid(voc, sts[i])
    ensures ParseSourceFile(voc, Concat(Texts(sts, StatementText))).Some?
  {
    var elem := (t: string) => ParseStatement(voc, t);
    var valid := (st: Statement) => StatementValid(voc, st);
    forall i | 0 <= i < |sts|
      ensures StatementText(sts[i]) != "" && Accepts(elem, StatementText(sts[i]))
    {
      StatementComplete(voc, sts[i]);
    }
    ManyComplete(sts, elem, StatementText, valid);
  }

  /** A statement's text ends with its line feed. */
  lemma StatementEnds(st: Statement)
    ensures |StatementText(st)| > 0 && StatementText(st)[|StatementText(st)| - 1] == '\n'
  {
    var a := st.indent + (if st.line.Some? then LineText(st.line.value) else "");
    assert StatementText(st) == a + NewlineText(st.crlf);
  }

  /** A non-empty `source_file` ends with a line feed: the last statement needs its `_newline`. */
  lemma SourceFileEnds(voc: Vocabulary, s: string)
    ensures ParseSourceFile(voc, s).Some? && s != "" ==> s[|s| - 1] == '\n'
  {
    var r := ParseSourceFile(voc, s);
    if r.Some? && s != "" {
      StatementsEnd(r.value);
    }
  }

  /** Statements written back to back end with a line feed, unless there are none. */
  lemma StatementsEnd(sts: seq<Statement>)
    ensures var t := Concat(Texts(sts, StatementText)); t != "" ==> t[|t| - 1] == '\n'
  {
    var ts := Texts(sts, StatementText);
    if sts != [] {
      ConcatLast(ts);
      TextsAt(sts, StatementText, |ts| - 1);
      StatementEnds(sts[|ts| - 1]);
    }
  }

  /** A text whose last line has no line break is rejected as a whole. */
  lemma MissingFinalNewline(voc: Vocabulary, s: string)
    requires s != "" && s[|s| - 1] != '\n'
    ensures ParseSourceFile(voc, s) == None
  {
    SourceFileEnds(voc, s);
  }

  /** `#[^!]` lets the character after `#` be the line feed itself, so `#` takes the next line as its contents. */
  lemma CommentTakesNewline(voc: Vocabulary)
    ensures ParseStatement(voc, "#\n\n") == Some(Statement("", Some(Comment('\n', "")), false))
  {
    var s := "#\n\n";
    assert StatementWith(voc, s, true) == None;
    assert s[..0] == "" && s[0..2] == "#\n";
    assert ParseMime("#\n") == None;
    assert ParseComment("#\n") == Some(Comment('\n', ""));
    assert StatementAt(voc, s, false, 0) == Some(Statement("", Some(Comment('\n', "")), false));
  }
}
