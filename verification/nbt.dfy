/**
 * Structured data: `compound_identifier`, `compound_value`,
 * `_key_value_pair`, and the three `_nbt_type` forms `nbt_compound`,
 * `nbt_list` and `nbt_typed_array` (grammar.js:245-298). Values, pairs and
 * NBT structures are mutually recursive.
 */
module Nbt {
  import opened Base
  import opened Layout
  import opened Combinators
  import opened Numbers
  import opened Lexemes
  import opened Strings

  // ---------------------------------------------------------------------------
  // compound_identifier

  /** `[a-zA-Z_\.]`. */
  predicate IsKeyChar(c: char)
  {
    IsLetter(c) || c == '_' || c == '.'
  }

  /** `compound_identifier`: an optionally namespaced name, a string, or a macro. */
  datatype Key = NameKey(ns: Option<string>, name: string) | StringKey(str: QuotedString) | MacroKey(m: Macro)
  {
    predicate Valid()
    {
      match this
      case NameKey(ns, name) => (ns.Some? ==> Run1(ns.value, IsIdentChar)) && Run1(name, IsKeyChar)
      case StringKey(str) => str.Valid()
      case MacroKey(m) => m.Valid()
    }

    function Text(): string
    {
      match this
      case NameKey(ns, name) => (if ns.Some? then ns.value + ":" else "") + name
      case StringKey(str) => str.Text()
      case MacroKey(m) => m.Text()
    }
  }

  /** The name-key token: a name, after a namespace and `:` when the text has a colon. */
  function ParseNameKey(s: string): (r: Option<Key>)
    ensures r.Some? ==> r.value.Valid() && r.value.Text() == s && r.value.NameKey?
  {
    var i := IndexOf(s, ':');
    if i == |s| then
      if Run1(s, IsKeyChar) then Some(NameKey(None, s)) else None
    else if Run1(s[..i], IsIdentChar) && Run1(s[i + 1..], IsKeyChar) then
      assert s == s[..i] + ":" + s[i + 1..];
      Some(NameKey(Some(s[..i]), s[i + 1..]))
    else None
  }

  /** Reads `s` as one `compound_identifier`, in the order the grammar lists the alternatives. */
  function ParseKey(s: string): (r: Option<Key>)
    ensures r.Some? ==> r.value.Valid() && r.value.Text() == s
  {
    var n := ParseNameKey(s);
    if n.Some? then n
    else
      var q := ParseString(s);
      if q.Some? then Some(StringKey(q.value))
      else
        var m := ParseMacro(s);
        if m.Some? then Some(MacroKey(m.value)) else None
  }

  lemma NameKeyRoundTrip(k: Key)
    requires k.Valid() && k.NameKey?
    ensures ParseNameKey(k.Text()) == Some(k)
  {
    var s := k.Text();
    if k.ns.Some? {
      var i := |k.ns.value|;
      Pieces(k.ns.value, ":", k.name);
      forall j | 0 <= j < i
        ensures s[j] != ':'
      {
        assert s[j] == k.ns.value[j];
      }
      assert s[i] == ':';
      assert IndexOf(s, ':') == i;
    } else {
      assert s == k.name;
      forall j | 0 <= j < |s|
        ensures s[j] != ':'
      {
        assert s[j] == k.name[j];
      }
      assert IndexOf(s, ':') == |s|;
    }
  }

  /** Every well-formed key is accepted. */
  lemma KeyComplete(k: Key)
    requires k.Valid()
    ensures |k.Text()| > 0 && ParseKey(k.Text()).Some?
  {
    match k
    case NameKey(_, _) => NameKeyRoundTrip(k);
    case StringKey(str) =>
      StringComplete(str);
      QuotesMatch(str);
    case MacroKey(m) =>
      MacroRoundTrip(m);
      MacroEnds(m.Text());
  }

  // ---------------------------------------------------------------------------
  // compound_value, _key_value_pair and _nbt_type

  /** The element type letter of `nbt_typed_array`: upper-case `B`, `I` or `L`. */
  datatype ArrayTag = ByteArray | IntArray | LongArray
  {
    /** The text before the first element: `[`, the letter, `;`. */
    function Open(): string
    {
      match this
      case ByteArray => "[B;"
      case IntArray => "[I;"
      case LongArray => "[L;"
    }
  }

  /** `_nbt_type`. */
  datatype Nbt = Compound(pairs: Items<Pair>) | List(values: Items<Value>) | Typed(tag: ArrayTag, ints: Items<IntegerLit>)

  /** `compound_value`, one variant per alternative of the grammar. */
  datatype Value =
    | VBool(b: BoolLit)
    | VType(t: TypeName)
    | VInt(i: IntegerLit)
    | VFloat(f: FloatLit)
    | VString(str: QuotedString)
    | VResource(res: Resource)
    | VWord(w: Word)
    | VRange(range: Range)
    | VNbt(n: Nbt)
    | VMacro(m: Macro)

  /** `_key_value_pair`: key, padding, `=` or `:`, an optional `!`, padding, value. */
  datatype Pair = Pair(key: Key, before: Option<Space>, colon: bool, bang: bool, after: Option<Space>, value: Value)

  function IntText(x: IntegerLit): string { x.Text() }

  predicate IntValid(x: IntegerLit) { x.Valid() }

  function NbtText(n: Nbt): string
  {
    match n
    case Compound(it) => ArrayText("{", "}", it.frame, PairTexts(it.elems))
    case List(it) => ArrayText("[", "]", it.frame, ValueTexts(it.elems))
    case Typed(tag, it) => ArrayText(tag.Open(), "]", it.frame, Texts(it.elems, IntText))
  }

  function ValueText(v: Value): string
  {
    match v
    case VBool(b) => b.Text()
    case VType(t) => t.Text()
    case VInt(i) => i.Text()
    case VFloat(f) => f.Text()
    case VString(str) => str.Text()
    case VResource(res) => res.Text()
    case VWord(w) => w.Text()
    case VRange(range) => range.Text()
    case VNbt(n) => NbtText(n)
    case VMacro(m) => m.Text()
  }

  function SepText(colon: bool): string
  {
    if colon then ":" else "="
  }

  function BangText(bang: bool): string
  {
    if bang then "!" else ""
  }

  function PairText(p: Pair): string
  {
    p.key.Text() + OptText(p.before) + SepText(p.colon) + BangText(p.bang) + OptText(p.after) + ValueText(p.value)
  }

  function PairTexts(ps: seq<Pair>): (ts: seq<string>)
    ensures |ts| == |ps|
  {
    if ps == [] then [] else [PairText(ps[0])] + PairTexts(ps[1..])
  }

  function ValueTexts(vs: seq<Value>): (ts: seq<string>)
    ensures |ts| == |vs|
  {
    if vs == [] then [] else [ValueText(vs[0])] + ValueTexts(vs[1..])
  }

  predicate NbtValid(n: Nbt)
  {
    match n
    case Compound(it) => Shaped(it) && forall i :: 0 <= i < |it.elems| ==> PairValid(it.elems[i])
    case List(it) => Shaped(it) && forall i :: 0 <= i < |it.elems| ==> ValueValid(it.elems[i])
    case Typed(_, it) => Shaped(it) && AllValid(it.elems, IntValid)
  }

  predicate ValueValid(v: Value)
  {
    match v
    case VBool(_) => true
    case VType(_) => true
    case VInt(i) => i.Valid()
    case VFloat(f) => f.Valid()
    case VString(str) => str.Valid()
    case VResource(res) => res.Valid()
    case VWord(w) => w.Valid()
    case VRange(range) => range.Valid()
    case VNbt(n) => NbtValid(n)
    case VMacro(m) => m.Valid()
  }

  predicate PairValid(p: Pair)
  {
    p.key.Valid() && OptValid(p.before) && OptValid(p.after) && ValueValid(p.value)
  }

  lemma {:induction false} PairTextsAre(ps: seq<Pair>)
    ensures PairTexts(ps) == Texts(ps, PairText)
  {
    if ps != [] { PairTextsAre(ps[1..]); }
  }

  lemma {:induction false} ValueTextsAre(vs: seq<Value>)
    ensures ValueTexts(vs) == Texts(vs, ValueText)
  {
    if vs != [] { ValueTextsAre(vs[1..]); }
  }

  lemma IntSound(n: nat)
    ensures Sound(n, ParseInteger, IntText, IntValid)
  {
  }

  // ---------------------------------------------------------------------------
  // parsers

  /** The alternatives of `compound_value` before `_nbt_type`, tried in the grammar's order. */
  function ParseLeafValue(s: string): (r: Option<Value>)
    ensures r.Some? ==> ValueValid(r.value) && ValueText(r.value) == s
  {
    var b := ParseBool(s);
    if b.Some? then Some(VBool(b.value))
    else
      var t := ParseTypeName(s);
      if t.Some? then Some(VType(t.value))
      else
        var i := ParseInteger(s);
        if i.Some? then Some(VInt(i.value))
        else
          var f := ParseFloat(s);
          if f.Some? then Some(VFloat(f.value))
          else ParseTextValue(s)
  }

  /** `string`, `resource`, `word` and `range`, in that order. */
  function ParseTextValue(s: string): (r: Option<Value>)
    ensures r.Some? ==> ValueValid(r.value) && ValueText(r.value) == s
  {
    var q := ParseString(s);
    if q.Some? then Some(VString(q.value))
    else
      var res := ParseResource(s);
      if res.Some? then Some(VResource(res.value))
      else
        var w := ParseWord(s);
        if w.Some? then Some(VWord(w.value))
        else
          var g := ParseRange(s);
          if g.Some? then Some(VRange(g.value)) else None
  }

  /** Reads `s` as one `compound_value`. */
  function ParseValue(s: string): (r: Option<Value>)
    ensures r.Some? ==> ValueValid(r.value) && ValueText(r.value) == s
    decreases |s|, 3
  {
    var a := ParseLeafValue(s);
    if a.Some? then a
    else
      var n := ParseNbt(s);
      if n.Some? then Some(VNbt(n.value))
      else
        var m := ParseMacro(s);
        if m.Some? then Some(VMacro(m.value)) else None
  }

  /** Reads `s` as one `_nbt_type`: compound, then list, then typed array. */
  function ParseNbt(s: string): (r: Option<Nbt>)
    ensures r.Some? ==> NbtValid(r.value) && NbtText(r.value) == s
    decreases |s|, 2
  {
    var c := ParseCompound(s);
    if c.Some? then c
    else
      var l := ParseList(s);
      if l.Some? then l else ParseTypedArray(s)
  }

  /** `nbt_compound`: `ARRAY("{", "}", _key_value_pair)`. */
  function ParseCompound(s: string): (r: Option<Nbt>)
    ensures r.Some? ==> NbtValid(r.value) && NbtText(r.value) == s
    decreases |s|, 1
  {
    var a := Array("{", "}", s, (t: string) requires |t| < |s| => ParsePair(t), PairText, PairValid);
    if a.None? then None
    else
      PairTextsAre(a.value.elems);
      Some(Compound(a.value))
  }

  /** `nbt_list`: `ARRAY("[", "]", compound_value)`. */
  function ParseList(s: string): (r: Option<Nbt>)
    ensures r.Some? ==> NbtValid(r.value) && NbtText(r.value) == s
    decreases |s|, 1
  {
    var a := Array("[", "]", s, (t: string) requires |t| < |s| => ParseValue(t), ValueText, ValueValid);
    if a.None? then None
    else
      ValueTextsAre(a.value.elems);
      Some(List(a.value))
  }

  /** `nbt_typed_array`: `[`, an upper-case `B`, `I` or `L`, `;`, then the body of an `ARRAY` of integers. */
  function ParseTypedArray(s: string): (r: Option<Nbt>)
    ensures r.Some? ==> NbtValid(r.value) && NbtText(r.value) == s && r.value.Typed?
  {
    IntSound(|s|);
    if |s| >= 3 && s[..3] == "[B;" then TypedIn(s, ByteArray)
    else if |s| >= 3 && s[..3] == "[I;" then TypedIn(s, IntArray)
    else if |s| >= 3 && s[..3] == "[L;" then TypedIn(s, LongArray)
    else None
  }

  function TypedIn(s: string, tag: ArrayTag): (r: Option<Nbt>)
    ensures r.Some? ==> NbtValid(r.value) && NbtText(r.value) == s && r.value.Typed? && r.value.tag == tag
  {
    IntSound(|s|);
    var a := Array(tag.Open(), "]", s, ParseInteger, IntText, IntValid);
    if a.Some? then Some(Typed(tag, a.value)) else None
  }

  /** Reads `s` as one `_key_value_pair`, trying each `=` or `:` in turn as the separator. */
  function ParsePair(s: string): (r: Option<Pair>)
    ensures r.Some? ==> PairValid(r.value) && PairText(r.value) == s
    decreases |s|, 5
  {
    FirstSome(0, |s|, (p: nat) requires p <= |s| => PairAt(s, p))
  }

  /** A pair whose separator sits at index `p` of `s`, without or with the `!`. */
  function PairAt(s: string, p: nat): (r: Option<Pair>)
    requires p <= |s|
    ensures r.Some? ==> PairValid(r.value) && PairText(r.value) == s
    decreases |s|, 4
  {
    if p < |s| && (s[p] == '=' || s[p] == ':') then Or(PairFrom(s, p, false), PairFrom(s, p, true))
    else None
  }

  /** The key and the padding that make up `h`, the text before a separator. */
  function PairHead(h: string): (r: Option<(Key, Option<Space>)>)
    ensures r.Some? ==> r.value.0.Valid() && OptValid(r.value.1) && r.value.0.Text() + OptText(r.value.1) == h
  {
    FirstSome(1, |h|, (b: nat) requires 1 <= b <= |h| => HeadAt(h, b))
  }

  /** The key ends at index `b` of `h`, and padding fills the rest. */
  function HeadAt(h: string, b: nat): (r: Option<(Key, Option<Space>)>)
    requires 1 <= b <= |h|
    ensures r.Some? ==> r.value.0.Valid() && OptValid(r.value.1) && r.value.0.Text() + OptText(r.value.1) == h
  {
    var k := ParseKey(h[..b]);
    var sp := ParseOptSpace(h[b..]);
    if k.Some? && sp.Some? then
      Halves(h, b);
      Some((k.value, sp.value))
    else None
  }

  /** The padding and the value that make up `t`, the text after the separator and the `!`. */
  function PairTail(t: string): (r: Option<(Option<Space>, Value)>)
    ensures r.Some? ==> OptValid(r.value.0) && ValueValid(r.value.1) && OptText(r.value.0) + ValueText(r.value.1) == t
    decreases |t|, 5
  {
    FirstSome(0, |t|, (a: nat) requires a <= |t| => PairTailAt(t, a))
  }

  /** The padding spans `t` up to index `a`, and the value the rest. */
  function PairTailAt(t: string, a: nat): (r: Option<(Option<Space>, Value)>)
    requires a <= |t|
    ensures r.Some? ==> OptValid(r.value.0) && ValueValid(r.value.1) && OptText(r.value.0) + ValueText(r.value.1) == t
    decreases |t|, 4
  {
    var sp := ParseOptSpace(t[..a]);
    if sp.None? then None
    else
      var v := ParseValue(t[a..]);
      if v.None? then None
      else
        Halves(t, a);
        Some((sp.value, v.value))
  }

  /** A pair with its separator at index `p`, and a `!` after it when `bang`. */
  function PairFrom(s: string, p: nat, bang: bool): (r: Option<Pair>)
    requires p < |s| && (s[p] == '=' || s[p] == ':')
    ensures r.Some? ==> PairValid(r.value) && PairText(r.value) == s
    decreases |s|, 3
  {
    var q := p + 1 + |BangText(bang)|;
    if q > |s| || s[p + 1..q] != BangText(bang) then None
    else
      var h := PairHead(s[..p]);
      if h.None? then None
      else
        var tail := PairTail(s[q..]);
        if tail.None? then None
        else
          var pr := Pair(h.value.0, h.value.1, s[p] == ':', bang, tail.value.0, tail.value.1);
          PairJoin(s, p, q, pr);
          Some(pr)
  }

  /** A pair's text, put together from the pieces of `s` around the separator at `p`. */
  lemma PairJoin(s: string, p: nat, q: nat, pr: Pair)
    requires p < q <= |s| && q == p + 1 + |BangText(pr.bang)|
    requires pr.key.Text() + OptText(pr.before) == s[..p]
    requires SepText(pr.colon) == [s[p]] && BangText(pr.bang) == s[p + 1..q]
    requires OptText(pr.after) + ValueText(pr.value) == s[q..]
    ensures PairText(pr) == s
  {
    assert s == s[..p] + [s[p]] + s[p + 1..q] + s[q..];
  }
  // ---------------------------------------------------------------------------
  // completeness

  /** `ParseLeafValue` succeeds when one of its alternatives does. */
  lemma LeafAlternatives(s: string)
    ensures ParseBool(s).Some? || ParseTypeName(s).Some? || ParseInteger(s).Some? || ParseFloat(s).Some?
            || ParseString(s).Some? || ParseResource(s).Some? || ParseWord(s).Some? || ParseRange(s).Some?
            ==> ParseLeafValue(s).Some?
  {
  }

  /** The alternatives of a value other than an NBT structure or a macro are each accepted. */
  lemma LeafComplete(v: Value)
    requires ValueValid(v) && !v.VNbt? && !v.VMacro?
    ensures ValueText(v) != "" && ParseLeafValue(ValueText(v)).Some?
  {
    LeafAlternatives(ValueText(v));
    match v
    case VBool(b) => BoolRoundTrip(b);
    case VType(t) => TypeNameRoundTrip(t);
    case VInt(i) => IntegerRoundTrip(i);
    case VFloat(f) => FloatRoundTrip(f);
    case VString(str) =>
      QuotesMatch(str);
      StringComplete(str);
    case VResource(res) =>
      assert |res.head.Text()| > 0;
      ResourceComplete(res);
    case VWord(w) => WordRoundTrip(w);
    case VRange(range) => RangeRoundTrip(range);
  }

  /** Every well-formed value is accepted (possibly as another alternative with the same text). */
  lemma {:induction false} ValueComplete(v: Value)
    requires ValueValid(v)
    ensures ValueText(v) != "" && ParseValue(ValueText(v)).Some?
    decreases v
  {
    match v
    case VNbt(n) => NbtComplete(n);
    case VMacro(m) =>
      MacroRoundTrip(m);
      MacroEnds(m.Text());
    case _ => LeafComplete(v);
  }

  /** Every well-formed NBT structure is accepted. */
  lemma {:induction false} NbtComplete(n: Nbt)
    requires NbtValid(n)
    ensures NbtText(n) != "" && ParseNbt(NbtText(n)).Some?
    decreases n, 1
  {
    match n
    case Compound(_) => CompoundComplete(n);
    case List(_) => ListComplete(n);
    case Typed(tag, it) => TypedComplete(tag, it);
  }

  /** Every well-formed compound is accepted. */
  lemma {:induction false} CompoundComplete(n: Nbt)
    requires n.Compound? && NbtValid(n)
    ensures NbtText(n) != "" && ParseNbt(NbtText(n)).Some?
    decreases n, 0
  {
    var s := NbtText(n);
    var it := n.pairs;
    PairTextsAre(it.elems);
    assert s == ItemsText("{", "}", it, PairText);
    var elem := (t: string) requires |t| < |s| => ParsePair(t);
    forall i | 0 <= i < |it.elems|
      ensures PairText(it.elems[i]) != "" && Accepts(elem, PairText(it.elems[i]))
    {
      ElementShorter("{", "}", it, PairText, i);
      PairComplete(it.elems[i]);
    }
    ArrayComplete("{", "}", it, elem, PairText, PairValid);
    CompoundFound(s);
  }

  /** A text the compound's `ARRAY` accepts is accepted as a value. */
  lemma CompoundFound(s: string)
    requires Array("{", "}", s, (t: string) requires |t| < |s| => ParsePair(t), PairText, PairValid).Some?
    ensures ParseNbt(s).Some?
  {
  }

  /** Every well-formed list is accepted. */
  lemma {:induction false} ListComplete(n: Nbt)
    requires n.List? && NbtValid(n)
    ensures NbtText(n) != "" && ParseNbt(NbtText(n)).Some?
    decreases n, 0
  {
    var s := NbtText(n);
    var it := n.values;
    ValueTextsAre(it.elems);
    assert s == ItemsText("[", "]", it, ValueText);
    var elem := (t: string) requires |t| < |s| => ParseValue(t);
    forall i | 0 <= i < |it.elems|
      ensures ValueText(it.elems[i]) != "" && Accepts(elem, ValueText(it.elems[i]))
    {
      ElementShorter("[", "]", it, ValueText, i);
      ValueComplete(it.elems[i]);
    }
    ArrayComplete("[", "]", it, elem, ValueText, ValueValid);
    ListFound(s);
  }

  /** A text the list's `ARRAY` accepts is accepted as a value. */
  lemma ListFound(s: string)
    requires Array("[", "]", s, (t: string) requires |t| < |s| => ParseValue(t), ValueText, ValueValid).Some?
    ensures ParseNbt(s).Some?
  {
  }

  lemma TypedComplete(tag: ArrayTag, it: Items<IntegerLit>)
    requires NbtValid(Typed(tag, it))
    ensures NbtText(Typed(tag, it)) != "" && ParseTypedArray(NbtText(Typed(tag, it))).Some?
  {
    var s := NbtText(Typed(tag, it));
    IntSound(|s|);
    forall i | 0 <= i < |it.elems|
      ensures IntText(it.elems[i]) != "" && Accepts(ParseInteger, IntText(it.elems[i]))
    {
      IntegerRoundTrip(it.elems[i]);
    }
    ArrayComplete(tag.Open(), "]", it, ParseInteger, IntText, IntValid);
    ArrayOpens(tag.Open(), "]", it, IntText);
    TypedAt(s, tag);
  }

  /** A text that opens with a tag's `[B;`, `[I;` or `[L;` and is accepted as its array is a typed array. */
  lemma TypedAt(s: string, tag: ArrayTag)
    requires StartsWith(s, tag.Open()) && Sound(|s|, ParseInteger, IntText, IntValid)
    requires Array(tag.Open(), "]", s, ParseInteger, IntText, IntValid).Some?
    ensures ParseTypedArray(s).Some?
  {
    assert TypedIn(s, tag).Some?;
  }

  /** An accepted key followed by accepted padding is the head of a pair. */
  lemma HeadFound(k: string, b: string)
    requires |k| > 0 && ParseKey(k).Some? && ParseOptSpace(b).Some?
    ensures PairHead(k + b).Some?
  {
    Parts(k, b);
    assert HeadAt(k + b, |k|).Some?;
    FirstSomeFinds(1, |k + b|, (b0: nat) requires 1 <= b0 <= |k + b| => HeadAt(k + b, b0), |k|);
  }

  /** Accepted padding followed by an accepted value is the tail of a pair. */
  lemma TailFound(a: string, v: string)
    requires ParseOptSpace(a).Some? && ParseValue(v).Some?
    ensures PairTail(a + v).Some?
  {
    Parts(a, v);
    assert PairTailAt(a + v, |a|).Some?;
    FirstSomeFinds(0, |a + v|, (a0: nat) requires a0 <= |a + v| => PairTailAt(a + v, a0), |a|);
  }

  lemma FromFound(s: string, p: nat, bang: bool)
    requires p < |s| && (s[p] == '=' || s[p] == ':')
    requires p + 1 + |BangText(bang)| <= |s| && s[p + 1..p + 1 + |BangText(bang)|] == BangText(bang)
    requires PairHead(s[..p]).Some? && PairTail(s[p + 1 + |BangText(bang)|..]).Some?
    ensures PairFrom(s, p, bang).Some?
  {
  }

  lemma AtFound(s: string, p: nat, bang: bool)
    requires p < |s| && (s[p] == '=' || s[p] == ':') && PairFrom(s, p, bang).Some?
    ensures PairAt(s, p).Some?
  {
  }

  /** Every well-formed pair is accepted. */
  lemma {:induction false} PairComplete(p: Pair)
    requires PairValid(p)
    ensures PairText(p) != "" && ParsePair(PairText(p)).Some?
    decreases p
  {
    ValueComplete(p.value);
    PairFound(p);
  }

  /** A well-formed pair whose value is accepted is accepted. */
  lemma PairFound(p: Pair)
    requires PairValid(p) && ParseValue(ValueText(p.value)).Some?
    ensures PairText(p) != "" && ParsePair(PairText(p)).Some?
  {
    KeyComplete(p.key);
    OptSpaceRoundTrip(p.before);
    OptSpaceRoundTrip(p.after);
    PiecesFound(p.key.Text(), OptText(p.before), p.colon, p.bang, OptText(p.after), ValueText(p.value));
  }

  /** Accepted key, padding and value, around `=` or `:` and an optional `!`, are accepted as a pair. */
  lemma PiecesFound(k: string, b: string, colon: bool, bang: bool, a: string, v: string)
    requires |k| > 0 && ParseKey(k).Some? && ParseOptSpace(b).Some?
    requires ParseOptSpace(a).Some? && ParseValue(v).Some?
    ensures ParsePair(k + b + SepText(colon) + BangText(bang) + a + v).Some?
  {
    HeadFound(k, b);
    TailFound(a, v);
    Regroup(k, b, SepText(colon), BangText(bang), a, v);
    PairAssembled(k + b, colon, bang, a + v);
  }

  lemma Regroup(k: string, b: string, c: string, d: string, a: string, v: string)
    ensures k + b + c + d + a + v == (k + b) + c + d + (a + v)
  {
  }

  /** An accepted head and tail around `=` or `:` and an optional `!` are accepted as a pair. */
  lemma PairAssembled(h: string, colon: bool, bang: bool, t: string)
    requires PairHead(h).Some? && PairTail(t).Some?
    ensures ParsePair(h + SepText(colon) + BangText(bang) + t).Some?
  {
    var s := h + SepText(colon) + BangText(bang) + t;
    PairShape(h, SepText(colon), BangText(bang), t);
    PairChain(s, |h|, bang);
  }

  /** Where the pieces of a pair's text sit, and that the separator is one character. */
  lemma PairShape(h: string, c: string, d: string, t: string)
    requires c == "=" || c == ":"
    ensures var s := h + c + d + t;
      |h| + 1 + |d| <= |s| && s[..|h|] == h && (s[|h|] == '=' || s[|h|] == ':')
      && s[|h| + 1..|h| + 1 + |d|] == d && s[|h| + 1 + |d|..] == t
  {
    var s := h + c + d + t;
    assert s[|h|] == c[0];
  }

  /** A pair whose key, separator, `!` and tail are found is accepted. */
  lemma PairChain(s: string, p0: nat, bang: bool)
    requires p0 < |s| && (s[p0] == '=' || s[p0] == ':')
    requires p0 + 1 + |BangText(bang)| <= |s| && s[p0 + 1..p0 + 1 + |BangText(bang)|] == BangText(bang)
    requires PairHead(s[..p0]).Some? && PairTail(s[p0 + 1 + |BangText(bang)|..]).Some?
    ensures ParsePair(s).Some?
  {
    FromFound(s, p0, bang);
    AtFound(s, p0, bang);
    PairAtFound(s, p0);
  }

  lemma PairAtFound(s: string, p: nat)
    requires p <= |s| && PairAt(s, p).Some?
    ensures ParsePair(s).Some?
  {
    FirstSomeFinds(0, |s|, (p: nat) requires p <= |s| => PairAt(s, p), p);
  }
  // ---------------------------------------------------------------------------
  // properties of the structures

  /** `{}` is accepted as the empty compound. */
  lemma EmptyCompound()
    ensures ParseNbt("{}") == Some(Compound(Items(None, [])))
  {
    ArrayEmpty("{", "}", (t: string) requires |t| < |"{}"| => ParsePair(t), PairText, PairValid);
  }

  /** `[]` is accepted as the empty list, and not as a compound. */
  lemma EmptyList()
    ensures ParseNbt("[]") == Some(List(Items(None, [])))
  {
    ArrayEmpty("[", "]", (t: string) requires |t| < |"[]"| => ParseValue(t), ValueText, ValueValid);
    assert ParseCompound("[]").None?;
  }

  /** `[I;]` is accepted as the empty typed array of ints, and as some structure. */
  lemma EmptyTypedArray()
    ensures ParseTypedArray("[I;]") == Some(Typed(IntArray, Items(None, [])))
    ensures ParseNbt("[I;]").Some?
  {
    var s := "[I;]";
    assert s == "[I;" + "]";
    assert s[..3] == "[I;" && s[..3] != "[B;";
    IntSound(4);
    ArrayEmpty("[I;", "]", ParseInteger, IntText, IntValid);
    assert TypedIn(s, IntArray) == Some(Typed(IntArray, Items(None, [])));
  }


  /** An integer begins and ends with neither a comma nor padding. */
  lemma IntegerEdges(x: IntegerLit)
    requires x.Valid()
    ensures var t := IntText(x);
      t != "" && t[0] != ',' && !LayoutChar(t[0]) && t[|t| - 1] != ',' && !LayoutChar(t[|t| - 1])
  {
    var t := IntText(x);
    Pieces(SignText(x.negative), x.digits, SuffixText(x.suffix));
    var first, last := x.digits[0], x.digits[|x.digits| - 1];
    assert IsDigit(first) && IsDigit(last);
    if x.negative {
      assert t[0] == '-';
    } else {
      assert t[0] == first;
      Solid(first);
    }
    if x.suffix.Some? {
      assert t[|t| - 1] == x.suffix.value.Char();
      SuffixSolid(x.suffix.value);
    } else {
      assert t[|t| - 1] == last;
      Solid(last);
    }
  }

  /** A digit is neither a comma nor padding. */
  lemma Solid(c: char)
    requires IsDigit(c)
    ensures c != ',' && !LayoutChar(c)
  {
  }

  /** A width letter is neither a comma nor padding. */
  lemma SuffixSolid(x: IntSuffix)
    ensures x.Char() != ',' && !LayoutChar(x.Char())
  {
  }

  /**
   * The shape of an accepted typed array: `[`, an upper-case `B`, `I` or
   * `L`, `;`, and `]` at the end; after the `;` and before the `]`, past any
   * padding, there is no comma.
   */
  lemma TypedArrayShape(s: string)
    ensures ParseTypedArray(s).Some? ==>
      |s| >= 4 && s[0] == '[' && (s[1] == 'B' || s[1] == 'I' || s[1] == 'L') && s[2] == ';'
      && s[|s| - 1] == ']' && NoLeadingComma(s, 3, |s| - 1) && NoTrailingComma(s, 2, |s| - 1)
  {
    if ParseTypedArray(s).Some? {
      var n := ParseTypedArray(s).value;
      TypedTextShape(n.tag, n.ints);
    }
  }

  lemma TypedTextShape(tag: ArrayTag, it: Items<IntegerLit>)
    requires NbtValid(Typed(tag, it))
    ensures var s := NbtText(Typed(tag, it));
      |s| >= 4 && s[0] == '[' && (s[1] == 'B' || s[1] == 'I' || s[1] == 'L') && s[2] == ';'
      && s[|s| - 1] == ']' && NoLeadingComma(s, 3, |s| - 1) && NoTrailingComma(s, 2, |s| - 1)
  {
    assert NbtText(Typed(tag, it)) == ItemsText(tag.Open(), "]", it, IntText);
    TypedItemsShape(tag.Open(), it);
  }

  /** Integers framed by a three-character opening and `]` have no comma next to either end, past any padding. */
  lemma TypedItemsShape(open: string, it: Items<IntegerLit>)
    requires |open| == 3 && open[2] == ';' && Shaped(it) && AllValid(it.elems, IntValid)
    ensures var s := ItemsText(open, "]", it, IntText);
      |s| >= 4 && s[..3] == open && s[|s| - 1] == ']' && NoLeadingComma(s, 3, |s| - 1) && NoTrailingComma(s, 2, |s| - 1)
  {
    var noComma := (c: char) => c != ',';
    forall i | 0 <= i < |it.elems|
      ensures IntText(it.elems[i]) != "" && !LayoutChar(IntText(it.elems[i])[0]) && noComma(IntText(it.elems[i])[0])
      ensures !LayoutChar(IntText(it.elems[i])[|IntText(it.elems[i])| - 1])
      ensures noComma(IntText(it.elems[i])[|IntText(it.elems[i])| - 1])
    {
      IntegerEdges(it.elems[i]);
    }
    ArrayOpens(open, "]", it, IntText);
    AfterOpen(open, "]", it, IntText, noComma);
    BeforeClose(open, "]", it, IntText, noComma);
  }

  /**
   * A letter other than `B`, `I` or `L` is rejected, and so is a comma right
   * after the `;` or right before the `]`, whatever padding `t` stands between.
   */
  lemma TypedArrayRejects(c: char, body: string, t: string)
    requires c != 'B' && c != 'I' && c != 'L'
    requires All(t, LayoutChar)
    ensures ParseTypedArray("[" + [c] + ";" + body).None?
    ensures forall tag: ArrayTag :: ParseTypedArray(tag.Open() + t + "," + body).None?
    ensures forall tag: ArrayTag :: ParseTypedArray(tag.Open() + body + "," + t + "]").None?
  {
    TypedArrayShape("[" + [c] + ";" + body);
    forall tag: ArrayTag
      ensures ParseTypedArray(tag.Open() + t + "," + body).None?
    {
      LeadingCommaRejected(tag.Open(), t, body);
    }
    forall tag: ArrayTag
      ensures ParseTypedArray(tag.Open() + body + "," + t + "]").None?
    {
      TrailingCommaRejected(tag.Open(), body, t);
    }
  }

  /** A comma after the opening and padding is a leading comma. */
  lemma LeadingCommaRejected(open: string, t: string, body: string)
    requires |open| == 3 && All(t, LayoutChar)
    ensures ParseTypedArray(open + t + "," + body).None?
  {
    var s := open + t + "," + body;
    var j := 3 + |t|;
    assert s[j] == ',';
    assert forall m :: 3 <= m < j ==> s[m] == t[m - 3];
    TypedArrayShape(s);
  }

  /** A comma before padding and the closing `]` is a trailing comma. */
  lemma TrailingCommaRejected(open: string, body: string, t: string)
    requires |open| == 3 && All(t, LayoutChar)
    ensures ParseTypedArray(open + body + "," + t + "]").None?
  {
    var s := open + body + "," + t + "]";
    var j := 3 + |body|;
    assert s[j] == ',';
    assert forall m :: j < m < |s| - 1 ==> s[m] == t[m - j - 1];
    TypedArrayShape(s);
  }

  /** The same text is two different pairs: a namespaced key, or a key before a resource. */
  lemma PairAmbiguity()
    ensures var p1 := Pair(NameKey(Some("a"), "b"), None, true, false, None, VWord(Plain(false, "c")));
      var p2 := Pair(NameKey(None, "a"), None, true, false, None, VResource(Resource(Namespaced(false, "b"), [Segment("c")])));
      PairValid(p1) && PairValid(p2) && p1 != p2 && PairText(p1) == "a:b:c" == PairText(p2)
  {
    var res := Resource(Namespaced(false, "b"), [Segment("c")]);
    assert Texts([Segment("c")], PartText) == ["c"];
    assert Concat(["c"]) == "c";
    assert res.Text() == "b:c";
    assert All("c", IsSegmentChar);
    assert All("b", IsKeyChar) && All("c", IsWordChar) && All("b", IsIdentChar) && All("a", IsKeyChar) && All("a", IsIdentChar);
  }
}
