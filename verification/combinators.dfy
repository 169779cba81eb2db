/**
 * The grammar's generic building blocks as higher-order parsers: `repeat` and
 * `repeat1` over an element rule, and the `ARRAY` helper (grammar.js:31-45),
 * which brackets zero or more comma-separated elements with optional
 * `_space` padding.
 *
 * Each combinator receives the element's parser `elem`, the element's printer
 * `render` and its well-formedness predicate `valid`; `Sound` says that the
 * element parser only returns well-formed trees that print back to the text it
 * was given.
 */
module Combinators {
  import opened Base
  import opened Layout

  /** On every text shorter than `bound`, `elem` returns only valid trees that print back to that text. */
  ghost predicate Sound<E>(bound: nat, elem: string --> Option<E>, render: E -> string, valid: E -> bool)
  {
    forall t: string {:trigger elem.requires(t)} {:trigger elem(t)} :: |t| < bound ==>
      elem.requires(t) && (elem(t).Some? ==> valid(elem(t).value) && render(elem(t).value) == t)
  }

  lemma SoundWeaken<E>(n: nat, m: nat, elem: string --> Option<E>, render: E -> string, valid: E -> bool)
    requires m <= n && Sound(n, elem, render, valid)
    ensures Sound(m, elem, render, valid)
  {
    forall t: string | |t| < m
      ensures elem.requires(t) && (elem(t).Some? ==> valid(elem(t).value) && render(elem(t).value) == t)
    {
      assert |t| < n;
    }
  }

  /** `elem` may be called on `t` and accepts it. */
  ghost predicate Accepts<E>(elem: string --> Option<E>, t: string)
  {
    elem.requires(t) && elem(t).Some?
  }

  predicate AllValid<E>(es: seq<E>, valid: E -> bool)
  {
    forall i :: 0 <= i < |es| ==> valid(es[i])
  }

  /** The texts of the elements, in order. */
  function Texts<E>(es: seq<E>, render: E -> string): (ts: seq<string>)
    ensures |ts| == |es|
  {
    if es == [] then [] else [render(es[0])] + Texts(es[1..], render)
  }

  /** Concatenation of the texts, in order. */
  function Concat(ts: seq<string>): string
  {
    if ts == [] then "" else ts[0] + Concat(ts[1..])
  }

  lemma TextsCons<E>(e: E, es: seq<E>, render: E -> string)
    ensures Texts([e] + es, render) == [render(e)] + Texts(es, render)
  {
    assert ([e] + es)[1..] == es;
  }

  lemma ConcatCons(t: string, ts: seq<string>)
    ensures Concat([t] + ts) == t + Concat(ts)
  {
    assert ([t] + ts)[1..] == ts;
  }

  /** One more element, and one more separator, in front of a non-empty interleaving. */
  lemma InterleaveCons<E>(sep: Sep, seps: seq<Sep>, e: E, es: seq<E>, render: E -> string)
    requires es != []
    ensures Interleave([sep] + seps, Texts([e] + es, render))
         == render(e) + sep.Text() + Interleave(seps, Texts(es, render))
  {
    TextsCons(e, es, render);
    assert ([sep] + seps)[1..] == seps;
    assert ([render(e)] + Texts(es, render))[1..] == Texts(es, render);
  }

  // ---------------------------------------------------------------------------
  // repeat / repeat1

  /** `repeat(element)`: zero or more elements written back to back. */
  function Many<E>(s: string, elem: string --> Option<E>, render: E -> string, valid: E -> bool): (r: Option<seq<E>>)
    requires Sound(|s| + 1, elem, render, valid)
    ensures r.Some? ==> AllValid(r.value, valid) && Concat(Texts(r.value, render)) == s
    decreases |s|, 1
  {
    if s == "" then Some([])
    else FirstSome(1, |s|, (k: nat) requires 1 <= k <= |s| => ManyStep(s, k, elem, render, valid))
  }

  /** The first element ends at index `k` of `s`. */
  function ManyStep<E>(s: string, k: nat, elem: string --> Option<E>, render: E -> string, valid: E -> bool): (r: Option<seq<E>>)
    requires 1 <= k <= |s|
    requires Sound(|s| + 1, elem, render, valid)
    ensures r.Some? ==> AllValid(r.value, valid) && Concat(Texts(r.value, render)) == s
    decreases |s|, 0
  {
    match elem(s[..k])
    case None => None
    case Some(e) =>
      match Many(s[k..], elem, render, valid)
      case None => None
      case Some(es) =>
        assert Concat(Texts([e] + es, render)) == s by {
          TextsCons(e, es, render);
          ConcatCons(render(e), Texts(es, render));
          assert s == s[..k] + s[k..];
        }
        Some([e] + es)
  }

  /** `repeat1(element)`: one or more elements written back to back. */
  function Many1<E>(s: string, elem: string --> Option<E>, render: E -> string, valid: E -> bool): (r: Option<seq<E>>)
    requires Sound(|s| + 1, elem, render, valid)
    ensures r.Some? ==> |r.value| > 0 && AllValid(r.value, valid) && Concat(Texts(r.value, render)) == s
  {
    match Many(s, elem, render, valid)
    case Some(es) => if es == [] then None else Some(es)
    case None => None
  }

  /** Every sequence of accepted, non-empty elements is accepted by `repeat`, and by `repeat1` when there is one. */
  lemma {:induction false} ManyComplete<E>(es: seq<E>, elem: string --> Option<E>, render: E -> string, valid: E -> bool)
    requires Sound(|Concat(Texts(es, render))| + 1, elem, render, valid)
    requires forall i :: 0 <= i < |es| ==> render(es[i]) != "" && Accepts(elem, render(es[i]))
    ensures Many(Concat(Texts(es, render)), elem, render, valid).Some?
    ensures es != [] ==> Many1(Concat(Texts(es, render)), elem, render, valid).Some?
  {
    var s := Concat(Texts(es, render));
    if es != [] {
      var k0 := |render(es[0])|;
      assert es == [es[0]] + es[1..];
      TextsCons(es[0], es[1..], render);
      ConcatCons(render(es[0]), Texts(es[1..], render));
      assert s == render(es[0]) + Concat(Texts(es[1..], render));
      assert s[..k0] == render(es[0]);
      assert s[k0..] == Concat(Texts(es[1..], render));
      forall i | 0 <= i < |es[1..]|
        ensures render(es[1..][i]) != "" && Accepts(elem, render(es[1..][i]))
      {
        assert es[1..][i] == es[i + 1];
      }
      ManyComplete(es[1..], elem, render, valid);
      assert ManyStep(s, k0, elem, render, valid).Some?;
      FirstSomeFinds(1, |s|, (k: nat) requires 1 <= k <= |s| => ManyStep(s, k, elem, render, valid), k0);
    }
  }

  // ---------------------------------------------------------------------------
  // ARRAY

  /** The layout of a non-empty `ARRAY`: padding after the opener, the separators, padding before the closer. */
  datatype Frame = Frame(lead: Option<Space>, seps: seq<Sep>, trail: Option<Space>)
  {
    predicate Valid()
    {
      OptValid(lead) && OptValid(trail) && forall i :: 0 <= i < |seps| ==> seps[i].Valid()
    }
  }

  /** The elements of one `ARRAY`, and its layout when it has elements. */
  datatype Items<E> = Items(frame: Option<Frame>, elems: seq<E>)

  /** The layout is present exactly when there are elements, with one separator between each two. */
  predicate Shaped<E>(it: Items<E>)
  {
    match it.frame
    case None => it.elems == []
    case Some(f) => f.Valid() && |f.seps| + 1 == |it.elems|
  }

  predicate ItemsValid<E>(it: Items<E>, valid: E -> bool)
  {
    Shaped(it) && AllValid(it.elems, valid)
  }

  /** `element repeat(seq(sep, element))`: the texts with the separators between them. */
  function Interleave(seps: seq<Sep>, ts: seq<string>): string
  {
    if ts == [] then ""
    else if |ts| == 1 || seps == [] then ts[0]
    else ts[0] + seps[0].Text() + Interleave(seps[1..], ts[1..])
  }

  /** The text of `ARRAY(open, close, element)` with the given layout and element texts. */
  function ArrayText(open: string, close: string, frame: Option<Frame>, ts: seq<string>): string
  {
    match frame
    case None => open + close
    case Some(f) => open + OptText(f.lead) + Interleave(f.seps, ts) + OptText(f.trail) + close
  }

  function ItemsText<E>(open: string, close: string, it: Items<E>, render: E -> string): string
  {
    ArrayText(open, close, it.frame, Texts(it.elems, render))
  }

  /** `element repeat(seq(sep, element))` over the whole of `s`. */
  function Separated<E>(s: string, elem: string --> Option<E>, render: E -> string, valid: E -> bool): (r: Option<(seq<Sep>, seq<E>)>)
    requires Sound(|s| + 1, elem, render, valid)
    ensures r.Some? ==> |r.value.0| + 1 == |r.value.1| && AllValid(r.value.1, valid)
    ensures r.Some? ==> (forall i :: 0 <= i < |r.value.0| ==> r.value.0[i].Valid())
    ensures r.Some? ==> Interleave(r.value.0, Texts(r.value.1, render)) == s
    decreases |s|, 2
  {
    FirstSome(1, |s|, (k: nat) requires 1 <= k <= |s| => SeparatedAt(s, k, elem, render, valid))
  }

  /** The first element of `s` ends at index `k`. */
  function SeparatedAt<E>(s: string, k: nat, elem: string --> Option<E>, render: E -> string, valid: E -> bool): (r: Option<(seq<Sep>, seq<E>)>)
    requires 1 <= k <= |s|
    requires Sound(|s| + 1, elem, render, valid)
    ensures r.Some? ==> |r.value.0| + 1 == |r.value.1| && AllValid(r.value.1, valid)
    ensures r.Some? ==> (forall i :: 0 <= i < |r.value.0| ==> r.value.0[i].Valid())
    ensures r.Some? ==> Interleave(r.value.0, Texts(r.value.1, render)) == s
    decreases |s|, 1
  {
    match elem(s[..k])
    case None => None
    case Some(e) =>
      if k == |s| then Some(([], [e]))
      else FirstSome(k + 1, |s|, (j: nat) requires k < j <= |s| => SeparatedNext(s, k, j, e, elem, render, valid))
  }

  /** After the first element `e`, a separator spans indices `k` to `j` of `s`. */
  function SeparatedNext<E>(s: string, k: nat, j: nat, e: E, elem: string --> Option<E>, render: E -> string, valid: E -> bool): (r: Option<(seq<Sep>, seq<E>)>)
    requires 1 <= k < j <= |s|
    requires Sound(|s| + 1, elem, render, valid)
    requires valid(e) && render(e) == s[..k]
    ensures r.Some? ==> |r.value.0| + 1 == |r.value.1| && AllValid(r.value.1, valid)
    ensures r.Some? ==> (forall i :: 0 <= i < |r.value.0| ==> r.value.0[i].Valid())
    ensures r.Some? ==> Interleave(r.value.0, Texts(r.value.1, render)) == s
    decreases |s|, 0
  {
    match ParseSep(s[k..j])
    case None => None
    case Some(sep) =>
      SoundWeaken(|s| + 1, |s[j..]| + 1, elem, render, valid);
      var rest := Separated(s[j..], elem, render, valid);
      if rest.None? then None
      else
        SeparatedCons(s, k, j, sep, e, rest.value.0, rest.value.1, render, valid);
        Some(([sep] + rest.value.0, [e] + rest.value.1))
  }

  /** An element and a separator put in front of the separated rest of `s`. */
  lemma SeparatedCons<E>(s: string, k: nat, j: nat, sep: Sep, e: E, seps: seq<Sep>, es: seq<E>, render: E -> string, valid: E -> bool)
    requires 1 <= k < j <= |s|
    requires valid(e) && render(e) == s[..k] && sep.Valid() && sep.Text() == s[k..j]
    requires |seps| + 1 == |es| && AllValid(es, valid) && (forall i :: 0 <= i < |seps| ==> seps[i].Valid())
    requires Interleave(seps, Texts(es, render)) == s[j..]
    ensures |[sep] + seps| + 1 == |[e] + es| && AllValid([e] + es, valid)
    ensures forall i :: 0 <= i < |[sep] + seps| ==> ([sep] + seps)[i].Valid()
    ensures Interleave([sep] + seps, Texts([e] + es, render)) == s
  {
    InterleaveCons(sep, seps, e, es, render);
    Thirds(s, k, j);
    forall i | 0 <= i < |[e] + es|
      ensures valid(([e] + es)[i])
    {
      if i > 0 { assert ([e] + es)[i] == es[i - 1]; }
    }
    forall i | 0 <= i < |[sep] + seps|
      ensures ([sep] + seps)[i].Valid()
    {
      if i > 0 { assert ([sep] + seps)[i] == seps[i - 1]; }
    }
  }

  /** `ARRAY(open, close, element)` over the whole of `s`. */
  function Array<E>(open: string, close: string, s: string, elem: string --> Option<E>, render: E -> string, valid: E -> bool): (r: Option<Items<E>>)
    requires |open| > 0
    requires Sound(|s|, elem, render, valid)
    ensures r.Some? ==> ItemsValid(r.value, valid) && ItemsText(open, close, r.value, render) == s
  {
    if |s| >= |open| + |close| && s[..|open|] == open && s[|s| - |close|..] == close then
      var inner := s[|open|..|s| - |close|];
      assert s == open + inner + close;
      if inner == "" then Some(Items(None, []))
      else
        SoundWeaken(|s|, |inner| + 1, elem, render, valid);
        var found := Padded(inner, elem, render, valid);
        if found.None? then None
        else
          var f := found.value.0;
          var es := found.value.1;
          assert ItemsText(open, close, Items(Some(f), es), render) == s by {
            var a, b, c := OptText(f.lead), Interleave(f.seps, Texts(es, render)), OptText(f.trail);
            assert inner == a + b + c;
            Bracketed(open, a, b, c, close);
          }
          Some(Items(Some(f), es))
    else None
  }

  lemma Bracketed(open: string, a: string, b: string, c: string, close: string)
    ensures open + (a + b + c) + close == open + a + b + c + close
  {
  }

  /** The inside of a non-empty `ARRAY`: padding, the separated elements, padding. */
  function Padded<E>(s: string, elem: string --> Option<E>, render: E -> string, valid: E -> bool): (r: Option<(Frame, seq<E>)>)
    requires Sound(|s| + 1, elem, render, valid)
    ensures r.Some? ==> r.value.0.Valid() && |r.value.0.seps| + 1 == |r.value.1| && AllValid(r.value.1, valid)
    ensures r.Some? ==> OptText(r.value.0.lead) + Interleave(r.value.0.seps, Texts(r.value.1, render)) + OptText(r.value.0.trail) == s
  {
    FirstSome(0, |s|, (a: nat) requires a <= |s| => PaddedFrom(s, a, elem, render, valid))
  }

  /** The leading padding of `s` ends at index `a`. */
  function PaddedFrom<E>(s: string, a: nat, elem: string --> Option<E>, render: E -> string, valid: E -> bool): (r: Option<(Frame, seq<E>)>)
    requires a <= |s|
    requires Sound(|s| + 1, elem, render, valid)
    ensures r.Some? ==> r.value.0.Valid() && |r.value.0.seps| + 1 == |r.value.1| && AllValid(r.value.1, valid)
    ensures r.Some? ==> OptText(r.value.0.lead) + Interleave(r.value.0.seps, Texts(r.value.1, render)) + OptText(r.value.0.trail) == s
  {
    match ParseOptSpace(s[..a])
    case None => None
    case Some(lead) =>
      FirstSome(a, |s|, (b: nat) requires a <= b <= |s| => PaddedBetween(s, a, b, lead, elem, render, valid))
  }

  /** The leading padding of `s` ends at index `a` and the trailing one starts at index `b`. */
  function PaddedBetween<E>(s: string, a: nat, b: nat, lead: Option<Space>, elem: string --> Option<E>, render: E -> string, valid: E -> bool): (r: Option<(Frame, seq<E>)>)
    requires a <= b <= |s|
    requires Sound(|s| + 1, elem, render, valid)
    requires OptValid(lead) && OptText(lead) == s[..a]
    ensures r.Some? ==> r.value.0.Valid() && |r.value.0.seps| + 1 == |r.value.1| && AllValid(r.value.1, valid)
    ensures r.Some? ==> OptText(r.value.0.lead) + Interleave(r.value.0.seps, Texts(r.value.1, render)) + OptText(r.value.0.trail) == s
  {
    match ParseOptSpace(s[b..])
    case None => None
    case Some(trail) =>
      SoundWeaken(|s| + 1, |s[a..b]| + 1, elem, render, valid);
      var body := Separated(s[a..b], elem, render, valid);
      if body.None? then None
      else
        Thirds(s, a, b);
        Some((Frame(lead, body.value.0, trail), body.value.1))
  }

  /** `Separated` succeeds once it finds an accepted first element ending at `k0`, a separator up to `j0` and an accepted rest. */
  lemma SeparatedSplit<E>(s: string, k0: nat, j0: nat, elem: string --> Option<E>, render: E -> string, valid: E -> bool)
    requires 1 <= k0 < j0 <= |s|
    requires Sound(|s| + 1, elem, render, valid)
    requires elem(s[..k0]).Some? && ParseSep(s[k0..j0]).Some?
    requires Separated(s[j0..], elem, render, valid).Some?
    ensures Separated(s, elem, render, valid).Some?
  {
    NextFound(s, k0, j0, elem(s[..k0]).value, elem, render, valid);
    FirstSomeFinds(1, |s|, (k: nat) requires 1 <= k <= |s| => SeparatedAt(s, k, elem, render, valid), k0);
  }

  lemma NextFound<E>(s: string, k0: nat, j0: nat, e: E, elem: string --> Option<E>, render: E -> string, valid: E -> bool)
    requires 1 <= k0 < j0 <= |s|
    requires Sound(|s| + 1, elem, render, valid)
    requires elem(s[..k0]) == Some(e) && ParseSep(s[k0..j0]).Some?
    requires Separated(s[j0..], elem, render, valid).Some?
    ensures SeparatedAt(s, k0, elem, render, valid).Some?
  {
    assert SeparatedNext(s, k0, j0, e, elem, render, valid).Some?;
    FirstSomeFinds(k0 + 1, |s|, (j: nat) requires k0 < j <= |s| => SeparatedNext(s, k0, j, e, elem, render, valid), j0);
  }

  /** Every interleaving of accepted, non-empty elements with valid separators is accepted. */
  lemma {:induction false} SeparatedComplete<E>(seps: seq<Sep>, es: seq<E>, elem: string --> Option<E>, render: E -> string, valid: E -> bool)
    requires |seps| + 1 == |es| && forall i :: 0 <= i < |seps| ==> seps[i].Valid()
    requires Sound(|Interleave(seps, Texts(es, render))| + 1, elem, render, valid)
    requires forall i :: 0 <= i < |es| ==> render(es[i]) != "" && Accepts(elem, render(es[i]))
    ensures Separated(Interleave(seps, Texts(es, render)), elem, render, valid).Some?
    decreases |es|
  {
    var s := Interleave(seps, Texts(es, render));
    var k0 := |render(es[0])|;
    if |es| == 1 {
      assert s == render(es[0]);
      assert s[..k0] == s;
      assert SeparatedAt(s, k0, elem, render, valid).Some?;
      FirstSomeFinds(1, |s|, (k: nat) requires 1 <= k <= |s| => SeparatedAt(s, k, elem, render, valid), k0);
    } else {
      var rest := Interleave(seps[1..], Texts(es[1..], render));
      var j0 := k0 + |seps[0].Text()|;
      assert s[..k0] == render(es[0]) && s[k0..j0] == seps[0].Text() && s[j0..] == rest by {
        assert es == [es[0]] + es[1..];
        assert seps == [seps[0]] + seps[1..];
        InterleaveCons(seps[0], seps[1..], es[0], es[1..], render);
      }
      SepRoundTrip(seps[0]);
      assert Separated(rest, elem, render, valid).Some? by {
        forall i | 0 <= i < |es[1..]|
          ensures render(es[1..][i]) != "" && Accepts(elem, render(es[1..][i]))
        {
          assert es[1..][i] == es[i + 1];
        }
        SoundWeaken(|s| + 1, |rest| + 1, elem, render, valid);
        SeparatedComplete(seps[1..], es[1..], elem, render, valid);
      }
      SeparatedSplit(s, k0, j0, elem, render, valid);
    }
  }

  /** The inside of an `ARRAY` is accepted once its padding ends at `a0` and `b0` and what lies between is accepted. */
  lemma PaddedSplit<E>(s: string, a0: nat, b0: nat, elem: string --> Option<E>, render: E -> string, valid: E -> bool)
    requires a0 <= b0 <= |s|
    requires Sound(|s| + 1, elem, render, valid)
    requires ParseOptSpace(s[..a0]).Some? && ParseOptSpace(s[b0..]).Some?
    requires Separated(s[a0..b0], elem, render, valid).Some?
    ensures Padded(s, elem, render, valid).Some?
  {
    var lead := ParseOptSpace(s[..a0]).value;
    assert PaddedBetween(s, a0, b0, lead, elem, render, valid).Some?;
    FirstSomeFinds(a0, |s|, (j: nat) requires a0 <= j <= |s| => PaddedBetween(s, a0, j, lead, elem, render, valid), b0);
    assert PaddedFrom(s, a0, elem, render, valid).Some?;
    FirstSomeFinds(0, |s|, (j: nat) requires j <= |s| => PaddedFrom(s, j, elem, render, valid), a0);
  }

  /** Every well-shaped `ARRAY` of accepted, non-empty elements is accepted. */
  lemma ArrayComplete<E>(open: string, close: string, it: Items<E>, elem: string --> Option<E>, render: E -> string, valid: E -> bool)
    requires |open| > 0 && Shaped(it)
    requires Sound(|ItemsText(open, close, it, render)|, elem, render, valid)
    requires forall i :: 0 <= i < |it.elems| ==> render(it.elems[i]) != "" && Accepts(elem, render(it.elems[i]))
    ensures Array(open, close, ItemsText(open, close, it, render), elem, render, valid).Some?
  {
    var s := ItemsText(open, close, it, render);
    match it.frame
    case None =>
      assert s == open + "" + close;
      ArrayFound(open, close, "", elem, render, valid);
    case Some(f) =>
      var a, b, c := OptText(f.lead), Interleave(f.seps, Texts(it.elems, render)), OptText(f.trail);
      var inner := a + b + c;
      assert s == open + inner + close by {
        assert s == open + a + b + c + close;
        Bracketed(open, a, b, c, close);
      }
      SoundWeaken(|s|, |inner| + 1, elem, render, valid);
      InnerFound(f, it.elems, elem, render, valid);
      ArrayFound(open, close, inner, elem, render, valid);
  }

  /** Brackets around nothing, or around an accepted inside, are accepted. */
  lemma ArrayFound<E>(open: string, close: string, inner: string, elem: string --> Option<E>, render: E -> string, valid: E -> bool)
    requires |open| > 0 && Sound(|open + inner + close|, elem, render, valid)
    requires inner == "" || (Sound(|inner| + 1, elem, render, valid) && Padded(inner, elem, render, valid).Some?)
    ensures Array(open, close, open + inner + close, elem, render, valid).Some?
  {
    Pieces(open, inner, close);
  }

  /** The padding, separated elements and padding of a well-formed layout make an accepted, non-empty inside. */
  lemma InnerFound<E>(f: Frame, es: seq<E>, elem: string --> Option<E>, render: E -> string, valid: E -> bool)
    requires f.Valid() && |f.seps| + 1 == |es|
    requires Sound(|OptText(f.lead) + Interleave(f.seps, Texts(es, render)) + OptText(f.trail)| + 1, elem, render, valid)
    requires forall i :: 0 <= i < |es| ==> render(es[i]) != "" && Accepts(elem, render(es[i]))
    ensures OptText(f.lead) + Interleave(f.seps, Texts(es, render)) + OptText(f.trail) != ""
    ensures Padded(OptText(f.lead) + Interleave(f.seps, Texts(es, render)) + OptText(f.trail), elem, render, valid).Some?
  {
    var a, b, c := OptText(f.lead), Interleave(f.seps, Texts(es, render)), OptText(f.trail);
    var inner := a + b + c;
    assert |b| > 0 by { InterleaveNonEmpty(f.seps, es, render); }
    var a0, b0 := |a|, |a| + |b|;
    Pieces(a, b, c);
    OptSpaceRoundTrip(f.lead);
    OptSpaceRoundTrip(f.trail);
    assert Separated(b, elem, render, valid).Some? by {
      SoundWeaken(|inner| + 1, |b| + 1, elem, render, valid);
      SeparatedComplete(f.seps, es, elem, render, valid);
    }
    PaddedSplit(inner, a0, b0, elem, render, valid);
  }


  lemma InterleaveNonEmpty<E>(seps: seq<Sep>, es: seq<E>, render: E -> string)
    requires es != [] && render(es[0]) != ""
    ensures |Interleave(seps, Texts(es, render))| >= |render(es[0])|
  {
    assert Texts(es, render)[0] == render(es[0]);
  }
  lemma {:induction false} TextsAt<E>(es: seq<E>, render: E -> string, i: nat)
    requires i < |es|
    ensures Texts(es, render)[i] == render(es[i])
  {
    if i > 0 { TextsAt(es[1..], render, i - 1); }
  }

  lemma {:induction false} InterleaveHolds(seps: seq<Sep>, ts: seq<string>, i: nat)
    requires |seps| + 1 == |ts| && i < |ts|
    ensures |ts[i]| <= |Interleave(seps, ts)|
  {
    if i > 0 { InterleaveHolds(seps[1..], ts[1..], i - 1); }
  }

  /** Each element of an `ARRAY` is strictly shorter than the whole. */
  lemma ElementShorter<E>(open: string, close: string, it: Items<E>, render: E -> string, i: nat)
    requires |open| > 0 && Shaped(it) && i < |it.elems|
    ensures |render(it.elems[i])| < |ItemsText(open, close, it, render)|
  {
    TextsAt(it.elems, render, i);
    InterleaveHolds(it.frame.value.seps, Texts(it.elems, render), i);
  }

  /** An `ARRAY` begins with its opener and ends with its closer. */
  lemma ArrayOpens<E>(open: string, close: string, it: Items<E>, render: E -> string)
    ensures var s := ItemsText(open, close, it, render);
      StartsWith(s, open) && |open| + |close| <= |s| && s[|s| - |close|..] == close
  {
    var ts := Texts(it.elems, render);
    match it.frame
    case None =>
    case Some(f) =>
      var inside := OptText(f.lead) + Interleave(f.seps, ts) + OptText(f.trail);
      assert ItemsText(open, close, it, render) == open + inside + close;
      Pieces(open, inside, close);
  }
  /** An `ARRAY` with nothing between its opener and closer has no elements. */
  lemma ArrayEmpty<E>(open: string, close: string, elem: string --> Option<E>, render: E -> string, valid: E -> bool)
    requires |open| > 0 && Sound(|open + close|, elem, render, valid)
    ensures Array(open, close, open + close, elem, render, valid) == Some(Items(None, []))
  {
    var s := open + close;
    assert s[..|open|] == open && s[|s| - |close|..] == close && s[|open|..|s| - |close|] == "";
  }

  lemma InterleaveFirst(seps: seq<Sep>, ts: seq<string>)
    requires |seps| + 1 == |ts|
    ensures |ts[0]| <= |Interleave(seps, ts)| && Interleave(seps, ts)[..|ts[0]|] == ts[0]
  {
  }

  lemma {:induction false} InterleaveLast(seps: seq<Sep>, ts: seq<string>)
    requires |seps| + 1 == |ts|
    ensures var n, t := |Interleave(seps, ts)|, ts[|ts| - 1];
      |t| <= n && Interleave(seps, ts)[n - |t|..] == t
    decreases |ts|
  {
    if |ts| > 1 {
      InterleaveLast(seps[1..], ts[1..]);
    }
  }

  /** A concatenation ends with its last piece. */
  lemma {:induction false} ConcatLast(ts: seq<string>)
    requires |ts| > 0
    ensures var n, t := |Concat(ts)|, ts[|ts| - 1];
      |t| <= n && Concat(ts)[n - |t|..] == t
    decreases |ts|
  {
    if |ts| > 1 {
      ConcatLast(ts[1..]);
    }
  }

  /** Every character of a padding is white space or the backslash of a continuation. */
  predicate LayoutChar(c: char)
  {
    IsWhitespace(c) || c == '\\'
  }

  /** From index `lo` on, the first character up to `hi` that follows only padding is no comma. */
  predicate NoLeadingComma(s: string, lo: nat, hi: nat)
  {
    forall j :: lo <= j <= hi < |s| && (forall m :: lo <= m < j ==> LayoutChar(s[m])) ==> s[j] != ','
  }

  /** Before index `hi`, the last character from `lo` on that precedes only padding is no comma. */
  predicate NoTrailingComma(s: string, lo: nat, hi: nat)
  {
    forall j :: lo <= j < hi <= |s| && (forall m :: j < m < hi ==> LayoutChar(s[m])) ==> s[j] != ','
  }

  lemma OptShape(o: Option<Space>)
    requires OptValid(o)
    ensures forall i :: 0 <= i < |OptText(o)| ==> LayoutChar(OptText(o)[i])
  {
    if o.Some? { SpaceShape(o.value); }
  }

  /**
   * After an `ARRAY`'s opener and any run of padding comes the first element
   * or the closer: a class `p` that holds of padding, of the first character
   * of every element and of the closer holds of the first character after the
   * opener that follows only padding. With `p` "is no comma", this says that
   * an `ARRAY` has no leading comma, with or without padding before it.
   */
  lemma AfterOpen<E>(open: string, close: string, it: Items<E>, render: E -> string, p: char -> bool)
    requires Shaped(it) && |close| > 0 && p(close[0])
    requires forall c :: LayoutChar(c) ==> p(c)
    requires forall i :: 0 <= i < |it.elems| ==>
      render(it.elems[i]) != "" && !LayoutChar(render(it.elems[i])[0]) && p(render(it.elems[i])[0])
    ensures var s := ItemsText(open, close, it, render);
      forall j :: |open| <= j <= |s| - |close| && (forall m :: |open| <= m < j ==> LayoutChar(s[m])) ==> p(s[j])
  {
    var s := ItemsText(open, close, it, render);
    match it.frame
    case None =>
      assert s == open + close;
      assert s[|open|] == close[0];
    case Some(f) =>
      var ts := Texts(it.elems, render);
      var a, b, c := OptText(f.lead), Interleave(f.seps, ts), OptText(f.trail);
      var k := |open| + |a|;
      assert s == open + a + b + c + close;
      OptShape(f.lead);
      TextsAt(it.elems, render, 0);
      InterleaveFirst(f.seps, ts);
      assert s[k] == b[0] == ts[0][0];
      forall j | |open| <= j <= |s| - |close| && (forall m :: |open| <= m < j ==> LayoutChar(s[m]))
        ensures p(s[j])
      {
        if j < k {
          assert s[j] == a[j - |open|];
        }
      }
  }

  /**
   * Before an `ARRAY`'s closer and any run of padding comes the last element
   * or the opener: a class `p` that holds of padding, of the last character of
   * every element and of the opener's last character holds of the last
   * character before the closer that precedes only padding. With `p` "is no
   * comma", this says that an `ARRAY` has no trailing comma, with or without
   * padding after it.
   */
  lemma BeforeClose<E>(open: string, close: string, it: Items<E>, render: E -> string, p: char -> bool)
    requires Shaped(it) && |open| > 0 && !LayoutChar(open[|open| - 1]) && p(open[|open| - 1])
    requires forall c :: LayoutChar(c) ==> p(c)
    requires forall i :: 0 <= i < |it.elems| ==>
      render(it.elems[i]) != "" && !LayoutChar(render(it.elems[i])[|render(it.elems[i])| - 1])
      && p(render(it.elems[i])[|render(it.elems[i])| - 1])
    ensures var s := ItemsText(open, close, it, render);
      forall j :: |open| - 1 <= j < |s| - |close| && (forall m :: j < m < |s| - |close| ==> LayoutChar(s[m])) ==> p(s[j])
  {
    var s := ItemsText(open, close, it, render);
    match it.frame
    case None =>
      assert s == open + "" + close;
      LastBeforePadding(open, "", close, |open| - 1, p);
    case Some(f) =>
      var ts := Texts(it.elems, render);
      var a, b, c := OptText(f.lead), Interleave(f.seps, ts), OptText(f.trail);
      var x := open + a + b;
      assert s == x + c + close;
      OptShape(f.trail);
      var last := |it.elems| - 1;
      TextsAt(it.elems, render, last);
      InterleaveLast(f.seps, ts);
      var t := ts[last];
      assert b[|b| - |t|..] == t;
      assert x[|x| - 1] == b[|b| - 1] == t[|t| - 1];
      LastBeforePadding(x, c, close, |open| - 1, p);
  }

  /** In `x + c + close` with `c` all padding, the last character of `x` is the last one before `close` that precedes only padding. */
  lemma LastBeforePadding(x: string, c: string, close: string, lo: nat, p: char -> bool)
    requires lo < |x| && !LayoutChar(x[|x| - 1]) && p(x[|x| - 1])
    requires forall i :: 0 <= i < |c| ==> LayoutChar(c[i])
    requires forall ch :: LayoutChar(ch) ==> p(ch)
    ensures var s := x + c + close;
      forall j :: lo <= j < |s| - |close| && (forall m :: j < m < |s| - |close| ==> LayoutChar(s[m])) ==> p(s[j])
  {
    var s := x + c + close;
    var k := |x| - 1;
    assert s[k] == x[k];
    forall j | lo <= j < |s| - |close| && (forall m :: j < m < |s| - |close| ==> LayoutChar(s[m]))
      ensures p(s[j])
    {
      if j > k {
        assert s[j] == c[j - k - 1];
      }
    }
  }
}
