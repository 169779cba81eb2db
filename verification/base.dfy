/**
 * Shared vocabulary of the model: the optional-result type every parser
 * returns, the character classes the grammar's regular expressions use, and
 * `FirstSome`, the bounded search over split points on which every
 * backtracking parser of the model is built.
 */
module Base {

  /** A parse result: `None` when the text is not in the rule's language. */
  datatype Option<+T> = None | Some(value: T)

  /** The first alternative that succeeds, in the order given. */
  function Or<T>(a: Option<T>, b: Option<T>): Option<T>
  {
    if a.Some? then a else b
  }

  // Character classes, as they are written in the grammar's regular expressions.

  /** `[0-9]`, and also `\d` (the grammar engine reads `\d` as ASCII digits). */
  predicate IsDigit(c: char) { '0' <= c <= '9' }

  predicate IsLower(c: char) { 'a' <= c <= 'z' }

  predicate IsUpper(c: char) { 'A' <= c <= 'Z' }

  predicate IsLetter(c: char) { IsLower(c) || IsUpper(c) }

  /** `[a-z_]`: macro names, namespaces and mime-comment identifiers. */
  predicate IsIdentChar(c: char) { IsLower(c) || c == '_' }

  /** `\s`, which the grammar engine reads as the six ASCII white-space characters. */
  predicate IsWhitespace(c: char)
  {
    c == ' ' || c == '\t' || c == '\n' || c == '\r' || c == '\U{0B}' || c == '\U{0C}'
  }

  predicate IsLineBreak(c: char) { c == '\n' || c == '\r' }

  /** Every character of `s` belongs to the class `p`. */
  predicate All(s: string, p: char -> bool)
  {
    forall i :: 0 <= i < |s| ==> p(s[i])
  }

  /** A class that holds of a prefix holds of each of its characters. */
  lemma PrefixAll(s: string, n: nat, p: char -> bool)
    requires n <= |s| && All(s[..n], p)
    ensures forall j :: 0 <= j < n ==> p(s[j])
  {
    forall j | 0 <= j < n
      ensures p(s[j])
    {
      assert s[..n][j] == s[j];
    }
  }

  /** A non-empty run of characters of the class `p` (a regex `[...]+`). */
  predicate Run1(s: string, p: char -> bool)
  {
    |s| > 0 && All(s, p)
  }

  /**
   * The first `f(k)` that succeeds for `k` running from `lo` up to `hi`.
   * Every parser of the model tries the possible split points of its input
   * through this function, so it accepts a text exactly when some split works.
   */
  function FirstSome<T>(lo: nat, hi: nat, f: nat --> Option<T>): (r: Option<T>)
    requires forall k :: lo <= k <= hi ==> f.requires(k)
    ensures r.Some? ==> exists k :: lo <= k <= hi && f(k) == r
    ensures r.None? ==> forall k :: lo <= k <= hi ==> f(k).None?
    decreases hi + 1 - lo
  {
    if lo > hi then None
    else if f(lo).Some? then f(lo)
    else FirstSome(lo + 1, hi, f)
  }

  /** A search succeeds when some split in its range works. */
  lemma FirstSomeFinds<T>(lo: nat, hi: nat, f: nat --> Option<T>, k0: nat)
    requires forall k :: lo <= k <= hi ==> f.requires(k)
    requires lo <= k0 <= hi && f(k0).Some?
    ensures FirstSome(lo, hi, f).Some?
  {
  }

  /** When every successful split yields the same value, the search yields it. */
  lemma FirstSomeUnique<T>(lo: nat, hi: nat, f: nat --> Option<T>, k0: nat, x: T)
    requires forall k :: lo <= k <= hi ==> f.requires(k)
    requires lo <= k0 <= hi && f(k0) == Some(x)
    requires forall k :: lo <= k <= hi && f(k).Some? ==> f(k) == Some(x)
    ensures FirstSome(lo, hi, f) == Some(x)
  {
  }

  /** The index of the first `c` in `s`, or `|s|` when there is none. */
  function IndexOf(s: string, c: char): (r: nat)
    ensures r <= |s|
    ensures r < |s| ==> s[r] == c
    ensures forall j :: 0 <= j < r ==> s[j] != c
  {
    if s == [] then 0
    else if s[0] == c then 0
    else 1 + IndexOf(s[1..], c)
  }

  /** `IndexOf` finds the first `c`: the one at `i`, when no `c` comes before it. */
  lemma IndexOfIs(s: string, c: char, i: nat)
    requires i <= |s| && (i < |s| ==> s[i] == c)
    requires forall j :: 0 <= j < i ==> s[j] != c
    ensures IndexOf(s, c) == i
  {
  }

  /** `s` cut at `b`. */
  lemma Halves(s: string, b: nat)
    requires b <= |s|
    ensures s[..b] + s[b..] == s
  {
  }

  /** `s` is its prefix up to `i`, then `mid`, then the rest. */
  lemma SplitAt(s: string, i: nat, mid: string)
    requires i + |mid| <= |s| && s[i..i + |mid|] == mid
    ensures s == s[..i] + mid + s[i + |mid|..]
  {
    assert s == s[..i] + s[i..i + |mid|] + s[i + |mid|..];
  }

  /** The three pieces of `a + mid + b`, recovered by slicing. */
  lemma Pieces(a: string, mid: string, b: string)
    ensures (a + mid + b)[..|a|] == a
    ensures (a + mid + b)[|a|..|a| + |mid|] == mid
    ensures (a + mid + b)[|a| + |mid|..] == b
  {
  }

  /** The two pieces of `a + b`, recovered by slicing. */
  lemma Parts(a: string, b: string)
    ensures (a + b)[..|a|] == a && (a + b)[|a|..] == b
  {
  }

  /** A non-empty `s` is its first character and the rest. */
  lemma FirstSplit(s: string)
    requires |s| > 0
    ensures s == [s[0]] + s[1..]
  {
  }

  /** A non-empty `s` is its prefix and its last character. */
  lemma LastSplit(s: string)
    requires |s| > 0
    ensures s == s[..|s| - 1] + [s[|s| - 1]]
  {
  }

  /** `s` cut at `i` and at `j`. */
  lemma Thirds(s: string, i: nat, j: nat)
    requires i <= j <= |s|
    ensures s == s[..i] + s[i..j] + s[j..]
  {
  }

  /** `s` cut at `i`, at `j` and at `k`. */
  lemma Cuts(s: string, i: nat, j: nat, k: nat)
    requires i <= j <= k <= |s|
    ensures s == s[..i] + s[i..j] + s[j..k] + s[k..]
  {
    assert s == s[..i] + s[i..j] + s[j..k] + s[k..];
  }

  /** `s` is `open`, its inside, then `close`. */
  lemma Framed(s: string, open: string, close: string)
    requires |open| + |close| <= |s| && s[..|open|] == open && s[|s| - |close|..] == close
    ensures s == open + s[|open|..|s| - |close|] + close
  {
    assert s == s[..|open|] + s[|open|..|s| - |close|] + s[|s| - |close|..];
  }

  /** In `b + [c] + a`, where neither `b` nor `a` holds `c`, the only `c` is the middle one. */
  lemma OnlyAt(b: string, c: char, a: string)
    requires forall i :: 0 <= i < |b| ==> b[i] != c
    requires forall i :: 0 <= i < |a| ==> a[i] != c
    ensures forall j :: 0 <= j < |b + [c] + a| ==> ((b + [c] + a)[j] == c <==> j == |b|)
  {
    var s := b + [c] + a;
    forall j | 0 <= j < |s|
      ensures s[j] == c <==> j == |b|
    {
      if j < |b| {
        assert s[j] == b[j];
      } else if j > |b| {
        assert s[j] == a[j - |b| - 1];
      }
    }
  }

  /** `s` begins with `p`. */
  predicate StartsWith(s: string, p: string)
  {
    |p| <= |s| && s[..|p|] == p
  }
}
