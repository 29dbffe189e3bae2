/**
 * The part of Go's `strings` package that `NewDefinitionFromURI` relies on:
 * `strings.Contains` and `strings.SplitN(s, sep, 2)`, both of which look for
 * the FIRST occurrence of a separator.
 */
module Strings {
  import opened Wrappers

  /** `pat` occurs in `s` starting at index `i`. */
  predicate OccursAt(s: string, pat: string, i: nat) {
    i + |pat| <= |s| && s[i..i + |pat|] == pat
  }

  /** The first index at or after `from` where `pat` occurs in `s` (`strings.Index` from an offset). */
  function IndexFrom(s: string, pat: string, from: nat): (r: Option<nat>)
    ensures r.Some? ==> from <= r.value && OccursAt(s, pat, r.value)
    ensures r.Some? ==> forall j: nat :: from <= j < r.value ==> !OccursAt(s, pat, j)
    ensures r.None? ==> forall j: nat :: from <= j ==> !OccursAt(s, pat, j)
    decreases |s| - from
  {
    if from + |pat| > |s| then None
    else if s[from..from + |pat|] == pat then Some(from)
    else IndexFrom(s, pat, from + 1)
  }

  /** `strings.Contains`: does `pat` occur anywhere in `s`? */
  function Contains(s: string, pat: string): (b: bool)
    ensures b <==> exists j: nat :: OccursAt(s, pat, j)
  {
    IndexFrom(s, pat, 0).Some?
  }

  /**
   * `a` and `b` are the two halves of `s` around the first occurrence of `sep`:
   * `s == a + sep + b` and `sep` occurs nowhere in `s` before index `|a|`.
   */
  ghost predicate SplitsAtFirst(s: string, sep: string, a: string, b: string) {
    a + sep + b == s && forall j: nat :: j < |a| ==> !OccursAt(s, sep, j)
  }

  /**
   * `strings.SplitN(s, sep, 2)` when `s` contains `sep`: the text before the first
   * occurrence and everything after it. `None` when `sep` does not occur.
   */
  function SplitFirst(s: string, sep: string): (r: Option<(string, string)>)
    ensures r.Some? <==> Contains(s, sep)
    ensures r.Some? ==> SplitsAtFirst(s, sep, r.value.0, r.value.1)
  {
    match IndexFrom(s, sep, 0)
    case None => None
    case Some(i) =>
      assert s == s[..i] + sep + s[i + |sep|..];
      Some((s[..i], s[i + |sep|..]))
  }

  /** The first-occurrence split is unique: at most one pair of halves satisfies `SplitsAtFirst`. */
  lemma SplitsAtFirstUnique(s: string, sep: string, a: string, b: string, a': string, b': string)
    requires SplitsAtFirst(s, sep, a, b) && SplitsAtFirst(s, sep, a', b')
    ensures a == a' && b == b'
  {
    assert OccursAt(s, sep, |a|) by { assert s[|a|..|a| + |sep|] == sep; }
    assert OccursAt(s, sep, |a'|) by { assert s[|a'|..|a'| + |sep|] == sep; }
    assert |a| == |a'|;
    assert a == s[..|a|] && a' == s[..|a'|];
    assert b == s[|a| + |sep|..] && b' == s[|a'| + |sep|..];
  }

  /** The text before the first occurrence of a non-empty `sep` does not itself contain `sep`. */
  lemma FirstHalfFree(s: string, sep: string, a: string, b: string)
    requires |sep| > 0 && SplitsAtFirst(s, sep, a, b)
    ensures !Contains(a, sep)
  {
    forall j: nat | OccursAt(a, sep, j)
      ensures false
    {
      assert a == s[..|a|];
      assert s[j..j + |sep|] == a[j..j + |sep|];
      assert OccursAt(s, sep, j);
    }
  }
}
