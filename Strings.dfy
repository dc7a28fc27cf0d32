/** Ordinal string tests the filter relies on: String.Contains, String.EndsWith and an
    ASCII case-insensitive comparison. */
module Strings {

  /** `pat` occurs as a contiguous piece of `s` (ordinal String.Contains). */
  predicate Occurs(pat: string, s: string) {
    exists i | 0 <= i <= |s| - |pat| :: OccursAt(pat, s, i)
  }

  /** `pat` occurs in `s` starting at index `i`. */
  predicate OccursAt(pat: string, s: string, i: int) {
    0 <= i <= |s| - |pat| && s[i..i + |pat|] == pat
  }

  /** `s` ends with `suffix` (ordinal String.EndsWith). */
  predicate EndsWith(s: string, suffix: string) {
    |suffix| <= |s| && s[|s| - |suffix|..] == suffix
  }

  function LowerChar(c: char): char {
    if 'A' <= c <= 'Z' then (c as int + 32) as char else c
  }

  function Lower(s: string): (r: string)
    ensures |r| == |s|
    ensures forall i :: 0 <= i < |s| ==> r[i] == LowerChar(s[i])
  {
    if s == [] then [] else [LowerChar(s[0])] + Lower(s[1..])
  }

  /** A string without capital letters is its own lower case. */
  lemma LowerWithoutCapitals(s: string)
    requires forall i :: 0 <= i < |s| ==> !('A' <= s[i] <= 'Z')
    ensures Lower(s) == s
  {
  }

  /** Character-by-character equality up to ASCII letter case. */
  predicate EqualsIgnoreCase(a: string, b: string) {
    |a| == |b| && forall i :: 0 <= i < |a| ==> LowerChar(a[i]) == LowerChar(b[i])
  }

  /** Comparing ignoring case is comparing the lower-cased strings. */
  lemma EqualsIgnoreCaseIffLowerEqual(a: string, b: string)
    ensures EqualsIgnoreCase(a, b) <==> Lower(a) == Lower(b)
  {
    if Lower(a) == Lower(b) {
      forall i | 0 <= i < |a|
        ensures LowerChar(a[i]) == LowerChar(b[i])
      {
        assert Lower(a)[i] == Lower(b)[i];
      }
    }
  }

  /** An occurrence inside a slice is an occurrence in the whole string. */
  lemma OccursInSlice(pat: string, s: string, p: int, q: int)
    requires 0 <= p <= q <= |s|
    requires Occurs(pat, s[p..q])
    ensures Occurs(pat, s)
  {
    var i :| 0 <= i <= |s[p..q]| - |pat| && OccursAt(pat, s[p..q], i);
    forall j | 0 <= j < |pat|
      ensures s[p + i..p + i + |pat|][j] == pat[j]
    {
      assert s[p..q][i..i + |pat|][j] == pat[j];
    }
    assert OccursAt(pat, s, p + i);
  }

  /** The first character of an occurring pattern is a character of the string. */
  lemma OccursFirstChar(pat: string, s: string)
    requires pat != [] && Occurs(pat, s)
    ensures pat[0] in s
  {
    var i :| 0 <= i <= |s| - |pat| && OccursAt(pat, s, i);
    assert s[i] == s[i..i + |pat|][0];
  }
}
