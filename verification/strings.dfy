/** Substring search on strings, the only kind of matching the extractor performs. */
module Strings {

  /** `t` occurs in `s` starting at index `k`. */
  predicate StartsAt(s: string, k: int, t: string) {
    0 <= k && k + |t| <= |s| && s[k..k + |t|] == t
  }

  /** Python's `t in s` for strings. */
  predicate Contains(s: string, t: string) {
    exists k | 0 <= k <= |s| - |t| :: StartsAt(s, k, t)
  }

  /** Python's `s[:len(s) - 1]`: every character but the last (empty stays empty). */
  function DropLast(s: string): string
  {
    if |s| == 0 then "" else s[..|s| - 1]
  }

  /** Dropping the last character of a concatenation only touches its non-empty tail. */
  lemma DropLastAppend(a: string, b: string)
    requires |b| > 0
    ensures DropLast(a + b) == a + DropLast(b)
  {
    assert (a + b)[..|a + b| - 1] == a + b[..|b| - 1];
  }

  /** An occurrence in `b` is an occurrence in `a + b`. */
  lemma ContainsAppend(a: string, b: string, t: string)
    requires Contains(b, t)
    ensures Contains(a + b, t)
  {
    var k :| 0 <= k <= |b| - |t| && StartsAt(b, k, t);
    assert (a + b)[|a| + k..|a| + k + |t|] == b[k..k + |t|];
    assert StartsAt(a + b, |a| + k, t);
  }

  /** An occurrence inside a slice is an occurrence in the whole string. */
  lemma StartsAtInSlice(s: string, a: int, b: int, k: int, t: string)
    requires 0 <= a <= b <= |s|
    requires StartsAt(s[a..b], k, t)
    ensures StartsAt(s, a + k, t) && a + k + |t| <= b
  {
    forall j | 0 <= j < |t| ensures s[a + k + j] == t[j] {
      assert s[a..b][k..k + |t|][j] == t[j];
    }
    assert s[a + k..a + k + |t|] == t;
  }
}
