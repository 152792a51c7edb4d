/**
 * The few Python `str` operations the derivative-naming code relies on:
 * `s.endswith(t)`, `t in s`, `s.replace(pat, rep)` and `s.rfind(c)`.
 * Strings are sequences of characters.
 */
module Strings {

  /** `s.endswith(suffix)`: a suffix is in particular a substring. */
  predicate EndsWith(s: string, suffix: string)
    ensures EndsWith(s, suffix) ==> Contains(s, suffix)
  {
    assert |suffix| <= |s| && s[|s| - |suffix|..] == suffix ==> OccursAt(s, suffix, |s| - |suffix|);
    |suffix| <= |s| && s[|s| - |suffix|..] == suffix
  }

  /** `sub` occurs in `s` starting at position `i`. */
  predicate OccursAt(s: string, sub: string, i: int)
  {
    0 <= i && i + |sub| <= |s| && s[i..i + |sub|] == sub
  }

  /** `sub in s`; the empty string is in every string, and nothing longer than `s` is. */
  predicate Contains(s: string, sub: string)
    ensures Contains(s, sub) ==> |sub| <= |s|
    ensures sub == "" ==> Contains(s, sub)
  {
    assert sub == "" ==> OccursAt(s, sub, 0);
    exists i | 0 <= i <= |s| - |sub| :: OccursAt(s, sub, i)
  }

  /** An occurrence inside an occurrence is an occurrence. */
  lemma ContainsTransitive(a: string, b: string, c: string)
    requires Contains(a, b) && Contains(b, c)
    ensures Contains(a, c)
  {
    var i :| OccursAt(a, b, i);
    assert OccursAt(a, b, i);
    var j :| OccursAt(b, c, j);
    assert OccursAt(b, c, j);
    forall k | 0 <= k < |c|
      ensures a[i + j + k] == c[k]
    {
      assert a[i + j + k] == a[i..i + |b|][j + k] == b[j..j + |c|][k];
    }
    assert a[i + j..i + j + |c|] == c;
    assert OccursAt(a, c, i + j);
  }

  /** Prepending text keeps every occurrence (shifted by the prefix length). */
  lemma ContainsPrepend(p: string, s: string, sub: string)
    requires Contains(s, sub)
    ensures Contains(p + s, sub)
  {
    var i :| OccursAt(s, sub, i);
    assert OccursAt(s, sub, i);
    assert (p + s)[|p| + i..|p| + i + |sub|] == s[i..i + |sub|];
    assert OccursAt(p + s, sub, |p| + i);
  }

  /** What the tail of a string contains, the string contains. */
  lemma ContainsTail(s: string, sub: string)
    requires |s| > 0
    ensures Contains(s[1..], sub) ==> Contains(s, sub)
  {
    if Contains(s[1..], sub) {
      var i :| OccursAt(s[1..], sub, i);
      assert OccursAt(s[1..], sub, i);
      assert s[i + 1..i + 1 + |sub|] == s[1..][i..i + |sub|];
      assert OccursAt(s, sub, i + 1);
    }
  }

  /** A string contains its own prefix. */
  lemma ContainsPrefix(s: string, p: string)
    requires |p| <= |s| && s[..|p|] == p
    ensures Contains(s, p)
  {
    assert OccursAt(s, p, 0);
  }

  /**
   * `s.replace(pat, rep)`: scan left to right and replace every
   * non-overlapping occurrence of `pat` by `rep`.  Python's `replace` with an
   * empty `pat` inserts `rep` between all characters, a case no caller in
   * this code base uses, so `pat` is required to be non-empty.
   */
  function Replace(s: string, pat: string, rep: string): (r: string)
    requires |pat| > 0
    ensures |rep| >= |pat| ==> |r| >= |s|
    ensures |rep| == |pat| ==> |r| == |s|
    decreases |s|
  {
    if |s| < |pat| then s
    else if s[..|pat|] == pat then rep + Replace(s[|pat|..], pat, rep)
    else [s[0]] + Replace(s[1..], pat, rep)
  }

  /** Without an occurrence of `pat`, `replace` is the identity. */
  lemma {:induction false} ReplaceWithoutOccurrence(s: string, pat: string, rep: string)
    requires |pat| > 0
    requires !Contains(s, pat)
    ensures Replace(s, pat, rep) == s
    decreases |s|
  {
    if |s| >= |pat| {
      assert !OccursAt(s, pat, 0);
      assert s[..|pat|] != pat;
      ContainsTail(s, pat);
      ReplaceWithoutOccurrence(s[1..], pat, rep);
      assert [s[0]] + s[1..] == s;
    }
  }

  /** With an occurrence of `pat`, the result contains `rep`. */
  lemma {:induction false} ReplaceIntroducesNew(s: string, pat: string, rep: string)
    requires |pat| > 0
    requires Contains(s, pat)
    ensures Contains(Replace(s, pat, rep), rep)
    decreases |s|
  {
    var i :| OccursAt(s, pat, i);
    assert OccursAt(s, pat, i);
    if s[..|pat|] == pat {
      ContainsPrefix(rep + Replace(s[|pat|..], pat, rep), rep);
    } else {
      assert i > 0;
      assert s[1..][i - 1..i - 1 + |pat|] == s[i..i + |pat|];
      assert OccursAt(s[1..], pat, i - 1);
      ReplaceIntroducesNew(s[1..], pat, rep);
      ContainsPrepend([s[0]], Replace(s[1..], pat, rep), rep);
    }
  }

  /** No proper suffix of `p` is also a prefix of `p`. */
  predicate BorderFree(p: string)
  {
    forall j :: 0 < j < |p| ==> p[j..] != p[..|p| - j]
  }

  /** A pattern whose first character does not occur again is border-free. */
  lemma BorderFreeByFirstChar(p: string)
    requires |p| > 0
    requires forall j :: 0 < j < |p| ==> p[j] != p[0]
    ensures BorderFree(p)
  {
    forall j | 0 < j < |p|
      ensures p[j..] != p[..|p| - j]
    {
      assert p[j..][0] == p[j];
      assert p[..|p| - j][0] == p[0];
    }
  }

  /**
   * Replacing in `b + pat` replaces in `b` and then the trailing `pat`,
   * provided `pat` cannot overlap itself (no occurrence straddles `b` and
   * the trailing copy).
   */
  lemma {:induction false} ReplaceAppendOld(b: string, pat: string, rep: string)
    requires |pat| > 0 && BorderFree(pat)
    ensures Replace(b + pat, pat, rep) == Replace(b, pat, rep) + rep
    decreases |b|
  {
    var s := b + pat;
    if b == [] {
      assert s == pat;
      assert s[..|pat|] == pat;
      assert s[|pat|..] == [];
    } else if |b| >= |pat| {
      assert s[..|pat|] == b[..|pat|];
      if b[..|pat|] == pat {
        assert s[|pat|..] == b[|pat|..] + pat;
        ReplaceAppendOld(b[|pat|..], pat, rep);
      } else {
        assert s[1..] == b[1..] + pat;
        ReplaceAppendOld(b[1..], pat, rep);
      }
    } else {
      NoStraddlingOccurrence(b, pat);
      assert s[1..] == b[1..] + pat;
      ReplaceAppendOld(b[1..], pat, rep);
      assert Replace(b[1..], pat, rep) == b[1..];
      assert [b[0]] + b[1..] == b;
    }
  }

  /** A border-free pattern cannot start inside a shorter non-empty prefix and run into its own copy. */
  lemma NoStraddlingOccurrence(b: string, pat: string)
    requires 0 < |b| < |pat| && BorderFree(pat)
    ensures (b + pat)[..|pat|] != pat
  {
    var s := b + pat;
    var k := |b|;
    assert pat[k..] != pat[..|pat| - k];
    assert s[k..|pat|] == pat[..|pat| - k];
  }

  /**
   * `s.rfind(c)`: the position of the last `c` in `s`, or -1 when there is none.
   */
  function LastIndexOf(s: string, c: char): (r: int)
    ensures -1 <= r < |s|
    ensures r >= 0 ==> s[r] == c
    ensures forall j :: r < j < |s| ==> s[j] != c
  {
    if s == [] then -1
    else if s[|s| - 1] == c then |s| - 1
    else LastIndexOf(s[..|s| - 1], c)
  }

  /** The three facts of LastIndexOf's contract determine its result. */
  lemma LastIndexOfUnique(s: string, c: char, k: int)
    requires -1 <= k < |s|
    requires k >= 0 ==> s[k] == c
    requires forall j :: k < j < |s| ==> s[j] != c
    ensures LastIndexOf(s, c) == k
  {
  }

  /** The last occurrence of `c` in `s + t`, when `t` has one, is found inside `t`. */
  lemma LastIndexOfAppend(s: string, t: string, c: char)
    requires LastIndexOf(t, c) >= 0
    ensures LastIndexOf(s + t, c) == |s| + LastIndexOf(t, c)
  {
    var k := |s| + LastIndexOf(t, c);
    assert (s + t)[k] == c;
    forall j | k < j < |s + t|
      ensures (s + t)[j] != c
    {
      assert (s + t)[j] == t[j - |s|];
    }
    LastIndexOfUnique(s + t, c, k);
  }

  /** Without a `c` in `t`, the last occurrence in `s + t` is that in `s`. */
  lemma LastIndexOfAppendAbsent(s: string, t: string, c: char)
    requires c !in t
    ensures LastIndexOf(s + t, c) == LastIndexOf(s, c)
  {
    var k := LastIndexOf(s, c);
    assert k >= 0 ==> (s + t)[k] == c;
    forall j | k < j < |s + t|
      ensures (s + t)[j] != c
    {
      if j < |s| {
        assert (s + t)[j] == s[j];
      } else {
        assert (s + t)[j] == t[j - |s|];
      }
    }
    LastIndexOfUnique(s + t, c, k);
  }
}
