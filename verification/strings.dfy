/** Pure string helpers with the semantics of the Python string methods the converter uses. */
module Strings {
  import opened Wrappers

  /** Python `s.startswith(p)`. */
  predicate StartsWith(s: string, p: string)
  {
    |p| <= |s| && s[..|p|] == p
  }

  /** Python `s.endswith(p)`. */
  predicate EndsWith(s: string, p: string)
  {
    |p| <= |s| && s[|s| - |p|..] == p
  }

  /** `p` occurs in `s` starting at index `i`. */
  predicate OccursAt(s: string, p: string, i: int)
  {
    0 <= i && i + |p| <= |s| && s[i..i + |p|] == p
  }

  /** Python `p in s`. */
  predicate Contains(s: string, p: string)
  {
    exists i :: 0 <= i <= |s| - |p| && OccursAt(s, p, i)
  }

  /** Text found in the tail of a concatenation is found in the whole. */
  lemma ContainsInTail(a: string, b: string, p: string)
    requires Contains(b, p)
    ensures Contains(a + b, p)
  {
    var i :| 0 <= i <= |b| - |p| && OccursAt(b, p, i);
    assert (a + b)[|a| + i..|a| + i + |p|] == b[i..i + |p|];
    assert OccursAt(a + b, p, |a| + i);
  }

  /**
   * Python `s.replace(pat, rep)` (every occurrence of `pat`, scanned left to right,
   * non-overlapping). Every call site in the converter passes a non-empty pattern.
   */
  function ReplaceAll(s: string, pat: string, rep: string): (r: string)
    requires |pat| > 0
    decreases |s|
  {
    if |s| == 0 then s
    else if StartsWith(s, pat) then rep + ReplaceAll(s[|pat|..], pat, rep)
    else [s[0]] + ReplaceAll(s[1..], pat, rep)
  }

  /** A replace-all leaves a string without the pattern as it is. */
  lemma {:induction false} ReplaceAbsent(s: string, pat: string, rep: string)
    requires |pat| > 0 && !Contains(s, pat)
    ensures ReplaceAll(s, pat, rep) == s
    decreases |s|
  {
    if |s| > 0 {
      assert !StartsWith(s, pat) by { assert !OccursAt(s, pat, 0); }
      assert !Contains(s[1..], pat) by {
        if Contains(s[1..], pat) {
          var i :| 0 <= i <= |s[1..]| - |pat| && OccursAt(s[1..], pat, i);
          assert s[i + 1..i + 1 + |pat|] == s[1..][i..i + |pat|];
          assert OccursAt(s, pat, i + 1);
        }
      }
      ReplaceAbsent(s[1..], pat, rep);
    }
  }

  /** Joins the parts with `glue` between neighbours, like Python `glue.join(parts)`. */
  function Join(parts: seq<string>, glue: string): (r: string)
    ensures |parts| == 1 ==> r == parts[0]
  {
    if |parts| == 0 then ""
    else if |parts| == 1 then parts[0]
    else parts[0] + glue + Join(parts[1..], glue)
  }

  /** Python `s.split(c)` for a single-character separator. */
  function Split(s: string, c: char): (r: seq<string>)
    ensures |r| > 0
    ensures forall k :: 0 <= k < |r| ==> c !in r[k]
    decreases |s|
  {
    if c !in s then [s]
    else
      var i := IndexOf(s, c);
      [s[..i]] + Split(s[i + 1..], c)
  }

  /** Index of the first `c` in `s`. */
  function IndexOf(s: string, c: char): (i: nat)
    requires c in s
    ensures i < |s| && s[i] == c && c !in s[..i]
  {
    if s[0] == c then 0 else IndexOf(s[1..], c) + 1
  }

  lemma {:induction false} SplitJoinRoundTrip(s: string, c: char)
    ensures Join(Split(s, c), [c]) == s
    decreases |s|
  {
    if c in s {
      var i := IndexOf(s, c);
      SplitJoinRoundTrip(s[i + 1..], c);
      assert s == s[..i] + [c] + s[i + 1..];
    }
  }

  /** A replace-all of a one-character separator by `glue` re-joins the parts with `glue`. */
  lemma {:induction false} ReplaceSeparatorJoins(parts: seq<string>, c: char, glue: string)
    requires forall k :: 0 <= k < |parts| ==> c !in parts[k]
    ensures ReplaceAll(Join(parts, [c]), [c], glue) == Join(parts, glue)
    decreases |parts|
  {
    if |parts| == 1 {
      ReplaceNoSeparator(parts[0], c, glue);
    } else if |parts| > 1 {
      ReplaceNoSeparatorPrefix(parts[0], Join(parts[1..], [c]), c, glue);
      ReplaceSeparatorJoins(parts[1..], c, glue);
    }
  }

  lemma {:induction false} ReplaceNoSeparator(s: string, c: char, glue: string)
    requires c !in s
    ensures ReplaceAll(s, [c], glue) == s
    decreases |s|
  {
    if |s| > 0 {
      assert !StartsWith(s, [c]) by { assert s[0] != c; }
      ReplaceNoSeparator(s[1..], c, glue);
    }
  }

  lemma {:induction false} ReplaceNoSeparatorPrefix(a: string, b: string, c: char, glue: string)
    requires c !in a
    ensures ReplaceAll(a + [c] + b, [c], glue) == a + glue + ReplaceAll(b, [c], glue)
    decreases |a|
  {
    if |a| == 0 {
      assert a + [c] + b == [c] + b;
      assert StartsWith([c] + b, [c]);
      assert ([c] + b)[1..] == b;
    } else {
      var s := a + [c] + b;
      assert s[0] == a[0] && a[0] != c;
      assert !StartsWith(s, [c]);
      assert s[1..] == a[1..] + [c] + b;
      ReplaceNoSeparatorPrefix(a[1..], b, c, glue);
      assert a == [a[0]] + a[1..];
    }
  }

  /** A replace-all copies a prefix in which no occurrence of the pattern starts. */
  lemma {:induction false} ReplaceAllKeepsPrefix(s: string, p: string, pat: string, rep: string)
    requires |pat| > 0 && StartsWith(s, p)
    requires forall i :: 0 <= i < |p| ==> !OccursAt(s, pat, i)
    ensures StartsWith(ReplaceAll(s, pat, rep), p)
    decreases |p|
  {
    if |p| > 0 {
      assert !StartsWith(s, pat) by { assert !OccursAt(s, pat, 0); }
      var t := s[1..];
      assert t[..|p| - 1] == p[1..];
      forall i | 0 <= i < |p| - 1
        ensures !OccursAt(t, pat, i)
      {
        assert !OccursAt(s, pat, i + 1);
        if i + |pat| <= |t| {
          assert t[i..i + |pat|] == s[i + 1..i + 1 + |pat|];
        }
      }
      ReplaceAllKeepsPrefix(t, p[1..], pat, rep);
      assert p == [s[0]] + p[1..];
    }
  }

  /** Splitting a join of separator-free parts gives the parts back. */
  lemma {:induction false} JoinSplitRoundTrip(parts: seq<string>, c: char)
    requires |parts| > 0
    requires forall k :: 0 <= k < |parts| ==> c !in parts[k]
    ensures Split(Join(parts, [c]), c) == parts
    decreases |parts|
  {
    if |parts| > 1 {
      var s := Join(parts, [c]);
      var tail := Join(parts[1..], [c]);
      assert s == parts[0] + [c] + tail;
      assert s[|parts[0]|] == c;
      assert c in s;
      var i := IndexOf(s, c);
      assert s[..|parts[0]|] == parts[0];
      assert i == |parts[0]|;
      assert s[..i] == parts[0];
      assert s[i + 1..] == tail;
      JoinSplitRoundTrip(parts[1..], c);
    }
  }

  /** A join holds a character only if a part or the glue does. */
  lemma {:induction false} JoinExcludes(parts: seq<string>, glue: string, c: char)
    requires c !in glue
    requires forall k :: 0 <= k < |parts| ==> c !in parts[k]
    ensures c !in Join(parts, glue)
    decreases |parts|
  {
    if |parts| > 1 {
      JoinExcludes(parts[1..], glue, c);
    }
  }

  /** Index of the first occurrence of `p` in `s` at or after `k`, like Python `s.find(p, k)`. */
  function FindFrom(s: string, p: string, k: nat): (r: Option<nat>)
    requires k <= |s|
    ensures r.Some? ==> k <= r.value && OccursAt(s, p, r.value)
    ensures r.Some? ==> forall i :: k <= i < r.value ==> !OccursAt(s, p, i)
    ensures r.None? ==> forall i :: k <= i ==> !OccursAt(s, p, i)
    decreases |s| - k
  {
    if OccursAt(s, p, k) then Some(k)
    else if k == |s| then None
    else FindFrom(s, p, k + 1)
  }

  /** The search from the start finds the leftmost occurrence. */
  lemma FindFromStart(s: string, p: string, k: nat)
    requires OccursAt(s, p, k)
    requires forall i :: 0 <= i < k ==> !OccursAt(s, p, i)
    ensures FindFrom(s, p, 0) == Some(k)
  {
  }

  /**
   * A replace-all handles the first occurrence of the pattern by copying what
   * precedes it and emitting the replacement, then goes on after the occurrence.
   */
  lemma {:induction false} ReplaceAtFirstOccurrence(s: string, n: nat, pat: string, rep: string)
    requires |pat| > 0 && OccursAt(s, pat, n)
    requires forall i :: 0 <= i < n ==> !OccursAt(s, pat, i)
    ensures ReplaceAll(s, pat, rep) == s[..n] + (rep + ReplaceAll(s[n + |pat|..], pat, rep))
    decreases n
  {
    if n == 0 {
      assert StartsWith(s, pat);
      assert s[..n] == [];
    } else {
      var t := s[1..];
      var tail := rep + ReplaceAll(s[n + |pat|..], pat, rep);
      OccurrencesShift(s, n, pat);
      ReplaceAtFirstOccurrence(t, n - 1, pat, rep);
      assert ReplaceAll(t[n - 1 + |pat|..], pat, rep) == ReplaceAll(s[n + |pat|..], pat, rep);
      assert ReplaceAll(t, pat, rep) == t[..n - 1] + tail;
      ReplaceCopiesHead(s, pat, rep);
      assert ReplaceAll(s, pat, rep) == [s[0]] + (t[..n - 1] + tail);
      ConsPrefix(s, n, tail);
    }
  }

  /** Dropping the first character shifts every occurrence one place to the left. */
  lemma OccurrencesShift(s: string, n: nat, pat: string)
    requires 0 < n && OccursAt(s, pat, n)
    requires forall i :: 0 <= i < n ==> !OccursAt(s, pat, i)
    ensures OccursAt(s[1..], pat, n - 1)
    ensures forall i :: 0 <= i < n - 1 ==> !OccursAt(s[1..], pat, i)
    ensures s[1..][n - 1 + |pat|..] == s[n + |pat|..]
  {
    var t := s[1..];
    assert t[n - 1..n - 1 + |pat|] == s[n..n + |pat|];
    forall i | 0 <= i < n - 1 ensures !OccursAt(t, pat, i) {
      assert !OccursAt(s, pat, i + 1);
      assert t[i..i + |pat|] == s[i + 1..i + 1 + |pat|];
    }
  }

  /** A replace-all copies a first character at which the pattern does not occur. */
  lemma ReplaceCopiesHead(s: string, pat: string, rep: string)
    requires |pat| > 0 && |s| > 0 && !OccursAt(s, pat, 0)
    ensures ReplaceAll(s, pat, rep) == [s[0]] + ReplaceAll(s[1..], pat, rep)
  {
    assert !StartsWith(s, pat);
  }

  /** A prefix of `s` followed by `tail` is `s[0]` followed by the shorter prefix of `s[1..]` and `tail`. */
  lemma ConsPrefix(s: string, n: nat, tail: string)
    requires 0 < n <= |s|
    ensures s[..n] + tail == [s[0]] + (s[1..][..n - 1] + tail)
  {
    assert s[..n] == [s[0]] + s[1..][..n - 1];
  }
}
