/**
 * Leftmost search for the three regular expressions the converter uses to find
 * single markup items: `<\?xml[^>]+\?>`, `<!DOCTYPE[^>]+>` and `full-path="([^"]+)"`.
 * Each has the shape `prefix[^stop]+closer` where `closer` ends with `stop`.
 */
module Patterns {
  import opened Wrappers
  import opened Strings

  /** The regular expression `prefix[^stop]+closer`. */
  datatype Pattern = Pattern(prefix: string, stop: char, closer: string)

  /** A half-open match `s[start..end]`. */
  datatype Span = Span(start: nat, end: nat)

  /** `closer` ends with `stop` and holds no other `stop`, so a match ends at the first `stop` after the prefix. */
  predicate WellFormed(p: Pattern)
  {
    |p.closer| > 0 && p.closer[|p.closer| - 1] == p.stop && p.stop !in p.closer[..|p.closer| - 1]
  }

  /** `<\?xml[^>]+\?>`, the XML declaration. */
  const XmlDeclaration := Pattern("<?xml", '>', "?>")

  /** `<!DOCTYPE[^>]+>`, the document type declaration. */
  const Doctype := Pattern("<!DOCTYPE", '>', ">")

  /** `full-path="([^"]+)"`, the package-document reference of a container file. */
  const FullPath := Pattern("full-path=\"", '"', "\"")

  /** The regular expression matches exactly `s[i..e]`: the prefix, at least one non-`stop` character, the closer. */
  predicate MatchesAt(s: string, pat: Pattern, i: int, e: int)
  {
    && 0 <= i
    && i + |pat.prefix| + 1 + |pat.closer| <= e <= |s|
    && s[i..i + |pat.prefix|] == pat.prefix
    && s[e - |pat.closer|..e] == pat.closer
    && forall k :: i + |pat.prefix| <= k < e - |pat.closer| ==> s[k] != pat.stop
  }

  /** The first index at or after `k` holding `c`, or `|s|` when there is none. */
  function FirstIndexFrom(s: string, c: char, k: nat): (r: nat)
    requires k <= |s|
    ensures k <= r <= |s|
    ensures forall i :: k <= i < r ==> s[i] != c
    ensures r < |s| ==> s[r] == c
    decreases |s| - k
  {
    if k == |s| || s[k] == c then k else FirstIndexFrom(s, c, k + 1)
  }

  /** The end of the match that starts at `i`, if there is one (there is at most one). */
  function MatchEnd(s: string, pat: Pattern, i: nat): (r: Option<nat>)
    requires WellFormed(pat)
    ensures r.Some? ==> MatchesAt(s, pat, i, r.value)
    ensures forall e :: MatchesAt(s, pat, i, e) ==> r == Some(e)
  {
    var b := i + |pat.prefix|;
    if b <= |s| && s[i..b] == pat.prefix then
      var k := FirstIndexFrom(s, pat.stop, b);
      MatchEndsAtFirstStop(s, pat, i, k);
      if k < |s| && k + 1 >= b + 1 + |pat.closer| && s[k + 1 - |pat.closer|..k + 1] == pat.closer
      then Some(k + 1)
      else None
    else None
  }

  lemma MatchEndsAtFirstStop(s: string, pat: Pattern, i: nat, k: nat)
    requires WellFormed(pat)
    requires i + |pat.prefix| <= k <= |s|
    requires forall j :: i + |pat.prefix| <= j < k ==> s[j] != pat.stop
    requires k < |s| ==> s[k] == pat.stop
    ensures forall e :: MatchesAt(s, pat, i, e) ==> e == k + 1
  {
    forall e | MatchesAt(s, pat, i, e)
      ensures e == k + 1
    {
      var n := |pat.closer|;
      assert s[e - 1] == pat.closer[n - 1] == pat.stop;
      forall j | i + |pat.prefix| <= j < e - 1
        ensures s[j] != pat.stop
      {
        if j >= e - n {
          assert s[j] == pat.closer[j - (e - n)];
          assert pat.closer[j - (e - n)] == pat.closer[..n - 1][j - (e - n)];
        }
      }
    }
  }

  /** Python `re.search(pattern, s[from..])`: the leftmost match starting at or after `from`. */
  function Search(s: string, pat: Pattern, from: nat): (r: Option<Span>)
    requires WellFormed(pat)
    requires from <= |s|
    ensures r.Some? ==> from <= r.value.start && MatchesAt(s, pat, r.value.start, r.value.end)
    ensures r.Some? ==> forall i, e :: from <= i < r.value.start ==> !MatchesAt(s, pat, i, e)
    ensures r.None? ==> forall i, e :: from <= i ==> !MatchesAt(s, pat, i, e)
    decreases |s| - from
  {
    match MatchEnd(s, pat, from)
    case Some(e) => Some(Span(from, e))
    case None =>
      if from == |s| then None else Search(s, pat, from + 1)
  }

  /** `re.search(r'<\?xml[^>]+\?>', s).group(0)`, when there is a match. */
  function FindXmlDeclaration(s: string): (r: Option<string>)
    ensures r.Some? ==> StartsWith(r.value, "<?xml") && EndsWith(r.value, "?>") && Contains(s, r.value)
    ensures r.None? <==> forall i, e :: !MatchesAt(s, XmlDeclaration, i, e)
  {
    match Search(s, XmlDeclaration, 0)
    case None => None
    case Some(m) =>
      var d := s[m.start..m.end];
      assert OccursAt(s, d, m.start);
      assert d[..5] == s[m.start..m.start + 5];
      assert d[|d| - 2..] == s[m.end - 2..m.end];
      Some(d)
  }

  /** `re.search(r'<!DOCTYPE[^>]+>', s).group(0)`, when there is a match. */
  function FindDoctype(s: string): (r: Option<string>)
    ensures r.Some? ==> StartsWith(r.value, "<!DOCTYPE") && EndsWith(r.value, ">") && Contains(s, r.value)
    ensures r.None? <==> forall i, e :: !MatchesAt(s, Doctype, i, e)
  {
    match Search(s, Doctype, 0)
    case None => None
    case Some(m) =>
      var d := s[m.start..m.end];
      assert OccursAt(s, d, m.start);
      assert d[..9] == s[m.start..m.start + 9];
      assert d[|d| - 1..] == s[m.end - 1..m.end];
      Some(d)
  }

  /** `re.search(r'full-path="([^"]+)"', s).group(1)`, when there is a match. */
  function FindFullPath(s: string): (r: Option<string>)
    ensures r.Some? ==> |r.value| > 0 && '"' !in r.value && Contains(s, "full-path=\"" + r.value + "\"")
    ensures r.None? <==> forall i, e :: !MatchesAt(s, FullPath, i, e)
  {
    match Search(s, FullPath, 0)
    case None => None
    case Some(m) =>
      FullPathGroup(s, m.start, m.end);
      Some(s[m.start + 11..m.end - 1])
  }

  /** A match with no match before it is the one the search from the start returns. */
  lemma SearchAtLeftmost(s: string, pat: Pattern, i: nat, e: nat)
    requires WellFormed(pat)
    requires MatchesAt(s, pat, i, e)
    requires forall i', e' :: 0 <= i' < i ==> !MatchesAt(s, pat, i', e')
    ensures Search(s, pat, 0) == Some(Span(i, e))
  {
    assert MatchEnd(s, pat, i) == Some(e);
  }

  /** The leftmost declaration match is the declaration found. */
  lemma DeclarationAtLeftmost(s: string, i: nat, e: nat)
    requires MatchesAt(s, XmlDeclaration, i, e)
    requires forall i', e' :: 0 <= i' < i ==> !MatchesAt(s, XmlDeclaration, i', e')
    ensures FindXmlDeclaration(s) == Some(s[i..e])
  {
    SearchAtLeftmost(s, XmlDeclaration, i, e);
  }

  /** The leftmost DOCTYPE match is the DOCTYPE found. */
  lemma DoctypeAtLeftmost(s: string, i: nat, e: nat)
    requires MatchesAt(s, Doctype, i, e)
    requires forall i', e' :: 0 <= i' < i ==> !MatchesAt(s, Doctype, i', e')
    ensures FindDoctype(s) == Some(s[i..e])
  {
    SearchAtLeftmost(s, Doctype, i, e);
  }

  /** The leftmost `full-path="…"` match decides the reference found. */
  lemma FullPathAtLeftmost(s: string, i: nat, e: nat)
    requires MatchesAt(s, FullPath, i, e)
    requires forall i', e' :: 0 <= i' < i ==> !MatchesAt(s, FullPath, i', e')
    ensures FindFullPath(s) == Some(s[i + 11..e - 1])
  {
    SearchAtLeftmost(s, FullPath, i, e);
    var m := Search(s, FullPath, 0).value;
    assert m.start == i && m.end == e;
  }

  /** The group of a `full-path="…"` match: non-empty, quote-free, and quoted after the attribute name. */
  lemma FullPathGroup(s: string, i: nat, e: nat)
    requires MatchesAt(s, FullPath, i, e)
    ensures var p := s[i + 11..e - 1];
      |p| > 0 && '"' !in p && Contains(s, "full-path=\"" + p + "\"")
  {
    var p := s[i + 11..e - 1];
    assert s[i..e] == s[i..i + 11] + p + s[e - 1..e];
    assert OccursAt(s, "full-path=\"" + p + "\"", i);
    assert forall k :: 0 <= k < |p| ==> p[k] == s[i + 11 + k];
  }
}
