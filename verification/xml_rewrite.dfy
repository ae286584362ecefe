/**
 * The text-run rewriter of `convert_xml_content`: a left-to-right, non-overlapping
 * substitution of the regular expression `>([^<>]+)<`, where each captured run is
 * passed to the script converter unless it consists only of spaces, digits and
 * the punctuation `.,:;!?`.
 */
module XmlRewrite {
  import opened Wrappers
  import opened Strings
  import opened Patterns

  /** The outcome of rewriting one asset: the text to write and whether anything changed. */
  datatype Rewritten = Rewritten(content: string, changed: bool)

  predicate IsDelimiter(c: char)
  {
    c == '<' || c == '>'
  }

  predicate DelimiterFree(t: string)
  {
    forall k :: 0 <= k < |t| ==> !IsDelimiter(t[k])
  }

  /** Python's `\s` on text: exactly the characters for which `str.isspace()` holds. */
  predicate IsSpace(c: char)
  {
    || ('\t' <= c <= '\r')
    || ('\U{1C}' <= c <= '\U{1F}')
    || c == ' '
    || c == '\U{85}'
    || c == '\U{A0}'
    || c == '\U{1680}'
    || ('\U{2000}' <= c <= '\U{200A}')
    || c == '\U{2028}'
    || c == '\U{2029}'
    || c == '\U{202F}'
    || c == '\U{205F}'
    || c == '\U{3000}'
  }

  /** The decimal digits this model recognises for `\d`: ASCII and fullwidth. */
  predicate IsDigit(c: char)
  {
    ('0' <= c <= '9') || ('\U{FF10}' <= c <= '\U{FF19}')
  }

  /** A member of the character class `[\s\d.,:;!?]`. */
  predicate IsSkipChar(c: char)
  {
    IsSpace(c) || IsDigit(c) || c == '.' || c == ',' || c == ':' || c == ';' || c == '!' || c == '?'
  }

  /** `re.match(r'^[\s\d.,:;!?]+$', run)`: the run is never handed to the converter. */
  predicate Skippable(run: string)
  {
    |run| > 0 && forall k :: 0 <= k < |run| ==> IsSkipChar(run[k])
  }

  /** The first index at or after `k` holding `<` or `>`, or `|s|` when there is none. */
  function FirstDelimiterFrom(s: string, k: nat): (r: nat)
    requires k <= |s|
    ensures k <= r <= |s|
    ensures forall i :: k <= i < r ==> !IsDelimiter(s[i])
    ensures r < |s| ==> IsDelimiter(s[r])
    decreases |s| - k
  {
    if k == |s| || IsDelimiter(s[k]) then k else FirstDelimiterFrom(s, k + 1)
  }

  /** `>([^<>]+)<` matches `s[..j + 1]`: the run is `s[1..j]`. */
  predicate RunMatch(s: string, j: int)
  {
    1 < j < |s| && s[0] == '>' && s[j] == '<' && forall k :: 0 < k < j ==> !IsDelimiter(s[k])
  }

  /** Where the match starting at the head of `s` closes, if one starts there. */
  function RunClose(s: string): (r: Option<nat>)
    ensures r.Some? ==> RunMatch(s, r.value)
    ensures forall j :: RunMatch(s, j) ==> r == Some(j)
  {
    if |s| > 0 && s[0] == '>' then
      var j := FirstDelimiterFrom(s, 1);
      if 1 < j < |s| && s[j] == '<' then Some(j) else None
    else None
  }

  /** `replace_text`: the replacement for one matched `>run<`. */
  function ReplaceText(run: string, convert: string -> string): (r: string)
    ensures |r| >= 2 && r[0] == '>' && r[|r| - 1] == '<'
  {
    if Skippable(run) then ">" + run + "<"
    else
      var t := convert(run);
      if t != run then ">" + t + "<" else ">" + run + "<"
  }

  /** `re.sub(r'>([^<>]+)<', replace_text, s)`. */
  function RewriteRuns(s: string, convert: string -> string): (r: string)
    decreases |s|
  {
    if |s| == 0 then ""
    else match RunClose(s)
      case Some(j) => ReplaceText(s[1..j], convert) + RewriteRuns(s[j + 1..], convert)
      case None => [s[0]] + RewriteRuns(s[1..], convert)
  }

  /** The runs the regular expression captures, in order. */
  function Runs(s: string): (r: seq<string>)
    decreases |s|
  {
    if |s| == 0 then []
    else match RunClose(s)
      case Some(j) => [s[1..j]] + Runs(s[j + 1..])
      case None => Runs(s[1..])
  }

  /** The tag skeleton: `s` with every captured run removed, leaving `><` in its place. */
  function Skeleton(s: string): (r: string)
    decreases |s|
  {
    if |s| == 0 then ""
    else match RunClose(s)
      case Some(j) => "><" + Skeleton(s[j + 1..])
      case None => [s[0]] + Skeleton(s[1..])
  }

  /** `convert_xml_content` without the file write: the text written (or the input, when nothing changed). */
  function RewriteXml(content: string, convert: string -> string): (r: Rewritten)
    ensures r.changed <==> RewriteRuns(content, convert) != content
    ensures !r.changed ==> r.content == content
    ensures r.changed && FindXmlDeclaration(content).Some? ==> StartsWith(r.content, "<?xml")
    ensures r.changed ==> EndsWith(r.content, RewriteRuns(content, convert))
    ensures r.changed && (FindXmlDeclaration(content).None? || StartsWith(RewriteRuns(content, convert), "<?xml")) ==>
      r.content == RewriteRuns(content, convert)
    ensures r.changed && FindXmlDeclaration(content).Some? && !StartsWith(RewriteRuns(content, convert), "<?xml") ==>
      r.content == FindXmlDeclaration(content).value + "\n" + RewriteRuns(content, convert)
  {
    var declaration := FindXmlDeclaration(content);
    var rewritten := RewriteRuns(content, convert);
    if rewritten == content then Rewritten(content, false)
    else if declaration.Some? && !StartsWith(rewritten, "<?xml") then
      var out := declaration.value + "\n" + rewritten;
      assert out[..5] == declaration.value[..5];
      assert out[|out| - |rewritten|..] == rewritten;
      Rewritten(out, true)
    else
      assert rewritten[|rewritten| - |rewritten|..] == rewritten;
      Rewritten(rewritten, true)
  }

  /** The text a matched run is replaced by; `replace_text` keeps the run when the converter returns it unchanged. */
  function NewRun(run: string, convert: string -> string): (r: string)
    ensures ReplaceText(run, convert) == ">" + r + "<"
  {
    if Skippable(run) then run else convert(run)
  }

  /** The delimiter that occurs first in `t`, if any. */
  function FirstDelimiter(t: string): (r: Option<char>)
  {
    if |t| == 0 then None
    else if IsDelimiter(t[0]) then Some(t[0])
    else FirstDelimiter(t[1..])
  }

  /** A `>` placed before `t` would start a match: `t` begins with a run closed by `<`. */
  predicate OpensRun(t: string)
  {
    |t| > 0 && !IsDelimiter(t[0]) && FirstDelimiter(t) == Some('<')
  }

  lemma {:induction false} FirstDelimiterAt(t: string, i: nat)
    requires i <= |t|
    requires forall k :: 0 <= k < i ==> !IsDelimiter(t[k])
    requires i < |t| ==> IsDelimiter(t[i])
    ensures FirstDelimiter(t) == if i < |t| then Some(t[i]) else None
    decreases i
  {
    if i > 0 {
      FirstDelimiterAt(t[1..], i - 1);
    }
  }

  /** A match starts at a `>` exactly when the text after it opens a run. */
  lemma GtStartsMatchIffOpensRun(t: string)
    ensures RunClose(">" + t).Some? <==> OpensRun(t)
  {
    var s := ">" + t;
    var r := RunClose(s);
    if r.Some? {
      var j := r.value;
      assert forall k :: 0 <= k < j - 1 ==> t[k] == s[k + 1];
      FirstDelimiterAt(t, j - 1);
    } else if OpensRun(t) {
      var i := FirstDelimiterFrom(t, 0);
      FirstDelimiterAt(t, i);
      assert RunMatch(s, i + 1);
    }
  }

  /** Rewriting never changes which delimiter comes first, nor whether the text starts with one. */
  lemma {:induction false} RewriteKeepsFirstDelimiter(t: string, convert: string -> string)
    ensures FirstDelimiter(RewriteRuns(t, convert)) == FirstDelimiter(t)
    ensures |t| > 0 ==> |RewriteRuns(t, convert)| > 0
    ensures |t| > 0 ==> (IsDelimiter(RewriteRuns(t, convert)[0]) <==> IsDelimiter(t[0]))
    decreases |t|
  {
    if |t| > 0 {
      var r := RewriteRuns(t, convert);
      match RunClose(t)
      case Some(j) =>
        assert r[0] == '>' && t[0] == '>';
      case None =>
        assert r == [t[0]] + RewriteRuns(t[1..], convert);
        if !IsDelimiter(t[0]) {
          RewriteKeepsFirstDelimiter(t[1..], convert);
          assert r[1..] == RewriteRuns(t[1..], convert);
        }
    }
  }

  /** Where no match starts, the first character is copied and no match starts in the output either. */
  lemma RewriteHeadNone(s: string, convert: string -> string)
    requires |s| > 0 && RunClose(s).None?
    ensures RewriteRuns(s, convert) == [s[0]] + RewriteRuns(s[1..], convert)
    ensures RunClose(RewriteRuns(s, convert)).None?
  {
    var r := RewriteRuns(s, convert);
    if s[0] == '>' {
      var t := s[1..];
      assert s == ">" + t;
      GtStartsMatchIffOpensRun(t);
      RewriteKeepsFirstDelimiter(t, convert);
      GtStartsMatchIffOpensRun(RewriteRuns(t, convert));
      assert r == ">" + RewriteRuns(t, convert);
    } else {
      assert r[0] == s[0];
    }
  }

  /** The run a match captures is non-empty and holds no delimiter. */
  lemma CapturedRun(s: string, j: nat)
    requires RunMatch(s, j)
    ensures |s[1..j]| > 0 && DelimiterFree(s[1..j])
  {
    var run := s[1..j];
    assert forall k :: 0 <= k < |run| ==> run[k] == s[k + 1];
  }

  /**
   * The replacement of a captured run holds no delimiter when the converter
   * emits none for delimiter-free input.
   */
  lemma NewRunDelimiterFree(s: string, j: nat, convert: string -> string)
    requires RunMatch(s, j)
    requires forall t :: DelimiterFree(t) ==> DelimiterFree(convert(t))
    ensures DelimiterFree(NewRun(s[1..j], convert))
  {
    CapturedRun(s, j);
  }

  /**
   * The replacement of a captured run is non-empty and holds no delimiter when the
   * converter keeps non-empty delimiter-free text so.
   */
  lemma NewRunNonEmpty(s: string, j: nat, convert: string -> string)
    requires RunMatch(s, j)
    requires forall t :: |t| > 0 && DelimiterFree(t) ==> |convert(t)| > 0 && DelimiterFree(convert(t))
    ensures |NewRun(s[1..j], convert)| > 0 && DelimiterFree(NewRun(s[1..j], convert))
  {
    CapturedRun(s, j);
  }

  /** The skeleton of `>x<` followed by `rest`, for delimiter-free `x`. */
  lemma SkeletonOfRun(x: string, rest: string)
    requires DelimiterFree(x)
    ensures Skeleton(">" + x + "<" + rest) == "><" + Skeleton(rest)
  {
    if |x| > 0 {
      SkeletonOfNonEmptyRun(x, rest);
    } else {
      SkeletonOfEmptyRun(rest);
    }
  }

  lemma SkeletonOfNonEmptyRun(x: string, rest: string)
    requires |x| > 0 && DelimiterFree(x)
    ensures Skeleton(">" + x + "<" + rest) == "><" + Skeleton(rest)
  {
    var r := ">" + x + "<" + rest;
    assert RunMatch(r, |x| + 1);
    assert r[|x| + 2..] == rest;
  }

  /** `><` is not a match (the run would be empty): both characters are copied. */
  lemma SkeletonOfEmptyRun(rest: string)
    ensures Skeleton("><" + rest) == "><" + Skeleton(rest)
  {
    var r := "><" + rest;
    assert FirstDelimiterFrom(r, 1) == 1;
    assert RunClose(r).None?;
    var t := r[1..];
    assert t == "<" + rest && t[1..] == rest;
    assert RunClose(t).None?;
    assert Skeleton(r) == ">" + Skeleton(t);
    var k := Skeleton(rest);
    assert Skeleton(t) == "<" + k;
    assert ">" + ("<" + k) == "><" + k;
  }


  /**
   * Tags are preserved: when the converter emits no `<` or `>` for text that has
   * none, the rewritten text has the same tag skeleton as the input.
   */
  lemma {:induction false} SkeletonPreserved(s: string, convert: string -> string)
    requires forall t :: DelimiterFree(t) ==> DelimiterFree(convert(t))
    ensures Skeleton(RewriteRuns(s, convert)) == Skeleton(s)
    decreases |s|
  {
    if |s| > 0 {
      match RunClose(s)
      case Some(j) =>
        var x, rest := NewRun(s[1..j], convert), RewriteRuns(s[j + 1..], convert);
        assert RewriteRuns(s, convert) == ">" + x + "<" + rest;
        NewRunDelimiterFree(s, j, convert);
        SkeletonPreserved(s[j + 1..], convert);
        SkeletonOfRun(x, rest);
      case None =>
        RewriteHeadNone(s, convert);
        SkeletonPreserved(s[1..], convert);
        var r := RewriteRuns(s, convert);
        assert r[1..] == RewriteRuns(s[1..], convert);
    }
  }

  /** The new runs, one per captured run. */
  function NewRuns(runs: seq<string>, convert: string -> string): (r: seq<string>)
    ensures |r| == |runs|
    ensures forall k :: 0 <= k < |runs| ==> r[k] == NewRun(runs[k], convert)
  {
    if |runs| == 0 then [] else [NewRun(runs[0], convert)] + NewRuns(runs[1..], convert)
  }

  /** The runs of `>x<` followed by `rest`, for non-empty delimiter-free `x`. */
  lemma RunsOfRun(x: string, rest: string)
    requires |x| > 0 && DelimiterFree(x)
    ensures Runs(">" + x + "<" + rest) == [x] + Runs(rest)
  {
    var r := ">" + x + "<" + rest;
    assert RunMatch(r, |x| + 1);
    assert r[|x| + 2..] == rest;
    assert r[1..|x| + 1] == x;
  }

  /**
   * When the converter turns non-empty text without `<` or `>` into non-empty text
   * without them, the runs of the rewritten text are exactly the new runs, in order.
   */
  lemma {:induction false} RunsOfRewrite(s: string, convert: string -> string)
    requires forall t :: |t| > 0 && DelimiterFree(t) ==> |convert(t)| > 0 && DelimiterFree(convert(t))
    ensures Runs(RewriteRuns(s, convert)) == NewRuns(Runs(s), convert)
    decreases |s|
  {
    if |s| > 0 {
      match RunClose(s)
      case Some(j) =>
        RunsOfRewriteAtRun(s, j, convert);
      case None =>
        RewriteHeadNone(s, convert);
        RunsOfRewrite(s[1..], convert);
        var r := RewriteRuns(s, convert);
        assert r[1..] == RewriteRuns(s[1..], convert);
        assert Runs(s) == Runs(s[1..]);
    }
  }

  /** The inductive step of `RunsOfRewrite` for a text that starts with a match. */
  lemma {:induction false} RunsOfRewriteAtRun(s: string, j: nat, convert: string -> string)
    requires forall t :: |t| > 0 && DelimiterFree(t) ==> |convert(t)| > 0 && DelimiterFree(convert(t))
    requires |s| > 0 && RunClose(s) == Some(j)
    ensures Runs(RewriteRuns(s, convert)) == NewRuns(Runs(s), convert)
    decreases |s|, 0
  {
    var x, rest := NewRun(s[1..j], convert), RewriteRuns(s[j + 1..], convert);
    assert RewriteRuns(s, convert) == ">" + x + "<" + rest;
    NewRunNonEmpty(s, j, convert);
    RunsOfRewrite(s[j + 1..], convert);
    RunsOfRun(x, rest);
    RunsTail(s, j);
    assert NewRuns(Runs(s), convert) == [x] + NewRuns(Runs(s[j + 1..]), convert);
  }

  /** Rewriting leaves the text alone when the converter returns every convertible run unchanged. */
  lemma {:induction false} FixedRunsLeaveTextUnchanged(s: string, convert: string -> string)
    requires forall run :: run in Runs(s) && !Skippable(run) ==> convert(run) == run
    ensures RewriteRuns(s, convert) == s
    decreases |s|
  {
    if |s| > 0 {
      match RunClose(s)
      case Some(j) =>
        var rest := s[j + 1..];
        RunsTail(s, j);
        FixedRunsLeaveTextUnchanged(rest, convert);
        assert s[1..j] in Runs(s);
        assert NewRun(s[1..j], convert) == s[1..j];
        UnchangedRunAtHead(s, j, convert);
      case None =>
        assert Runs(s) == Runs(s[1..]);
        FixedRunsLeaveTextUnchanged(s[1..], convert);
        assert s == [s[0]] + s[1..];
    }
  }

  lemma UnchangedRunAtHead(s: string, j: nat, convert: string -> string)
    requires |s| > 0 && RunClose(s) == Some(j)
    requires NewRun(s[1..j], convert) == s[1..j]
    requires RewriteRuns(s[j + 1..], convert) == s[j + 1..]
    ensures RewriteRuns(s, convert) == s
  {
    assert RewriteRuns(s, convert) == ReplaceText(s[1..j], convert) + s[j + 1..];
    SplitAtRun(s, j);
  }

  /** A text matched up to `j` is `>`, the run, `<` and the rest. */
  lemma SplitAtRun(s: string, j: nat)
    requires RunMatch(s, j)
    ensures s == ">" + s[1..j] + "<" + s[j + 1..]
  {
    assert s[..j + 1] == [s[0]] + s[1..j] + [s[j]];
    assert s == s[..j + 1] + s[j + 1..];
  }

  /** A text that starts with a match has that run first, then the runs of what follows. */
  lemma RunsTail(s: string, j: nat)
    requires |s| > 0 && RunClose(s) == Some(j)
    ensures Runs(s) == [s[1..j]] + Runs(s[j + 1..])
  {
  }

  /** Skipped runs are emitted verbatim: a text whose every run is skippable is returned as is, whatever the converter. */
  lemma {:induction false} SkippableRunsVerbatim(s: string, convert: string -> string)
    requires forall run :: run in Runs(s) ==> Skippable(run)
    ensures RewriteRuns(s, convert) == s
  {
    FixedRunsLeaveTextUnchanged(s, convert);
  }

  /** The result depends on the converter only through its values on the non-skippable runs. */
  lemma {:induction false} OnlyConvertibleRunsMatter(s: string, c1: string -> string, c2: string -> string)
    requires forall run :: run in Runs(s) && !Skippable(run) ==> c1(run) == c2(run)
    ensures RewriteRuns(s, c1) == RewriteRuns(s, c2)
    decreases |s|
  {
    if |s| > 0 {
      match RunClose(s)
      case Some(j) =>
        var run, rest := s[1..j], s[j + 1..];
        assert Runs(s) == [run] + Runs(rest) by { RunsTail(s, j); }
        assert forall r :: r in Runs(rest) && !Skippable(r) ==> c1(r) == c2(r) by {
          forall r | r in Runs(rest) ensures r in Runs(s) { }
        }
        OnlyConvertibleRunsMatter(rest, c1, c2);
        assert ReplaceText(run, c1) == ReplaceText(run, c2) by { assert run in Runs(s); }
      case None =>
        assert Runs(s) == Runs(s[1..]);
        OnlyConvertibleRunsMatter(s[1..], c1, c2);
    }
  }

  /** With the identity converter nothing changes, so nothing is written. */
  lemma IdentityConverterWritesNothing(content: string, convert: string -> string)
    requires forall t :: convert(t) == t
    ensures RewriteXml(content, convert) == Rewritten(content, false)
  {
    FixedRunsLeaveTextUnchanged(content, convert);
  }

  /**
   * For a converter that turns non-empty text without `<` or `>` into non-empty text
   * without them, the asset is reported changed exactly when some convertible run
   * is converted to something else.
   */
  lemma ChangedIffSomeRunConverted(content: string, convert: string -> string)
    requires forall t :: |t| > 0 && DelimiterFree(t) ==> |convert(t)| > 0 && DelimiterFree(convert(t))
    ensures RewriteXml(content, convert).changed <==>
      exists run :: run in Runs(content) && !Skippable(run) && convert(run) != run
  {
    var runs := Runs(content);
    if RewriteXml(content, convert).changed {
      if !exists run :: run in runs && !Skippable(run) && convert(run) != run {
        FixedRunsLeaveTextUnchanged(content, convert);
      }
    } else {
      RunsOfRewrite(content, convert);
      forall run | run in runs && !Skippable(run)
        ensures convert(run) == run
      {
        var k :| 0 <= k < |runs| && runs[k] == run;
        assert NewRuns(runs, convert)[k] == runs[k];
      }
    }
  }

  /** Characters before the first `>` are copied unchanged. */
  lemma {:induction false} PrefixBeforeGtKept(s: string, p: string, convert: string -> string)
    requires '>' !in p && StartsWith(s, p)
    ensures StartsWith(RewriteRuns(s, convert), p)
    decreases |p|
  {
    if |p| > 0 {
      assert s[0] == p[0] != '>';
      RewriteHeadNone(s, convert);
      assert s[1..][..|p| - 1] == p[1..];
      PrefixBeforeGtKept(s[1..], p[1..], convert);
      assert p == [p[0]] + p[1..];
    }
  }

  /**
   * A declaration at the head of the input is never lost by rewriting, so the
   * restore step only prepends one when the input did not start with it.
   */
  lemma LeadingDeclarationNotRepeated(content: string, convert: string -> string)
    requires StartsWith(content, "<?xml")
    ensures RewriteXml(content, convert).content == RewriteRuns(content, convert)
  {
    PrefixBeforeGtKept(content, "<?xml", convert);
  }
}
