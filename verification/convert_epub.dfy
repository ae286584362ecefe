/**
 * The pure decisions of `convert_epub`: which extracted files are converted and
 * by which rewriter, and the names of the backup copy and of the output archive.
 */
module ConvertEpub {
  import opened Wrappers
  import opened Strings
  import XmlRewrite
  import HtmlRewrite

  /** The rewriter a file is handed to. */
  datatype Kind = Html | Xml

  const HtmlSuffixes: seq<string> := [".xhtml", ".html", ".htm"]
  const XmlSuffixes: seq<string> := [".xml", ".opf", ".ncx"]

  /** Python `name.endswith(suffixes)` for a tuple of suffixes. */
  predicate EndsWithAny(name: string, suffixes: seq<string>)
  {
    |suffixes| > 0 && (EndsWith(name, suffixes[0]) || EndsWithAny(name, suffixes[1..]))
  }

  /** The eligibility test of the walk: the file is read, decoded and counted. */
  predicate Eligible(name: string)
  {
    EndsWithAny(name, HtmlSuffixes + XmlSuffixes)
  }

  /** A name ends with one of a concatenation of tuples exactly when it ends with one of either. */
  lemma {:induction false} EndsWithAnyAppend(name: string, a: seq<string>, b: seq<string>)
    ensures EndsWithAny(name, a + b) <==> EndsWithAny(name, a) || EndsWithAny(name, b)
  {
    if |a| > 0 {
      assert (a + b)[0] == a[0] && (a + b)[1..] == a[1..] + b;
      EndsWithAnyAppend(name, a[1..], b);
    } else {
      assert a + b == b;
    }
  }

  /** The rewriter for a file name: the HTML suffixes take precedence. */
  function KindOf(name: string): (k: Option<Kind>)
    ensures k.Some? <==> Eligible(name)
    ensures k == Some(Xml) ==> !EndsWithAny(name, HtmlSuffixes)
    ensures k == Some(Html) <==> EndsWithAny(name, HtmlSuffixes)
    ensures k == Some(Xml) <==> EndsWithAny(name, XmlSuffixes)
  {
    EndsWithAnyAppend(name, HtmlSuffixes, XmlSuffixes);
    SuffixTuplesDisjoint(name);
    if EndsWithAny(name, HtmlSuffixes) then Some(Html)
    else if EndsWithAny(name, XmlSuffixes) then Some(Xml)
    else None
  }

  /** A three-suffix tuple, unfolded. */
  lemma EndsWithAnyOfThree(name: string, a: string, b: string, c: string)
    ensures EndsWithAny(name, [a, b, c]) <==> EndsWith(name, a) || EndsWith(name, b) || EndsWith(name, c)
  {
    assert [c][1..] == [] && !EndsWithAny(name, []);
    assert EndsWithAny(name, [c]) <==> EndsWith(name, c);
    assert [b, c][1..] == [c];
    assert EndsWithAny(name, [b, c]) <==> EndsWith(name, b) || EndsWith(name, c);
    assert [a, b, c][1..] == [b, c];
  }

  /** A name that ends with `s` ends with the last three characters of `s`. */
  lemma LastThree(name: string, s: string)
    requires |s| >= 3 && EndsWith(name, s)
    ensures name[|name| - 3..] == s[|s| - 3..]
  {
    assert name[|name| - 3..] == name[|name| - |s|..][|s| - 3..];
  }

  /** The suffix tuples are disjoint: no name is both an HTML and an XML file. */
  lemma SuffixTuplesDisjoint(name: string)
    ensures !(EndsWithAny(name, HtmlSuffixes) && EndsWithAny(name, XmlSuffixes))
  {
    EndsWithAnyOfThree(name, ".xhtml", ".html", ".htm");
    EndsWithAnyOfThree(name, ".xml", ".opf", ".ncx");
    if EndsWithAny(name, HtmlSuffixes) && EndsWithAny(name, XmlSuffixes) {
      var h := if EndsWith(name, ".xhtml") then ".xhtml" else if EndsWith(name, ".html") then ".html" else ".htm";
      var x := if EndsWith(name, ".xml") then ".xml" else if EndsWith(name, ".opf") then ".opf" else ".ncx";
      LastThree(name, h);
      LastThree(name, x);
    }
  }

  /**
   * One file of the walk: `None` when it is not read at all, otherwise the
   * rewriter's result. An HTML file is given its parsed text nodes and the
   * serialiser of the parser, which the model takes as inputs.
   */
  function ConvertFile(name: string, content: string, convert: string -> string,
                       nodes: seq<HtmlRewrite.TextNode>,
                       serialise: seq<HtmlRewrite.TextNode> -> string): (r: Option<XmlRewrite.Rewritten>)
    ensures r.Some? <==> Eligible(name)
    ensures r.Some? && EndsWithAny(name, HtmlSuffixes) ==>
      (r.value.changed <==> HtmlRewrite.SomeNodeConverted(nodes, convert))
    ensures r.Some? && !EndsWithAny(name, HtmlSuffixes) ==>
      (r.value.changed <==> XmlRewrite.RewriteRuns(content, convert) != content)
    ensures r.Some? && !r.value.changed ==> r.value.content == content
  {
    match KindOf(name)
    case None => None
    case Some(Html) => Some(HtmlRewrite.RewriteHtml(content, nodes, convert, serialise))
    case Some(Xml) => Some(XmlRewrite.RewriteXml(content, convert))
  }

  const Extension := ".epub"

  /** The backup name, as written: every `.epub` in the path becomes `_backup.epub`. */
  function BackupName(path: string): (r: string)
  {
    ReplaceAll(path, Extension, "_backup.epub")
  }

  /** The output name, as written: every `.epub` in the path becomes `_simplified.epub`. */
  function OutputName(path: string): (r: string)
  {
    ReplaceAll(path, Extension, "_simplified.epub")
  }

  /** In `stem + ".epub"` no occurrence of `.epub` starts inside `stem` unless `stem` holds one. */
  lemma OnlyTrailingExtension(stem: string)
    requires !Contains(stem, Extension)
    ensures forall i :: 0 <= i < |stem| ==> !OccursAt(stem + Extension, Extension, i)
  {
    var s := stem + Extension;
    forall i | 0 <= i < |stem| ensures !OccursAt(s, Extension, i) {
      if i + 5 <= |stem| {
        assert !OccursAt(stem, Extension, i);
        assert stem[i..i + 5] == s[i..i + 5];
      } else if i + 5 <= |s| {
        assert s[i..i + 5][|stem| - i] == s[|stem|] == '.';
        assert Extension[|stem| - i] != '.';
      }
    }
  }

  /** For the usual file name, one `.epub` at the end, both names replace just that suffix. */
  lemma NamesOfPlainPath(stem: string)
    requires !Contains(stem, Extension)
    ensures BackupName(stem + Extension) == stem + "_backup.epub"
    ensures OutputName(stem + Extension) == stem + "_simplified.epub"
  {
    OnlyTrailingExtension(stem);
    var s := stem + Extension;
    assert s[|stem|..] == Extension && s[..|stem|] == stem && s[|s|..] == [];
    ReplaceAtFirstOccurrence(s, |stem|, Extension, "_backup.epub");
    ReplaceAtFirstOccurrence(s, |stem|, Extension, "_simplified.epub");
  }

  /**
   * As written, a path without a lower-case `.epub` names itself as both its
   * backup and its output: the backup is never copied (the path exists) and the
   * packager writes over the source archive.
   */
  lemma NamesWithoutExtension(path: string)
    requires !Contains(path, Extension)
    ensures BackupName(path) == path && OutputName(path) == path
  {
    ReplaceAbsent(path, Extension, "_backup.epub");
    ReplaceAbsent(path, Extension, "_simplified.epub");
  }

  /** An upper-case extension is such a path. */
  lemma UpperCaseExtensionOverwritesSource()
    ensures BackupName("book.EPUB") == "book.EPUB"
    ensures OutputName("book.EPUB") == "book.EPUB"
  {
    var s := "book.EPUB";
    forall i | 0 <= i <= |s| - |Extension| ensures !OccursAt(s, Extension, i) {
      assert s[i + 1] != Extension[1];
    }
    NamesWithoutExtension(s);
  }

  /**
   * The corrected renaming: a trailing `.epub` is replaced by `suffix`, and a
   * path without one has `suffix` appended.
   */
  function RenamedArchive(path: string, suffix: string): (r: string)
    requires |suffix| > |Extension|
    ensures EndsWith(r, suffix)
    ensures r != path
    ensures EndsWith(path, Extension) ==> StartsWith(r, path[..|path| - |Extension|])
    ensures !EndsWith(path, Extension) ==> StartsWith(r, path)
  {
    if EndsWith(path, Extension) then path[..|path| - 5] + suffix
    else path + suffix
  }

  /** The corrected output name. */
  function SimplifiedName(path: string): (r: string)
  {
    RenamedArchive(path, "_simplified.epub")
  }

  /** The corrected backup name. */
  function BackupCopyName(path: string): (r: string)
  {
    RenamedArchive(path, "_backup.epub")
  }

  /**
   * The corrected names never clash with the source or with each other, and on
   * a path whose only `.epub` is its suffix they agree with the names as written.
   */
  lemma CorrectedNamesAreDistinct(path: string)
    ensures SimplifiedName(path) != path && BackupCopyName(path) != path
    ensures SimplifiedName(path) != BackupCopyName(path)
    ensures forall stem :: path == stem + Extension && !Contains(stem, Extension) ==>
      SimplifiedName(path) == OutputName(path) && BackupCopyName(path) == BackupName(path)
  {
    assert |SimplifiedName(path)| == |BackupCopyName(path)| + 4;
    forall stem | path == stem + Extension && !Contains(stem, Extension)
      ensures SimplifiedName(path) == OutputName(path) && BackupCopyName(path) == BackupName(path)
    {
      NamesOfPlainPath(stem);
      assert path[..|path| - 5] == stem;
    }
  }
}
