/**
 * `validate_epub_structure` and `create_container_xml`: the check of the two
 * mandatory descriptor files of the extracted working tree, and the minimal
 * container file synthesised when `META-INF/container.xml` is missing.
 */
module Structure {
  import opened Wrappers
  import opened Strings
  import opened Patterns
  import opened Paths

  /**
   * The extracted working tree: its files in `os.walk` order, the host path
   * separator, and the text read from `META-INF/container.xml` when that is a file.
   */
  datatype WorkTree = WorkTree(files: seq<Path>, sep: char, containerText: string)

  /** The verdict, and the container file text written when one was synthesised. */
  datatype Validation = Validation(valid: bool, synthesised: Option<string>)

  const MimetypePath: Path := ["mimetype"]
  const ContainerPath: Path := ["META-INF", "container.xml"]

  predicate IsFile(t: WorkTree, p: Path)
  {
    p in t.files
  }

  /** `d` is a proper directory prefix of the file path `f`. */
  predicate Within(d: Path, f: Path)
  {
    |d| < |f| && f[..|d|] == d
  }

  /** A directory exists when it is the root or holds some file. */
  predicate IsDir(t: WorkTree, p: Path)
  {
    |p| == 0 || exists i :: 0 <= i < |t.files| && Within(p, t.files[i])
  }

  /** `os.path.exists`: a file or a directory. */
  predicate Exists(t: WorkTree, p: Path)
  {
    IsFile(t, p) || IsDir(t, p)
  }

  predicate IsOpf(p: Path)
  {
    |p| > 0 && EndsWith(Basename(p), ".opf")
  }

  /** `files[k]` is the first package document in walk order. */
  predicate FirstOpf(files: seq<Path>, k: int)
  {
    0 <= k < |files| && IsOpf(files[k]) && forall j :: 0 <= j < k ==> !IsOpf(files[j])
  }

  /** There is only one first package document. */
  lemma FirstOpfUnique(files: seq<Path>, k: int, k': int)
    requires FirstOpf(files, k) && FirstOpf(files, k')
    ensures k == k'
  {
  }

  /** The portable paths of the package documents, in walk order (`opf_files`). */
  function OpfFiles(files: seq<Path>, sep: char): (r: seq<string>)
    ensures |r| > 0 <==> exists k :: 0 <= k < |files| && IsOpf(files[k])
    ensures |r| > 0 ==> exists k :: FirstOpf(files, k) && r[0] == PortablePath(files[k], sep)
  {
    if |files| == 0 then []
    else
      var rest := OpfFiles(files[1..], sep);
      assert forall k :: 1 <= k < |files| ==> files[k] == files[1..][k - 1];
      if IsOpf(files[0]) then
        assert FirstOpf(files, 0);
        [PortablePath(files[0], sep)] + rest
      else
        assert |rest| > 0 ==> exists k :: FirstOpf(files, k) && rest[0] == PortablePath(files[k], sep) by {
          if |rest| > 0 {
            var k :| FirstOpf(files[1..], k) && rest[0] == PortablePath(files[1..][k], sep);
            assert FirstOpf(files, k + 1);
          }
        }
        rest
  }

  /** The components `os.path.join` keeps: empty strings between slashes add nothing. */
  function NonEmptyParts(parts: seq<string>): (r: seq<string>)
    ensures forall k :: 0 <= k < |r| ==> |r[k]| > 0
    ensures (forall k :: 0 <= k < |parts| ==> |parts[k]| > 0) ==> r == parts
  {
    if |parts| == 0 then []
    else if |parts[0]| == 0 then NonEmptyParts(parts[1..])
    else [parts[0]] + NonEmptyParts(parts[1..])
  }

  /**
   * `os.path.exists(os.path.join(extract_dir, *ref.split('/')))`: a trailing empty
   * component makes the joined path end in a separator, which only a directory satisfies.
   */
  predicate ReferenceExists(t: WorkTree, ref: string)
  {
    var comps := Split(ref, '/');
    var parts := NonEmptyParts(comps);
    if comps[|comps| - 1] == "" then IsDir(t, parts) else Exists(t, parts)
  }

  /*
   * The synthesised container file, line by line. The text is assembled from
   * these pieces so that the proofs about it reason over short literals.
   */
  const DeclarationStart := "<?xml version=\"1.0\" encoding=\"UTF"
  const DeclarationEnd := "8\"?>\n"
  const ContainerTag := "<container version=\"1.0\" xmlns=\""
  const ContainerNamespace := "urn:oasis:names:tc:" + "opendocument:xmlns:container"
  const ContainerOpen := ContainerTag + ContainerNamespace + "\">\n"
  const RootfilesOpen := "    <rootfiles>\n"
  const RootfileOpen := "        <rootfile "
  const FullPathAttribute := "full-path=\""
  const LocatorTailRest := " media-type=\"application/oebps-package+xml\"/>\n    </rootfiles>\n</container>"

  /** The lines between the hyphen of `UTF-8` and the `full-path` attribute. */
  const LocatorMiddle := DeclarationEnd + ContainerOpen + RootfilesOpen + RootfileOpen

  /** The head of the synthesised container file, up to the opening quote of `full-path`. */
  const LocatorHead := DeclarationStart + "-" + LocatorMiddle + FullPathAttribute

  /** The rest of the synthesised container file, from the closing quote of `full-path`. */
  const LocatorTail := "\"" + LocatorTailRest

  /** `create_container_xml`: the container file naming `opfPath` as the package document. */
  function ContainerXml(opfPath: string): (r: string)
  {
    LocatorHead + opfPath + LocatorTail
  }

  /** `validate_epub_structure` over an abstract working tree. */
  function Validate(t: WorkTree): (r: Validation)
    ensures !Exists(t, MimetypePath) ==> r == Validation(true, None)
    ensures Exists(t, MimetypePath) && !Exists(t, ContainerPath) ==>
      (r.valid <==> exists k :: 0 <= k < |t.files| && IsOpf(t.files[k]))
    ensures Exists(t, MimetypePath) && !Exists(t, ContainerPath) && r.valid ==>
      exists k :: FirstOpf(t.files, k) && r.synthesised == Some(ContainerXml(PortablePath(t.files[k], t.sep)))
    ensures Exists(t, MimetypePath) && IsFile(t, ContainerPath) ==>
      && r.synthesised.None?
      && (r.valid <==> FindFullPath(t.containerText).Some? && ReferenceExists(t, FindFullPath(t.containerText).value))
    ensures Exists(t, ContainerPath) && !IsFile(t, ContainerPath) ==> r.valid == !Exists(t, MimetypePath)
    ensures r.synthesised.Some? ==> r.valid
  {
    if !Exists(t, MimetypePath) then Validation(true, None)
    else if !Exists(t, ContainerPath) then
      var opfs := OpfFiles(t.files, t.sep);
      if |opfs| > 0 then Validation(true, Some(ContainerXml(opfs[0]))) else Validation(false, None)
    else if !IsFile(t, ContainerPath) then
      // reading a directory raises, and the handler reports failure
      Validation(false, None)
    else
      match FindFullPath(t.containerText)
      case Some(ref) => Validation(ReferenceExists(t, ref), None)
      case None => Validation(false, None)
  }

  /** The only hyphen of the locator head before `full-path` is the one of `UTF-8`, four characters after a quote. */
  lemma LocatorHeadShape()
    ensures |LocatorHead| > 11
    ensures LocatorHead[|LocatorHead| - 11..] == FullPath.prefix
    ensures forall k :: 0 <= k < |LocatorHead| - 7 && LocatorHead[k] == '-' ==> k == 33
    ensures LocatorHead[29] == '"'
  {
    assert |DeclarationStart| == 33 && DeclarationStart[29] == '"' && '-' !in DeclarationStart;
    MiddleHyphenFree();
    OnlyHyphenAfter(DeclarationStart, LocatorMiddle, FullPathAttribute);
  }

  /** No line between the declaration's encoding and the `full-path` attribute holds a hyphen. */
  lemma MiddleHyphenFree()
    ensures '-' !in LocatorMiddle
  {
    assert '-' !in DeclarationEnd;
    ContainerOpenHyphenFree();
    assert '-' !in RootfilesOpen;
    assert '-' !in RootfileOpen;
  }

  /** The opening `container` line holds no hyphen. */
  lemma ContainerOpenHyphenFree()
    ensures '-' !in ContainerOpen
  {
    assert '-' !in ContainerTag;
    assert '-' !in "urn:oasis:names:tc:";
    assert '-' !in "opendocument:xmlns:container";
  }

  /** In `a + "-" + b + f`, with `f` the `full-path="` attribute, the hyphen after `a` is the only one before that of `f`. */
  lemma OnlyHyphenAfter(a: string, b: string, f: string)
    requires '-' !in a && '-' !in b && f == FullPathAttribute
    ensures var h := a + "-" + b + f;
      forall k :: 0 <= k < |h| - 7 && h[k] == '-' ==> k == |a|
  {
    var h := a + "-" + b + f;
    forall k | 0 <= k < |h| - 7 && k != |a|
      ensures h[k] != '-'
    {
      if k < |a| {
        assert h[k] == a[k];
      } else if k < |a| + 1 + |b| {
        assert h[k] == b[k - |a| - 1];
      } else {
        assert h[k] == f[k - |a| - 1 - |b|];
      }
    }
  }

  /**
   * A text made of `head`, a quote-free path and a quote-led `tail` yields that
   * path, when the only hyphen of `head` before `full-path="` sits four
   * characters after a quote (so no earlier match can start).
   */
  lemma {:induction false} FullPathAfterHead(head: string, p: string, tail: string)
    requires |head| > 40 && head[|head| - 11..] == FullPath.prefix
    requires forall k :: 0 <= k < |head| - 7 && head[k] == '-' ==> k == 33
    requires head[29] == '"'
    requires |p| > 0 && '"' !in p
    requires |tail| > 0 && tail[0] == '"'
    ensures FindFullPath(head + p + tail) == Some(p)
  {
    var s := head + p + tail;
    var h := |head|;
    var e := h + |p| + 1;
    MatchAfterHead(head, p, tail);
    NoMatchInHead(head, p + tail);
    assert s == head + (p + tail);
    FullPathAtLeftmost(s, h - 11, e);
    assert s[h..e - 1] == p;
  }

  /** The attribute closing the head, the path and the quote opening the tail form a match. */
  lemma MatchAfterHead(head: string, p: string, tail: string)
    requires |head| >= 11 && head[|head| - 11..] == FullPath.prefix
    requires |p| > 0 && '"' !in p
    requires |tail| > 0 && tail[0] == '"'
    ensures MatchesAt(head + p + tail, FullPath, |head| - 11, |head| + |p| + 1)
  {
    var s := head + p + tail;
    var h := |head|;
    var e := h + |p| + 1;
    assert s[h - 11..h] == head[h - 11..];
    assert s[e - 1] == tail[0];
    assert s[e - 1..e] == FullPath.closer;
    forall k | h <= k < e - 1
      ensures s[k] != '"'
    {
      assert s[k] == p[k - h];
    }
  }

  /** No match starts in the head before its closing `full-path="`. */
  lemma NoMatchInHead(head: string, rest: string)
    requires |head| > 40 && head[|head| - 11..] == FullPath.prefix
    requires forall k :: 0 <= k < |head| - 7 && head[k] == '-' ==> k == 33
    requires head[29] == '"'
    ensures forall i, e :: 0 <= i < |head| - 11 ==> !MatchesAt(head + rest, FullPath, i, e)
  {
    var s := head + rest;
    forall i, e | 0 <= i < |head| - 11
      ensures !MatchesAt(s, FullPath, i, e)
    {
      assert FullPath.prefix[0] == 'f' && FullPath.prefix[4] == '-';
      if i == 29 {
        assert s[i] == '"';
      } else {
        assert s[i + 4] == head[i + 4] != '-';
      }
    }
  }

  /**
   * Locator round trip: the `full-path` extracted from the synthesised container
   * file is exactly the package-document path it was built from.
   */
  lemma LocatorRoundTrip(opfPath: string)
    requires |opfPath| > 0 && '"' !in opfPath
    ensures FindFullPath(ContainerXml(opfPath)) == Some(opfPath)
  {
    LocatorHeadShape();
    assert |LocatorHead| > 40;
    FullPathAfterHead(LocatorHead, opfPath, LocatorTail);
  }

  /** No component of the path holds a double quote, which would end the `full-path` value early. */
  predicate QuoteFree(p: Path)
  {
    forall k :: 0 <= k < |p| ==> '"' !in p[k]
  }

  /**
   * A tree with the marker file, no container file and a first package document
   * `files[k]` whose path is well formed and quote-free gets a synthesised
   * container file, and that file makes the tree valid: once it is
   * written, validating again finds the package document it names.
   */
  lemma SynthesisedLocatorValidates(t: WorkTree, k: int)
    requires Exists(t, MimetypePath) && !Exists(t, ContainerPath)
    requires FirstOpf(t.files, k) && WellFormedPath(t.files[k], t.sep) && QuoteFree(t.files[k])
    ensures Validate(t).synthesised.Some?
    ensures Validate(WorkTree(t.files + [ContainerPath], t.sep, Validate(t).synthesised.value)).valid
  {
    var text := Validate(t).synthesised.value;
    var t' := WorkTree(t.files + [ContainerPath], t.sep, text);
    var k' :| FirstOpf(t.files, k') && text == ContainerXml(PortablePath(t.files[k'], t.sep));
    FirstOpfUnique(t.files, k, k');
    var opf := t.files[k];
    var ref := PortablePath(opf, t.sep);
    PortablePathJoinsWithSlash(opf, t.sep);
    JoinExcludes(opf, "/", '"');
    LocatorRoundTrip(ref);
    ExistsInWiderTree(t, t', MimetypePath);
    ReferenceToFileValidates(t', ref, opf);
  }

  /** Adding files keeps every existing path existing. */
  lemma ExistsInWiderTree(t: WorkTree, t': WorkTree, p: Path)
    requires forall f :: f in t.files ==> f in t'.files
    requires Exists(t, p)
    ensures Exists(t', p)
  {
    if !IsFile(t, p) && |p| > 0 {
      var i :| 0 <= i < |t.files| && Within(p, t.files[i]);
      assert t.files[i] in t.files;
      var j :| 0 <= j < |t'.files| && t'.files[j] == t.files[i];
    }
  }

  /**
   * A reference written as the `/`-joined components of a walked file resolves
   * to that file: the split at `/` gives the components back, none of them empty.
   */
  lemma PortableReferenceExists(t: WorkTree, p: Path)
    requires WellFormedPath(p, t.sep) && IsFile(t, p)
    ensures ReferenceExists(t, Join(p, "/"))
  {
    JoinSplitRoundTrip(p, '/');
    assert Split(Join(p, "/"), '/') == p;
    assert NonEmptyParts(p) == p;
  }

  /** A container file whose `full-path` names an existing file validates. */
  lemma ReferenceToFileValidates(t: WorkTree, ref: string, p: Path)
    requires Exists(t, MimetypePath) && IsFile(t, ContainerPath)
    requires FindFullPath(t.containerText) == Some(ref)
    requires Split(ref, '/') == p && IsFile(t, p)
    requires forall k :: 0 <= k < |p| ==> |p[k]| > 0
    ensures Validate(t).valid
  {
    assert NonEmptyParts(p) == p;
  }
}
