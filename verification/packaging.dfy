/**
 * The `zipfile` branch of `package_epub_safely`: which entries the output
 * archive receives, in which order, under which names and with which
 * compression method. The staging copy and the archive bytes are not modelled;
 * an entry records where its bytes come from.
 */
module Packaging {
  import opened Strings
  import opened Paths

  /** The ZIP compression method of an entry. */
  datatype Method = Stored | Deflated

  /** Where an entry's bytes come from: the marker text written by the packager, or a staged file. */
  datatype Content = MarkerText(text: string) | StagedFile(path: Path)

  datatype Entry = Entry(name: string, compression: Method, content: Content)

  /** The media type every EPUB container declares in its first entry. */
  const MediaType := "application/epub+zip"
  const MarkerName := "mimetype"
  const ContainerName := "META-INF/container.xml"

  /** The separators `os.sep` can be. */
  predicate HostSeparator(sep: char)
  {
    sep == '/' || sep == '\\'
  }

  /** Platform metadata files the staging copy leaves out. */
  predicate PlatformJunk(name: string)
  {
    name == ".DS_Store" || name == "Thumbs.db"
  }

  /** File names the archive loop skips: platform metadata, and every file called `mimetype`, in any directory. */
  predicate SkippedByArchive(name: string)
  {
    PlatformJunk(name) || name == MarkerName
  }

  /** Every staged path is a well-formed file path. */
  predicate WellFormedWalk(files: seq<Path>, sep: char)
  {
    forall p :: p in files ==> WellFormedPath(p, sep)
  }

  /** The archive entry written for one staged file that is not skipped. */
  function FileEntry(p: Path, sep: char): (e: Entry)
    requires WellFormedPath(p, sep)
    ensures e.name == Join(p, "/") && e.content == StagedFile(p)
    ensures e.compression == Stored <==> e.name == ContainerName
  {
    PortablePathJoinsWithSlash(p, sep);
    var name := PortablePath(p, sep);
    Entry(name, if name == ContainerName then Stored else Deflated, StagedFile(p))
  }

  /**
   * An entry the archive loop writes for a staged file: it names a kept file of
   * the walk by its `/`-joined relative path, never as `mimetype`, with no other
   * host separator in the name, and is stored uncompressed exactly when it is
   * the container locator.
   */
  predicate ArchivedFile(e: Entry, staged: seq<Path>, sep: char)
  {
    && e.content.StagedFile?
    && e.content.path in staged
    && |e.content.path| > 0
    && !SkippedByArchive(Basename(e.content.path))
    && e.name == Join(e.content.path, "/")
    && (e.compression == Stored <==> e.name == ContainerName)
    && e.name != MarkerName
    && (HostSeparator(sep) && sep != '/' ==> sep !in e.name)
  }

  /** The staged files the archive loop keeps, in walk order. */
  function KeptFiles(staged: seq<Path>): (r: seq<Path>)
    requires forall p :: p in staged ==> |p| > 0
    ensures forall p :: p in r <==> p in staged && !SkippedByArchive(Basename(p))
    ensures |r| <= |staged|
  {
    if |staged| == 0 then []
    else if SkippedByArchive(Basename(staged[0])) then KeptFiles(staged[1..])
    else [staged[0]] + KeptFiles(staged[1..])
  }

  /** A staged file the archive loop writes. */
  predicate Kept(p: Path)
  {
    |p| > 0 && !SkippedByArchive(Basename(p))
  }

  /** The positions, at or after `from`, of the staged files the archive loop writes. */
  function KeptPositions(staged: seq<Path>, from: nat): (idx: seq<nat>)
    requires from <= |staged|
    ensures forall k :: 0 <= k < |idx| ==> from <= idx[k] < |staged| && Kept(staged[idx[k]])
    ensures forall k, l :: 0 <= k < l < |idx| ==> idx[k] < idx[l]
    decreases |staged| - from
  {
    if from == |staged| then []
    else if Kept(staged[from]) then [from] + KeptPositions(staged, from + 1)
    else KeptPositions(staged, from + 1)
  }

  /** No kept file is missed: every position at or after `from` holding one is listed. */
  lemma {:induction false} KeptPositionsComplete(staged: seq<Path>, from: nat, i: nat)
    requires from <= i < |staged| && Kept(staged[i])
    ensures i in KeptPositions(staged, from)
    decreases i - from
  {
    if from < i {
      KeptPositionsComplete(staged, from + 1, i);
    }
  }

  /**
   * The kept files are the walk filtered in order: the `k`-th kept file is the
   * staged file at the `k`-th kept position.
   */
  lemma {:induction false} KeptFilesInWalkOrder(staged: seq<Path>, from: nat)
    requires forall p :: p in staged ==> |p| > 0
    requires from <= |staged|
    ensures |KeptFiles(staged[from..])| == |KeptPositions(staged, from)|
    ensures forall k :: 0 <= k < |KeptPositions(staged, from)| ==>
      KeptFiles(staged[from..])[k] == staged[KeptPositions(staged, from)[k]]
    decreases |staged| - from
  {
    if from < |staged| {
      KeptFilesInWalkOrder(staged, from + 1);
      KeptFilesStep(staged, from, from + 1);
    }
  }

  /** One step of `KeptFilesInWalkOrder`: the claim at `next`, one past `from`, carries over to `from`. */
  lemma KeptFilesStep(staged: seq<Path>, from: nat, next: nat)
    requires forall p :: p in staged ==> |p| > 0
    requires from < |staged| && next == from + 1
    requires |KeptFiles(staged[next..])| == |KeptPositions(staged, next)|
    requires forall k :: 0 <= k < |KeptPositions(staged, next)| ==>
      KeptFiles(staged[next..])[k] == staged[KeptPositions(staged, next)[k]]
    ensures |KeptFiles(staged[from..])| == |KeptPositions(staged, from)|
    ensures forall k :: 0 <= k < |KeptPositions(staged, from)| ==>
      KeptFiles(staged[from..])[k] == staged[KeptPositions(staged, from)[k]]
  {
    var t := staged[from..];
    assert t[0] == staged[from] && t[1..] == staged[from + 1..];
    var rest, tail := KeptFiles(staged[from + 1..]), KeptPositions(staged, from + 1);
    if Kept(staged[from]) {
      assert KeptFiles(t) == [staged[from]] + rest;
      assert KeptPositions(staged, from) == [from] + tail;
    } else {
      assert KeptFiles(t) == rest;
      assert KeptPositions(staged, from) == tail;
    }
  }

  /** The loop over the staging directory: one entry per kept file, in walk order. */
  function ArchiveLoop(staged: seq<Path>, sep: char): (r: seq<Entry>)
    requires WellFormedWalk(staged, sep)
    ensures |r| == |KeptFiles(staged)|
    ensures forall i :: 0 <= i < |r| ==> r[i].content == StagedFile(KeptFiles(staged)[i])
    ensures forall i :: 0 <= i < |r| ==> ArchivedFile(r[i], staged, sep)
  {
    if |staged| == 0 then []
    else
      var p := staged[0];
      assert p in staged;
      WalkTail(staged, sep);
      var rest := ArchiveLoop(staged[1..], sep);
      ArchivedInWiderWalk(rest, staged, sep);
      if SkippedByArchive(Basename(p)) then rest
      else
        ArchiveConsStep(staged, sep, rest);
        [FileEntry(p, sep)] + rest
  }

  /** The entry of a kept first file, followed by the entries of the rest of the walk, keeps the loop's promises. */
  lemma ArchiveConsStep(staged: seq<Path>, sep: char, rest: seq<Entry>)
    requires |staged| > 0 && WellFormedWalk(staged, sep) && WellFormedWalk(staged[1..], sep)
    requires WellFormedPath(staged[0], sep) && !SkippedByArchive(Basename(staged[0]))
    requires |rest| == |KeptFiles(staged[1..])|
    requires forall i :: 0 <= i < |rest| ==> rest[i].content == StagedFile(KeptFiles(staged[1..])[i])
    requires forall i :: 0 <= i < |rest| ==> ArchivedFile(rest[i], staged, sep)
    ensures var r := [FileEntry(staged[0], sep)] + rest;
      && |r| == |KeptFiles(staged)|
      && (forall i :: 0 <= i < |r| ==> r[i].content == StagedFile(KeptFiles(staged)[i]))
      && (forall i :: 0 <= i < |r| ==> ArchivedFile(r[i], staged, sep))
  {
    var e := FileEntry(staged[0], sep);
    assert ArchivedFile(e, staged, sep) by {
      assert staged[0] in staged;
      PortableNameShape(staged[0], sep);
    }
    assert KeptFiles(staged) == [staged[0]] + KeptFiles(staged[1..]);
    EntriesCons(e, rest, staged[0], KeptFiles(staged[1..]), staged, sep);
  }

  /** Prepending an entry for `p` to entries that follow `kept` gives entries that follow `[p] + kept`. */
  lemma EntriesCons(e: Entry, rest: seq<Entry>, p: Path, kept: seq<Path>, staged: seq<Path>, sep: char)
    requires e.content == StagedFile(p) && ArchivedFile(e, staged, sep)
    requires |rest| == |kept|
    requires forall i :: 0 <= i < |rest| ==> rest[i].content == StagedFile(kept[i])
    requires forall i :: 0 <= i < |rest| ==> ArchivedFile(rest[i], staged, sep)
    ensures forall i :: 0 <= i < |rest| + 1 ==> ([e] + rest)[i].content == StagedFile(([p] + kept)[i])
    ensures forall i :: 0 <= i < |rest| + 1 ==> ArchivedFile(([e] + rest)[i], staged, sep)
  {
    forall i | 1 <= i < |rest| + 1
      ensures ([e] + rest)[i] == rest[i - 1] && ([p] + kept)[i] == kept[i - 1] { }
  }

  /** The rest of a well-formed walk is well formed. */
  lemma WalkTail(staged: seq<Path>, sep: char)
    requires WellFormedWalk(staged, sep) && |staged| > 0
    ensures WellFormedWalk(staged[1..], sep)
  {
    forall q | q in staged[1..] ensures WellFormedPath(q, sep) { assert q in staged; }
  }

  /** Entries written for the rest of the walk are entries of the whole walk. */
  lemma ArchivedInWiderWalk(rest: seq<Entry>, staged: seq<Path>, sep: char)
    requires |staged| > 0
    requires forall i :: 0 <= i < |rest| ==> ArchivedFile(rest[i], staged[1..], sep)
    ensures forall i :: 0 <= i < |rest| ==> ArchivedFile(rest[i], staged, sep)
  {
    forall i | 0 <= i < |rest| ensures ArchivedFile(rest[i], staged, sep) {
      assert rest[i].content.path in staged[1..];
    }
  }

  /**
   * The entries of the output archive, in write order, for a staging directory
   * whose files `os.walk` lists as `staged`.
   */
  function Plan(staged: seq<Path>, sep: char): (r: seq<Entry>)
    requires WellFormedWalk(staged, sep)
    ensures |r| > 0 && r[0] == Entry(MarkerName, Stored, MarkerText(MediaType))
    ensures |r| == 1 + |KeptFiles(staged)|
    ensures forall i :: 1 <= i < |r| ==> r[i].content == StagedFile(KeptFiles(staged)[i - 1])
    ensures forall i :: 1 <= i < |r| ==> ArchivedFile(r[i], staged, sep)
    ensures forall p :: p in staged && !SkippedByArchive(Basename(p)) ==>
      exists i :: 1 <= i < |r| && r[i].content == StagedFile(p)
  {
    var rest := ArchiveLoop(staged, sep);
    var r := [Entry(MarkerName, Stored, MarkerText(MediaType))] + rest;
    assert forall i :: 1 <= i < |r| ==> r[i] == rest[i - 1];
    assert forall p :: p in staged && !SkippedByArchive(Basename(p)) ==>
      exists i :: 1 <= i < |r| && r[i].content == StagedFile(p) by {
      forall p | p in staged && !SkippedByArchive(Basename(p))
        ensures exists i :: 1 <= i < |r| && r[i].content == StagedFile(p)
      {
        var i :| 0 <= i < |rest| && rest[i].content == StagedFile(p);
        assert r[i + 1] == rest[i];
      }
    }
    r
  }

  /** With a host separator other than `/`, no entry name of the plan contains it. */
  lemma PlanNamesArePortable(staged: seq<Path>, sep: char)
    requires WellFormedWalk(staged, sep) && HostSeparator(sep) && sep != '/'
    ensures forall e :: e in Plan(staged, sep) ==> sep !in e.name
  {
    var r := Plan(staged, sep);
    assert sep !in r[0].name;
  }

  /** A kept file is never archived as `mimetype`, and its name holds no host separator other than `/`. */
  lemma PortableNameShape(q: Path, sep: char)
    requires WellFormedPath(q, sep) && !SkippedByArchive(Basename(q))
    ensures Join(q, "/") != MarkerName
    ensures HostSeparator(sep) && sep != '/' ==> sep !in Join(q, "/")
  {
    if |q| > 1 {
      assert Join(q, "/") == q[0] + "/" + Join(q[1..], "/");
      assert Join(q, "/")[|q[0]|] == '/';
    }
    if HostSeparator(sep) && sep != '/' {
      JoinExcludes(q, "/", sep);
    }
  }

  /** Two file entries with the same name come from the same staged file. */
  lemma EntryNamesIdentifyFiles(staged: seq<Path>, sep: char)
    requires WellFormedWalk(staged, sep)
    ensures var r := ArchiveLoop(staged, sep);
      forall i, j :: 0 <= i < |r| && 0 <= j < |r| && r[i].name == r[j].name ==> r[i].content == r[j].content
  {
    var r := ArchiveLoop(staged, sep);
    forall i, j | 0 <= i < |r| && 0 <= j < |r| && r[i].name == r[j].name
      ensures r[i].content == r[j].content
    {
      var p, q := r[i].content.path, r[j].content.path;
      assert ArchivedFile(r[i], staged, sep) && ArchivedFile(r[j], staged, sep);
      assert WellFormedPath(p, sep) && WellFormedPath(q, sep);
      PortablePathJoinsWithSlash(p, sep);
      PortablePathJoinsWithSlash(q, sep);
    }
  }

  /**
   * The staging copy of an extracted tree `source`: every file except platform
   * metadata, at the same relative path, plus the marker file written at the top.
   */
  predicate StagedCopy(source: seq<Path>, p: Path)
  {
    || (p in source && |p| > 0 && !PlatformJunk(Basename(p)))
    || p == [MarkerName]
  }

  /**
   * Whatever order the walk of the staging copy takes, the archive's file
   * entries are exactly the files of the extracted tree that are neither
   * platform metadata nor called `mimetype`.
   */
  lemma ArchiveCoversSource(source: seq<Path>, staged: seq<Path>, sep: char)
    requires WellFormedWalk(staged, sep)
    requires forall p :: p in staged <==> StagedCopy(source, p)
    ensures forall p :: (exists i :: 1 <= i < |Plan(staged, sep)| && Plan(staged, sep)[i].content == StagedFile(p)) <==>
      p in source && |p| > 0 && !SkippedByArchive(Basename(p))
  {
    var r := Plan(staged, sep);
    forall p ensures (exists i :: 1 <= i < |r| && r[i].content == StagedFile(p)) <==>
      p in source && |p| > 0 && !SkippedByArchive(Basename(p))
    {
      if exists i :: 1 <= i < |r| && r[i].content == StagedFile(p) {
        var i :| 1 <= i < |r| && r[i].content == StagedFile(p);
        assert ArchivedFile(r[i], staged, sep);
        assert p != [MarkerName];
      }
      if p in source && |p| > 0 && !SkippedByArchive(Basename(p)) {
        assert StagedCopy(source, p);
      }
    }
  }
}
