/**
 * Relative paths of the extracted working tree. A path is the list of its
 * components; the host form joins them with the platform separator (what
 * `os.path.relpath` returns) and the portable form joins them with `/`.
 */
module Paths {
  import opened Strings

  /** A relative path as its list of components, outermost directory first. */
  type Path = seq<string>

  /** Non-empty components with neither `/` nor the host separator inside, as a directory walk yields them. */
  predicate WellFormedPath(p: Path, sep: char)
  {
    |p| > 0 && forall k :: 0 <= k < |p| ==> |p[k]| > 0 && '/' !in p[k] && sep !in p[k]
  }

  /** The file name: `os.walk` reports it separately from the directory. */
  function Basename(p: Path): (r: string)
    requires |p| > 0
  {
    p[|p| - 1]
  }

  /** `os.path.relpath(...)`: the components joined by the host separator. */
  function HostPath(p: Path, sep: char): (r: string)
  {
    Join(p, [sep])
  }

  /** `rel_path.replace(os.sep, '/')`. */
  function PortablePath(p: Path, sep: char): (r: string)
  {
    ReplaceAll(HostPath(p, sep), [sep], "/")
  }

  /** On a well-formed path the separator rewrite yields the `/`-joined components, on every host. */
  lemma PortablePathJoinsWithSlash(p: Path, sep: char)
    requires WellFormedPath(p, sep)
    ensures PortablePath(p, sep) == Join(p, "/")
    ensures Split(PortablePath(p, sep), '/') == p
  {
    ReplaceSeparatorJoins(p, sep, "/");
    JoinSplitRoundTrip(p, '/');
  }
}
