# A Dafny model of the f_to_j EPUB converter

`f_to_j.py` converts an EPUB book from traditional to simplified Chinese. It
extracts the archive and checks its descriptor files. It then rewrites the text
of every HTML and XML asset and packages the working tree again, under the
name the source path gets by replacing `.epub` with `_simplified.epub` (which,
for a path without a lower-case `.epub`, is the source path itself; see
Findings). This project models the parts of that pipeline that decide something:

- **Patterns**: the three regular expressions used to find single markup items
  (`<\?xml[^>]+\?>`, `<!DOCTYPE[^>]+>`, `full-path="([^"]+)"`). Each is a
  leftmost search for a `prefix[^stop]+closer` match.
- **XmlRewrite**: `convert_xml_content` and its `replace_text` callback. This is
  the substitution of `>([^<>]+)<`, where runs of spaces, digits and `.,:;!?`
  are skipped, together with the restore of the XML declaration.
- **HtmlRewrite**: the text-node loop of `convert_html_content`, which leaves
  `script` and `style` alone. Also the restore of the declaration and the
  DOCTYPE on the serialised output.
- **Structure**: `validate_epub_structure` over an abstract working tree, and
  the container file built by `create_container_xml`.
- **Packaging**: the `zipfile` branch of `package_epub_safely`. It covers the
  entries written, their order, names and compression methods, and the
  staging copy's filter. The first entry is the uncompressed `mimetype` file
  that the EPUB Open Container Format requires.
- **ConvertEpub**: which files the walk converts and with which rewriter, and
  the backup and output names.
- **Strings**, **Paths**, **Wrappers**: Python's `str.replace`, `'/'.join`,
  `split` and `endswith`, relative paths as lists of components, and `Option`.
  `Strings.FindFrom`, a leftmost substring search, places the corrected
  DOCTYPE insertion `HtmlRewrite.InsertDoctype` and serves the proofs about the
  replace-all (`HtmlRewrite.ReplaceInsertsDoctype`); the converter itself calls no `find`.

The script converter (OpenCC), the HTML parser and its serialiser are
parameters: `convert: string -> string`, the list of parsed string nodes, and
a function from nodes to text. The host path separator is a parameter too, and
so is the order in which a directory walk lists files.

## Model

| member | source | states |
|---|---|---|
| Patterns.Search | f_to_j.py:234 | the result is the leftmost match at or after the start position, and no match exists when it returns nothing |
| Patterns.MatchEnd | f_to_j.py:310 | a match of `prefix[^stop]+closer` starting at a given index is unique and ends at the first `stop` after the prefix |
| Patterns.FindXmlDeclaration | f_to_j.py:309-312 | the declaration found starts with `<?xml`, ends with `?>` and occurs in the text; nothing is found exactly when no match exists anywhere |
| Patterns.FindDoctype | f_to_j.py:238-241 | the DOCTYPE found starts with `<!DOCTYPE`, ends with `>` and occurs in the text; nothing is found exactly when no match exists |
| Patterns.FindFullPath | f_to_j.py:196-198 | the captured group is non-empty, has no double quote, and occurs quoted after `full-path=`; it is absent exactly when there is no match |
| Patterns.DeclarationAtLeftmost | f_to_j.py:309-312 | the declaration returned is the text of the leftmost `<?xml…?>` match |
| Patterns.DoctypeAtLeftmost | f_to_j.py:238-241 | the DOCTYPE returned is the text of the leftmost `<!DOCTYPE…>` match |
| Patterns.FullPathAtLeftmost | f_to_j.py:196-198 | the group returned is the one of the leftmost `full-path="…"` match |
| XmlRewrite.RunClose | f_to_j.py:330 | a match of `>([^<>]+)<` at the head of the text is found exactly when one exists, and it closes at the first delimiter |
| XmlRewrite.ReplaceText | f_to_j.py:319-327 | the replacement of a matched run is always framed by `>` and `<` |
| XmlRewrite.NewRun | f_to_j.py:319-327 | the replacement is `>` + new run + `<`; the new run is the old one when it is skippable, and the converter's output otherwise |
| XmlRewrite.RewriteXml | f_to_j.py:304-351 | the asset is reported changed exactly when the substitution altered the text; unchanged assets keep their content; the written text is the substituted text, with the declaration found in the input and a line break put in front exactly when a declaration was found and the substituted text does not start with `<?xml` |
| XmlRewrite.GtStartsMatchIffOpensRun | f_to_j.py:330 | a match starts at a `>` exactly when the text after it begins a delimiter-free run that a `<` closes |
| XmlRewrite.RewriteKeepsFirstDelimiter | f_to_j.py:331 | substitution keeps the first delimiter of a text and whether the text begins with one |
| XmlRewrite.SkeletonPreserved | f_to_j.py:326 | when the converter emits no `<` or `>` for text that has none, the tags of the rewritten text are those of the input |
| XmlRewrite.RunsOfRewrite | f_to_j.py:319-331 | when the converter turns non-empty delimiter-free text into non-empty delimiter-free text, the runs of the output are the input's runs, each replaced by its new run, in order |
| XmlRewrite.FixedRunsLeaveTextUnchanged | f_to_j.py:324-327 | when the converter returns every non-skippable run unchanged, the substitution returns the input |
| XmlRewrite.SkippableRunsVerbatim | f_to_j.py:322-323 | a text whose runs are all skippable is returned as is, whatever the converter does |
| XmlRewrite.OnlyConvertibleRunsMatter | f_to_j.py:321-327 | two converters that agree on the non-skippable runs give the same output |
| XmlRewrite.IdentityConverterWritesNothing | f_to_j.py:333-351 | with a converter that changes nothing, the asset is unchanged and is not written |
| XmlRewrite.ChangedIffSomeRunConverted | f_to_j.py:333 | for a converter that turns non-empty delimiter-free text into non-empty delimiter-free text, the asset is changed exactly when some non-skippable run is converted to different text |
| XmlRewrite.RewriteHeadNone | f_to_j.py:330-331 | where no match starts at the head, the substitution copies the first character and no match starts at the head of its output either |
| XmlRewrite.PrefixBeforeGtKept | f_to_j.py:331 | text before the first `>` is copied unchanged |
| XmlRewrite.LeadingDeclarationNotRepeated | f_to_j.py:345-346 | when the input starts with a declaration, none is prepended and the substituted text is written as is |
| HtmlRewrite.ConvertNodes | f_to_j.py:261-274 | node count and parents are kept; `script` and `style` nodes are untouched; every other node gets converted text; the flag is set exactly when some such text differed |
| HtmlRewrite.RestoreDeclarationsAsWritten | f_to_j.py:289-296 | an output that needs neither the declaration nor the DOCTYPE of the input is returned unchanged; an output lacking a leading `<?xml` gets the input's declaration and a line break in front; a text starting `<?xml` heads the result whenever the input has a declaration, and it is the input's declaration when the output lacked one; when the input has a DOCTYPE, the result contains `<!DOCTYPE` if no declaration was found or the declaration was put back in front; without a declaration, a missing DOCTYPE is put first, followed by a line break; when a DOCTYPE is still missing after a declaration, the result is the replace-all applied to the output with its declaration |
| HtmlRewrite.RewriteHtml | f_to_j.py:228-302 | the document is changed exactly when some unprotected node's text changed; an unchanged document keeps its content; a changed one is the restore as written applied to the serialised converted nodes, so when the input has a declaration a text starting `<?xml` heads it (the input's declaration when the serialised text lacked one), and, when the input has a DOCTYPE, it contains `<!DOCTYPE` whenever the restore is sure to put one in |
| HtmlRewrite.InsertDoctypeAsWritten | f_to_j.py:294 | the replace-all leaves an output without a `?>` line break unchanged, keeps a leading `<?xml`, and puts the DOCTYPE in when there is a `?>` line break |
| HtmlRewrite.RestoreLosesDoctype | f_to_j.py:292-294 | for an output that kept the declaration, has no line break and lost the DOCTYPE, the result of the restore as written contains no `<!DOCTYPE`, while the result of the corrected restore contains one |
| HtmlRewrite.RestoreDeclarations | f_to_j.py:289-296 | the restore as intended: the same unchanged-output and declaration cases as the restore as written, but a DOCTYPE still missing is put in by the corrected single insertion, so whenever the input has a DOCTYPE the result contains `<!DOCTYPE` |
| HtmlRewrite.DoctypeInsertedTwice | f_to_j.py:294 | as written, an output with two `?>` line breaks gets the DOCTYPE after each of them |
| HtmlRewrite.DoctypeNotInserted | f_to_j.py:294 | as written, an output with no line break gets no DOCTYPE at all |
| HtmlRewrite.InsertDoctype | f_to_j.py:292-294 | the DOCTYPE is inserted once, after a line break, at a single position; that position is right after the first `?>` of the output, or the end of the output when it has no `?>`; a leading declaration stays at the head; the result contains `<!DOCTYPE` when the DOCTYPE starts with it |
| HtmlRewrite.InsertDoctypeAgreesOnSingleDeclaration | f_to_j.py:294 | with a single `?>` line break that ends the declaration, the corrected insertion and the replace-all give the same text |
| Structure.OpfFiles | f_to_j.py:176-182 | the list of package documents is non-empty exactly when the walk holds an `.opf` file, and it begins with the portable path of the first one |
| Structure.Validate | f_to_j.py:155-211 | a missing `mimetype` makes the tree valid; without a container file the tree is valid exactly when an `.opf` file exists, and the container written names the first one; with a container file the tree is valid exactly when a `full-path` is found and names an existing path; a container path that is a directory fails; only valid trees get a container file |
| Structure.LocatorRoundTrip | f_to_j.py:213-222 | the `full-path` found in the built container file is exactly the path it was built from |
| Structure.SynthesisedLocatorValidates | f_to_j.py:173-187 | a tree with `mimetype`, no container file and a first package document `files[k]` whose path is well formed and quote-free gets a container file, and once that file is written, validating the tree again succeeds |
| Structure.PortableReferenceExists | f_to_j.py:199-200 | a reference written as the `/`-joined components of a walked file names an existing path |
| Structure.ReferenceToFileValidates | f_to_j.py:196-202 | a container file whose `full-path` names an existing file validates |
| Paths.PortablePathJoinsWithSlash | f_to_j.py:181 | replacing the host separator with `/` gives the components joined by `/`, and splitting that at `/` gives the components back |
| Strings.SplitJoinRoundTrip | f_to_j.py:199 | joining the pieces of a split with the separator gives the text back |
| Strings.JoinSplitRoundTrip | f_to_j.py:199 | splitting a join of separator-free components gives the components back |
| Strings.ReplaceAtFirstOccurrence | f_to_j.py:133 | `str.replace` copies everything before the leftmost occurrence, emits the replacement, and goes on after the occurrence |
| Strings.ReplaceAbsent | f_to_j.py:29 | `str.replace` returns a text without the pattern unchanged |
| Strings.ReplaceAllKeepsPrefix | f_to_j.py:294 | `str.replace` keeps a head of the text in which no occurrence of the pattern starts |
| Strings.ReplaceSeparatorJoins | f_to_j.py:422 | replacing the separator in a separator-joined list of separator-free components joins them with the new glue |
| Packaging.FileEntry | f_to_j.py:418-428 | a file's entry is named by its `/`-joined path, holds that file, and is stored exactly when it is `META-INF/container.xml` |
| Packaging.KeptFiles | f_to_j.py:413-416 | the files kept by the loop are exactly the walked files not named `.DS_Store`, `Thumbs.db` or `mimetype` |
| Packaging.KeptPositions | f_to_j.py:413-416 | the positions of the kept files increase through the walk and each holds a file the loop writes |
| Packaging.KeptPositionsComplete | f_to_j.py:413-416 | every position of the walk holding a file the loop writes is among the kept positions |
| Packaging.KeptFilesInWalkOrder | f_to_j.py:413-416 | the kept files are the walk filtered in order: the `k`-th kept file is the walked file at the `k`-th kept position |
| Packaging.ArchiveLoop | f_to_j.py:413-428 | one entry per kept file, in walk order, each holding that file under a portable name, never named `mimetype`, and stored exactly when it is the container file |
| Packaging.Plan | f_to_j.py:406-428 | the first entry is a stored `mimetype` holding `application/epub+zip`; it is followed by exactly one entry per kept file, in walk order, each holding that file's content and being an archived file of the walk; every kept file has an entry |
| Packaging.PlanNamesArePortable | f_to_j.py:422 | on a host whose separator is not `/`, no entry name contains it |
| Packaging.EntryNamesIdentifyFiles | f_to_j.py:419-422 | two file entries with the same name hold the same file |
| Packaging.ArchiveCoversSource | f_to_j.py:371-389 | whatever the walk order, the archived files are exactly the extracted files that are neither platform metadata nor called `mimetype` |
| ConvertEpub.KindOf | f_to_j.py:80-111 | a file gets a rewriter exactly when the walk reads it; it gets the HTML rewriter exactly when its name ends with an HTML suffix, and the XML rewriter exactly when it ends with an XML suffix, which excludes the HTML suffixes |
| ConvertEpub.SuffixTuplesDisjoint | f_to_j.py:106-111 | no file name ends with both an HTML suffix and an XML suffix |
| ConvertEpub.ConvertFile | f_to_j.py:80-113 | a file is processed exactly when its name has one of the six suffixes; for HTML the changed flag means some node was converted; for the rest it means the run substitution altered the text; an unchanged file keeps its content |
| ConvertEpub.NamesOfPlainPath | f_to_j.py:133 | for `stem.epub`, with no other `.epub` in the stem, the names are `stem_backup.epub` and `stem_simplified.epub` |
| ConvertEpub.NamesWithoutExtension | f_to_j.py:29 | as written, a path without a lower-case `.epub` is its own backup name and its own output name |
| ConvertEpub.UpperCaseExtensionOverwritesSource | f_to_j.py:133 | as written, `book.EPUB` is its own output name |
| ConvertEpub.RenamedArchive | f_to_j.py:133 | the corrected name ends with the new suffix, differs from the source path, and keeps the source path up to its trailing `.epub` |
| ConvertEpub.CorrectedNamesAreDistinct | f_to_j.py:29-33 | the corrected names differ from the source and from each other, and agree with the names as written on `stem.epub` |

## Left out

- The script conversion (OpenCC and its configuration fallbacks) is a parameter `convert`. Properties that need it to be well behaved say so in their requires.
- The HTML parser and serialiser are not modelled. The model takes the parsed string nodes and a serialiser function. Which parser succeeds, and how it reshapes the markup, is outside the model.
- Encoding detection (chardet), decoding with `errors='ignore'`, and writing files back are not modelled. Texts are strings of characters.
- The exception handlers that restore a file's original bytes, and the timestamp restore (`os.utime`), are filesystem effects and are not modelled.
- Extraction, the temporary directories, `shutil.copy2`, and the archive written straight to the output path are filesystem work. The working tree is a list of relative paths in walk order, with the walk order as a parameter.
- The branch of `package_epub_safely` that runs the external `zip` tool is not modelled. It depends on a program outside the repository.
- ZIP bytes and DEFLATE are not modelled. An entry records its name, its compression method and where its bytes come from.
- `ensure_mimetype_file` and the packager's own `mimetype` write appear only as the marker file added by `Packaging.StagedCopy` and as the first entry of `Packaging.Plan`.
- Logging, console messages, the counters and the command-line entry point are not modelled.
- `os.makedirs` of a missing `META-INF` directory is not modelled: the reference check only runs when `META-INF/container.xml` is a file, so `META-INF` is then a directory anyway.
- Structure.Validate: the reference check follows POSIX path rules. `..` and `.` components in a `full-path` are not resolved. A `\` inside a component is not treated as a separator, as it would be on Windows, and names are compared case-sensitively, as they would not be on Windows. A reference exists when its non-empty components name a file or a directory prefix of one.
- Structure.Validate: when `META-INF` is a file, the container file is missing and some `.opf` file exists, `create_container_xml` raises at `os.makedirs` and the whole conversion stops with that exception. The model instead reports the tree valid with the synthesised container file, because it has no outcome for an uncaught exception.
- `\d` covers ASCII and fullwidth digits only. Other Unicode decimal digits are not in `XmlRewrite.IsDigit`.
- Strings.ReplaceAll requires a non-empty pattern. Every call in the converter passes one.
- HtmlRewrite.RewriteHtml: when the input has a DOCTYPE, the written document is sure to contain `<!DOCTYPE` only when no declaration was found or the declaration was put back in front. When the serialiser kept the declaration, the replace-all may find no `?>` line break and leave the DOCTYPE out (`HtmlRewrite.RestoreLosesDoctype`), so no DOCTYPE clause is stated for that case. The corrected restore `HtmlRewrite.RestoreDeclarations` uses `HtmlRewrite.InsertDoctype` and always puts one in (see Findings). None of the restores promises that the `<!DOCTYPE` in the result is the input's own: like the source (f_to_j.py:291), they test only whether the text `<!DOCTYPE` occurs in the output.
- ConvertEpub.OutputName and ConvertEpub.BackupName model the names as written and carry no contract of their own. Their behaviour is stated by `ConvertEpub.NamesOfPlainPath` and `ConvertEpub.NamesWithoutExtension`. The corrected names are `ConvertEpub.SimplifiedName` and `ConvertEpub.BackupCopyName`, both built by `ConvertEpub.RenamedArchive` (see Findings).

## Findings

| source | as written | input that shows it | evidently intended | confidence | as-written member | corrected member |
|---|---|---|---|---|---|---|
| f_to_j.py:29 | backup and output names replace every `.epub` in the path | `book.EPUB` (no lower-case `.epub`): both names equal the source path, so no backup is made and the output overwrites the source | replace the trailing extension, or append a suffix, so the names always differ from the source | not executed | ConvertEpub.NamesWithoutExtension | ConvertEpub.CorrectedNamesAreDistinct |
| f_to_j.py:294 | the DOCTYPE is inserted by replacing every `?>` followed by a line break | `<?xml version="1.0"?>\n<?xml-stylesheet href="s.css"?>\n<html>…` gets the DOCTYPE twice; `<?xml version="1.0"?><html>…` gets none | insert the DOCTYPE once, right after the first `?>`, which ends the declaration | not executed | HtmlRewrite.DoctypeInsertedTwice | HtmlRewrite.InsertDoctype |
