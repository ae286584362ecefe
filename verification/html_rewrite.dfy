/**
 * `convert_html_content`: converts the text nodes of a parsed document, except
 * those inside `script` or `style`, and restores the XML declaration and the
 * DOCTYPE that serialisation may have dropped. The parser and the serialiser are
 * parameters: the model receives the document's string nodes and a function from
 * the converted nodes to the serialised text.
 */
module HtmlRewrite {
  import opened Wrappers
  import opened Strings
  import opened Patterns
  import opened XmlRewrite

  /** A string node of the parsed tree and the name of its parent element, if it has one. */
  datatype TextNode = TextNode(parent: Option<string>, text: string)

  /** A node whose parent is `script` or `style` is never converted. */
  predicate Protected(n: TextNode)
  {
    n.parent.Some? && (n.parent.value == "script" || n.parent.value == "style")
  }

  /** Some node outside `script` and `style` has text the converter changes. */
  predicate SomeNodeConverted(nodes: seq<TextNode>, convert: string -> string)
  {
    exists i :: 0 <= i < |nodes| && !Protected(nodes[i]) && convert(nodes[i].text) != nodes[i].text
  }

  /** The text-node loop: every unprotected node gets the converted text, and the flag says whether any text differed. */
  function ConvertNodes(nodes: seq<TextNode>, convert: string -> string): (r: (seq<TextNode>, bool))
    ensures |r.0| == |nodes|
    ensures forall i :: 0 <= i < |nodes| ==> r.0[i].parent == nodes[i].parent
    ensures forall i :: 0 <= i < |nodes| && Protected(nodes[i]) ==> r.0[i] == nodes[i]
    ensures forall i :: 0 <= i < |nodes| && !Protected(nodes[i]) ==> r.0[i].text == convert(nodes[i].text)
    ensures r.1 <==> SomeNodeConverted(nodes, convert)
  {
    if |nodes| == 0 then ([], false)
    else
      var n := nodes[0];
      var tail := ConvertNodes(nodes[1..], convert);
      SomeNodeConvertedCons(nodes, convert);
      var head := if Protected(n) then n else TextNode(n.parent, convert(n.text));
      var changed := (!Protected(n) && convert(n.text) != n.text) || tail.1;
      var converted := [head] + tail.0;
      assert forall i :: 0 < i < |nodes| ==> converted[i] == tail.0[i - 1] && nodes[i] == nodes[1..][i - 1];
      (converted, changed)
  }

  lemma SomeNodeConvertedCons(nodes: seq<TextNode>, convert: string -> string)
    requires |nodes| > 0
    ensures SomeNodeConverted(nodes, convert) <==>
      (!Protected(nodes[0]) && convert(nodes[0].text) != nodes[0].text) || SomeNodeConverted(nodes[1..], convert)
  {
    if SomeNodeConverted(nodes[1..], convert) {
      var i :| 0 <= i < |nodes[1..]| && !Protected(nodes[1..][i]) && convert(nodes[1..][i].text) != nodes[1..][i].text;
      assert nodes[i + 1] == nodes[1..][i];
    }
    if SomeNodeConverted(nodes, convert) {
      var i :| 0 <= i < |nodes| && !Protected(nodes[i]) && convert(nodes[i].text) != nodes[i].text;
      if i > 0 {
        assert nodes[1..][i - 1] == nodes[i];
      }
    }
  }

  /** Step one of the restore: put the found declaration back in front when the output lost it. */
  function WithDeclaration(output: string, declaration: Option<string>): (r: string)
  {
    if declaration.Some? && !StartsWith(output, "<?xml") then declaration.value + "\n" + output else output
  }

  /** Step one keeps a leading `<?xml` when there is a declaration, and keeps every DOCTYPE the output had. */
  lemma WithDeclarationKeeps(output: string, declaration: Option<string>)
    requires declaration.Some? ==> StartsWith(declaration.value, "<?xml")
    ensures declaration.Some? ==> StartsWith(WithDeclaration(output, declaration), "<?xml")
    ensures Contains(output, "<!DOCTYPE") ==> Contains(WithDeclaration(output, declaration), "<!DOCTYPE")
  {
    var out := WithDeclaration(output, declaration);
    if declaration.Some? && !StartsWith(output, "<?xml") {
      assert out[..5] == declaration.value[..5];
      if Contains(output, "<!DOCTYPE") {
        ContainsInTail(declaration.value + "\n", output, "<!DOCTYPE");
      }
    }
  }

  /** A declaration put back in front of the output ends in a `?>` line break. */
  lemma PrependedDeclarationEndsLine(output: string, declaration: string)
    requires StartsWith(declaration, "<?xml") && EndsWith(declaration, "?>")
    ensures Contains(declaration + "\n" + output, "?>\n")
  {
    var out := declaration + "\n" + output;
    var k := |declaration| - 2;
    assert out[k..k + 3] == "?>\n" by {
      assert out[k..k + 2] == declaration[k..] == "?>";
      assert out[k + 2] == '\n';
      assert out[k..k + 3] == out[k..k + 2] + [out[k + 2]];
    }
    assert OccursAt(out, "?>\n", k);
  }

  /**
   * The declaration and DOCTYPE restore as the converter performs it on the
   * serialised `output` of a document whose original text is `content`. The
   * DOCTYPE is sure to be present only when no declaration was found or when the
   * declaration was put back in front: a serialiser that kept the declaration
   * may leave no `?>` line break for the replace-all to act on
   * (see `DoctypeNotInserted`).
   */
  function RestoreDeclarationsAsWritten(content: string, output: string): (r: string)
    ensures FindXmlDeclaration(content).None? && FindDoctype(content).None? ==> r == output
    ensures FindXmlDeclaration(content).Some? ==> StartsWith(r, "<?xml")
    ensures FindDoctype(content).Some? && (FindXmlDeclaration(content).None? || !StartsWith(output, "<?xml")) ==>
      Contains(r, "<!DOCTYPE")
    ensures FindXmlDeclaration(content).None? && FindDoctype(content).Some? && !Contains(output, "<!DOCTYPE") ==>
      r == FindDoctype(content).value + "\n" + output
    ensures Contains(output, "<!DOCTYPE") && (FindXmlDeclaration(content).None? || StartsWith(output, "<?xml")) ==>
      r == output
    ensures && FindXmlDeclaration(content).Some? && StartsWith(output, "<?xml")
            && FindDoctype(content).Some? && !Contains(output, "<!DOCTYPE")
            ==> r == InsertDoctypeAsWritten(output, FindDoctype(content).value)
    ensures && (FindXmlDeclaration(content).None? || StartsWith(output, "<?xml"))
            && (FindDoctype(content).None? || Contains(output, "<!DOCTYPE"))
            ==> r == output
    ensures && FindXmlDeclaration(content).Some? && !StartsWith(output, "<?xml")
            && (FindDoctype(content).None? || Contains(output, "<!DOCTYPE"))
            ==> r == FindXmlDeclaration(content).value + "\n" + output
    ensures && FindXmlDeclaration(content).Some? && !StartsWith(output, "<?xml")
            && Contains(FindXmlDeclaration(content).value + "\n" + output, "<!DOCTYPE")
            ==> r == FindXmlDeclaration(content).value + "\n" + output
    ensures && FindXmlDeclaration(content).Some? && !StartsWith(output, "<?xml") && FindDoctype(content).Some?
            && !Contains(FindXmlDeclaration(content).value + "\n" + output, "<!DOCTYPE")
            ==> r == InsertDoctypeAsWritten(FindXmlDeclaration(content).value + "\n" + output, FindDoctype(content).value)
  {
    var declaration := FindXmlDeclaration(content);
    var doctype := FindDoctype(content);
    var out := WithDeclaration(output, declaration);
    WithDeclarationKeeps(output, declaration);
    if doctype.Some? && !Contains(out, "<!DOCTYPE") then
      if declaration.Some? && StartsWith(out, "<?xml") then
        assert !StartsWith(output, "<?xml") ==> Contains(out, "?>\n") by {
          if !StartsWith(output, "<?xml") {
            PrependedDeclarationEndsLine(output, declaration.value);
          }
        }
        InsertDoctypeAsWritten(out, doctype.value)
      else
        var r := doctype.value + "\n" + out;
        assert OccursAt(r, "<!DOCTYPE", 0) by {
          assert r[..9] == doctype.value[..9];
        }
        r
    else out
  }

  /** `output.replace('?>\n', '?>\n' + doctype + '\n')`, the insertion as the converter writes it. */
  function InsertDoctypeAsWritten(out: string, doctype: string): (r: string)
    ensures !Contains(out, "?>\n") ==> r == out
    ensures StartsWith(out, "<?xml") ==> StartsWith(r, "<?xml")
    ensures Contains(out, "?>\n") && StartsWith(doctype, "<!DOCTYPE") ==> Contains(r, "<!DOCTYPE")
  {
    var rep := DeclarationEndWith(doctype);
    ReplaceKeepsDeclarationHead(out, rep);
    if !Contains(out, "?>\n") then
      ReplaceAbsent(out, "?>\n", rep);
      ReplaceAll(out, "?>\n", rep)
    else if StartsWith(doctype, "<!DOCTYPE") then
      ReplaceInsertsDoctype(out, doctype);
      ReplaceAll(out, "?>\n", rep)
    else ReplaceAll(out, "?>\n", rep)
  }

  /** A replace-all of `?>` line breaks never touches the `<?xml` that opens the text. */
  lemma ReplaceKeepsDeclarationHead(out: string, rep: string)
    ensures StartsWith(out, "<?xml") ==> StartsWith(ReplaceAll(out, "?>\n", rep), "<?xml")
  {
    if StartsWith(out, "<?xml") {
      forall i | 0 <= i < 5 ensures !OccursAt(out, "?>\n", i) {
        assert out[..5] == "<?xml";
        if i + 3 <= |out| {
          assert out[i..i + 3][0] == out[i] && out[i..i + 3][1] == out[i + 1];
        }
      }
      ReplaceAllKeepsPrefix(out, "<?xml", "?>\n", rep);
    }
  }

  /** The replace-all puts the DOCTYPE right after the first `?>` line break, when there is one. */
  lemma ReplaceInsertsDoctype(out: string, doctype: string)
    requires Contains(out, "?>\n") && StartsWith(doctype, "<!DOCTYPE")
    ensures Contains(ReplaceAll(out, "?>\n", DeclarationEndWith(doctype)), "<!DOCTYPE")
  {
    var rep := DeclarationEndWith(doctype);
    var k := FindFrom(out, "?>\n", 0).value;
    ReplaceAtFirstOccurrence(out, k, "?>\n", rep);
    var r := ReplaceAll(out, "?>\n", rep);
    assert r[k + 3..k + 12] == doctype[..9] by {
      assert r == out[..k] + (rep + ReplaceAll(out[k + 3..], "?>\n", rep));
      assert rep[3..12] == doctype[..9];
    }
    assert OccursAt(r, "<!DOCTYPE", k + 3);
  }

  /**
   * The restore as it was meant to work: a DOCTYPE that has to follow a
   * declaration is put in by `InsertDoctype`, the corrected form of the
   * replace-all the converter performs (see `DoctypeInsertedTwice` and
   * `DoctypeNotInserted`), so the result contains `<!DOCTYPE` whenever the
   * input has a DOCTYPE.
   */
  function RestoreDeclarations(content: string, output: string): (r: string)
    ensures FindXmlDeclaration(content).None? && FindDoctype(content).None? ==> r == output
    ensures FindXmlDeclaration(content).Some? ==> StartsWith(r, "<?xml")
    ensures FindDoctype(content).Some? ==> Contains(r, "<!DOCTYPE")
    ensures FindXmlDeclaration(content).None? && FindDoctype(content).Some? && !Contains(output, "<!DOCTYPE") ==>
      r == FindDoctype(content).value + "\n" + output
    ensures Contains(output, "<!DOCTYPE") && (FindXmlDeclaration(content).None? || StartsWith(output, "<?xml")) ==>
      r == output
    ensures && (FindXmlDeclaration(content).None? || StartsWith(output, "<?xml"))
            && (FindDoctype(content).None? || Contains(output, "<!DOCTYPE"))
            ==> r == output
    ensures && FindXmlDeclaration(content).Some? && !StartsWith(output, "<?xml")
            && (FindDoctype(content).None? || Contains(output, "<!DOCTYPE"))
            ==> r == FindXmlDeclaration(content).value + "\n" + output
    ensures && FindXmlDeclaration(content).Some? && !StartsWith(output, "<?xml")
            && Contains(FindXmlDeclaration(content).value + "\n" + output, "<!DOCTYPE")
            ==> r == FindXmlDeclaration(content).value + "\n" + output
    ensures && FindXmlDeclaration(content).Some? && !StartsWith(output, "<?xml") && FindDoctype(content).Some?
            && !Contains(FindXmlDeclaration(content).value + "\n" + output, "<!DOCTYPE")
            ==> r == InsertDoctype(FindXmlDeclaration(content).value + "\n" + output, FindDoctype(content).value)
    ensures && FindXmlDeclaration(content).Some? && StartsWith(output, "<?xml")
            && FindDoctype(content).Some? && !Contains(output, "<!DOCTYPE")
            ==> r == InsertDoctype(output, FindDoctype(content).value)
  {
    var declaration := FindXmlDeclaration(content);
    var doctype := FindDoctype(content);
    var out := WithDeclaration(output, declaration);
    WithDeclarationKeeps(output, declaration);
    if doctype.Some? && !Contains(out, "<!DOCTYPE") then
      if declaration.Some? && StartsWith(out, "<?xml") then
        InsertDoctype(out, doctype.value)
      else
        var r := doctype.value + "\n" + out;
        assert OccursAt(r, "<!DOCTYPE", 0) by {
          assert r[..9] == doctype.value[..9];
        }
        r
    else out
  }

  /** A declaration's closing `?>` and line break, followed by the DOCTYPE on a line of its own. */
  function DeclarationEndWith(doctype: string): (r: string)
  {
    "?>\n" + doctype + "\n"
  }

  /**
   * As written, the DOCTYPE goes after every `?>` that ends a line, so an output
   * with a processing instruction after the declaration (say `a` is
   * `<?xml version="1.0"` and `b` is `<?xml-stylesheet href="s.css"`) receives it twice.
   */
  lemma DoctypeInsertedTwice(a: string, b: string, c: string, doctype: string)
    requires '>' !in a && '>' !in b && '>' !in c
    ensures InsertDoctypeAsWritten(a + "?>\n" + b + "?>\n" + c, doctype)
      == a + DeclarationEndWith(doctype) + b + DeclarationEndWith(doctype) + c
  {
    var rep := DeclarationEndWith(doctype);
    var t := b + "?>\n" + c;
    assert ReplaceAll(t, "?>\n", rep) == b + (rep + c) by {
      ReplaceAfterGtFree(b, c, rep);
      ReplaceInGtFree(c, rep);
    }
    assert InsertDoctypeAsWritten(a + "?>\n" + b + "?>\n" + c, doctype) == a + (rep + ReplaceAll(t, "?>\n", rep)) by {
      assert a + "?>\n" + b + "?>\n" + c == a + "?>\n" + t;
      ReplaceAfterGtFree(a, t, rep);
    }
    assert a + (rep + (b + (rep + c))) == a + rep + b + rep + c;
  }

  /** A text without `>` holds no `?>` line break to replace. */
  lemma ReplaceInGtFree(c: string, rep: string)
    requires '>' !in c
    ensures ReplaceAll(c, "?>\n", rep) == c
  {
    forall i | 0 <= i <= |c| - 3 ensures !OccursAt(c, "?>\n", i) {
      assert c[i..i + 3][1] == c[i + 1] != '>';
    }
    ReplaceAbsent(c, "?>\n", rep);
  }

  /** The first `?>` line break of a text whose head holds no `>` is the one right after the head. */
  lemma ReplaceAfterGtFree(a: string, rest: string, rep: string)
    requires '>' !in a
    ensures ReplaceAll(a + "?>\n" + rest, "?>\n", rep) == a + (rep + ReplaceAll(rest, "?>\n", rep))
  {
    var s := a + "?>\n" + rest;
    assert s[|a|..|a| + 3] == "?>\n";
    forall i | 0 <= i < |a| ensures !OccursAt(s, "?>\n", i) {
      if i + 1 < |a| {
        assert s[i + 1] == a[i + 1];
      } else {
        assert s[i + 1] == '?';
      }
    }
    ReplaceAtFirstOccurrence(s, |a|, "?>\n", rep);
    assert s[..|a|] == a && s[|a| + 3..] == rest;
  }

  /**
   * As written, an output without a line break receives no DOCTYPE at all, for
   * instance `<?xml version="1.0"?><html>…`, although the restore was meant to add one.
   */
  lemma DoctypeNotInserted(out: string, doctype: string)
    requires '\n' !in out
    ensures InsertDoctypeAsWritten(out, doctype) == out
  {
    forall i | 0 <= i <= |out| - 3 ensures !OccursAt(out, "?>\n", i) {
      assert out[i + 2] != '\n';
    }
    ReplaceAbsent(out, "?>\n", DeclarationEndWith(doctype));
  }

  /**
   * A serialiser that keeps the declaration and writes no line break makes the
   * restore as written lose the DOCTYPE the document had, where the corrected
   * restore keeps it.
   */
  lemma RestoreLosesDoctype(content: string, output: string, i: nat, e: nat, i': nat, e': nat)
    requires MatchesAt(content, XmlDeclaration, i, e) && MatchesAt(content, Doctype, i', e')
    requires StartsWith(output, "<?xml") && '\n' !in output && !Contains(output, "<!DOCTYPE")
    ensures !Contains(RestoreDeclarationsAsWritten(content, output), "<!DOCTYPE")
    ensures Contains(RestoreDeclarations(content, output), "<!DOCTYPE")
  {
    assert FindXmlDeclaration(content).Some? && FindDoctype(content).Some?;
    DoctypeNotInserted(output, FindDoctype(content).value);
  }

  /**
   * The corrected insertion: the DOCTYPE goes once, after a line break, right after
   * the first `?>` (the end of the leading declaration), or at the end when the
   * output has no `?>` at all.
   */
  function InsertDoctype(out: string, doctype: string): (r: string)
    ensures exists j :: 0 <= j <= |out| && r == out[..j] + "\n" + doctype + out[j..]
    ensures forall k :: OccursAt(out, "?>", k) && (forall i :: 0 <= i < k ==> !OccursAt(out, "?>", i)) ==>
      r == out[..k + 2] + "\n" + doctype + out[k + 2..]
    ensures (forall k :: !OccursAt(out, "?>", k)) ==> r == out + "\n" + doctype
    ensures StartsWith(out, "<?xml") ==> StartsWith(r, "<?xml")
    ensures StartsWith(doctype, "<!DOCTYPE") ==> Contains(r, "<!DOCTYPE")
  {
    var j := DoctypeSlot(out);
    var r := out[..j] + "\n" + doctype + out[j..];
    assert (forall k :: !OccursAt(out, "?>", k)) ==> r == out + "\n" + doctype by {
      if forall k :: !OccursAt(out, "?>", k) {
        assert out[..j] == out && out[j..] == [];
      }
    }
    assert StartsWith(out, "<?xml") ==> StartsWith(r, "<?xml") by {
      if StartsWith(out, "<?xml") {
        assert r[..5] == out[..5];
      }
    }
    assert StartsWith(doctype, "<!DOCTYPE") ==> OccursAt(r, "<!DOCTYPE", j + 1) by {
      if StartsWith(doctype, "<!DOCTYPE") {
        assert r[j + 1..j + 1 + 9] == doctype[..9];
      }
    }
    r
  }

  /** Where the corrected insertion puts the DOCTYPE: just past the first `?>`, or at the end. */
  function DoctypeSlot(out: string): (j: nat)
    ensures j <= |out|
    ensures forall k :: OccursAt(out, "?>", k) && (forall i :: 0 <= i < k ==> !OccursAt(out, "?>", i)) ==> j == k + 2
    ensures (forall k :: !OccursAt(out, "?>", k)) ==> j == |out|
    ensures StartsWith(out, "<?xml") ==> j >= 5
  {
    match FindFrom(out, "?>", 0)
    case Some(k) =>
      assert StartsWith(out, "<?xml") ==> k >= 3 by {
        if StartsWith(out, "<?xml") {
          var head := out[..5];
          assert head == "<?xml";
          forall i | 0 <= i < 3 ensures !OccursAt(out, "?>", i) {
            assert out[i..i + 2][1] == out[i + 1] == head[i + 1] != '>';
          }
        }
      }
      forall k' | OccursAt(out, "?>", k') && (forall i :: 0 <= i < k' ==> !OccursAt(out, "?>", i))
        ensures k' == k
      {
        FindFromStart(out, "?>", k');
      }
      k + 2
    case None => |out|
  }

  /**
   * The corrected insertion agrees with the converter's replace-all on the
   * output the restore was written for: one `?>` line break, ending the declaration.
   */
  lemma InsertDoctypeAgreesOnSingleDeclaration(out: string, doctype: string, k: nat)
    requires OccursAt(out, "?>\n", k)
    requires forall i :: 0 <= i < k ==> !OccursAt(out, "?>", i)
    requires !Contains(out[k + 3..], "?>\n")
    ensures InsertDoctype(out, doctype) == InsertDoctypeAsWritten(out, doctype)
  {
    InsertDoctypeAtDeclarationEnd(out, doctype, k);
    AsWrittenAtSingleDeclaration(out, doctype, k);
    DeclarationEndSplice(out, doctype, k);
  }

  /** Inserting after the `?>` of a `?>` line break is replacing that line break by `DeclarationEndWith`. */
  lemma DeclarationEndSplice(out: string, doctype: string, k: nat)
    requires OccursAt(out, "?>\n", k)
    ensures out[..k + 2] + "\n" + doctype + out[k + 2..] == out[..k] + (DeclarationEndWith(doctype) + out[k + 3..])
  {
    assert out[..k + 2] == out[..k] + "?>" by {
      assert out[k..k + 2] == out[k..k + 3][..2] == "?>";
      assert out[..k + 2] == out[..k] + out[k..k + 2];
    }
    assert out[k + 2..] == "\n" + out[k + 3..] by {
      assert out[k + 2] == out[k..k + 3][2] == '\n';
    }
  }

  /** The corrected insertion after a declaration ending at `k`. */
  lemma InsertDoctypeAtDeclarationEnd(out: string, doctype: string, k: nat)
    requires OccursAt(out, "?>\n", k)
    requires forall i :: 0 <= i < k ==> !OccursAt(out, "?>", i)
    ensures InsertDoctype(out, doctype) == out[..k + 2] + "\n" + doctype + out[k + 2..]
  {
    assert OccursAt(out, "?>", k) by {
      assert out[k..k + 2] == out[k..k + 3][..2];
    }
    FindFromStart(out, "?>", k);
  }

  /** The replace-all on an output with one `?>` line break, at `k`. */
  lemma AsWrittenAtSingleDeclaration(out: string, doctype: string, k: nat)
    requires OccursAt(out, "?>\n", k)
    requires forall i :: 0 <= i < k ==> !OccursAt(out, "?>", i)
    requires !Contains(out[k + 3..], "?>\n")
    ensures InsertDoctypeAsWritten(out, doctype) == out[..k] + (DeclarationEndWith(doctype) + out[k + 3..])
  {
    var rep := DeclarationEndWith(doctype);
    forall i | 0 <= i < k ensures !OccursAt(out, "?>\n", i) {
      assert !OccursAt(out, "?>", i);
      if i + 3 <= |out| {
        assert out[i..i + 2] == out[i..i + 3][..2];
      }
    }
    ReplaceAtFirstOccurrence(out, k, "?>\n", rep);
    ReplaceAbsent(out[k + 3..], "?>\n", rep);
  }

  /**
   * `convert_html_content` without the parser and the file write: the text that
   * would be written, or the input when no text node changed.
   */
  function RewriteHtml(content: string, nodes: seq<TextNode>, convert: string -> string,
                       serialise: seq<TextNode> -> string): (r: Rewritten)
    ensures r.changed <==> SomeNodeConverted(nodes, convert)
    ensures !r.changed ==> r.content == content
    ensures r.changed && FindXmlDeclaration(content).Some? ==> StartsWith(r.content, "<?xml")
    ensures r.changed ==> r.content == RestoreDeclarationsAsWritten(content, serialise(ConvertNodes(nodes, convert).0))
    ensures && r.changed && FindDoctype(content).Some?
            && (FindXmlDeclaration(content).None? || !StartsWith(serialise(ConvertNodes(nodes, convert).0), "<?xml"))
            ==> Contains(r.content, "<!DOCTYPE")
  {
    var (converted, changed) := ConvertNodes(nodes, convert);
    if changed then Rewritten(RestoreDeclarationsAsWritten(content, serialise(converted)), true)
    else Rewritten(content, false)
  }
}
