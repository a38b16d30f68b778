/**
 * Properties of a whole `process_html` run: when it fails, what the counters
 * count, which text each key ends up with, that a second run on the output
 * changes nothing, and that the `lightning-button` branch of
 * `should_process_text` cannot fire once the button pass has run.
 */
module ExtractionProperties {
  import opened Results
  import opened Chars
  import opened Placeholders
  import opened LabelNames
  import opened LabelTables
  import opened Extraction

  /**
   * A run fails only under an unsupported style string, and does fail under
   * one as soon as some qualifying button label has a word in it, or, once
   * the button pass is through, some accepted text has a word in it.
   */
  lemma FailsOnlyForUnsupportedStyle(style: string, doc: Document)
    requires WellFormed(doc)
    ensures ParseStyle(style).Some? ==> ProcessHtml(style, doc).Success?
    ensures ProcessHtml(style, doc).Failure? ==> ProcessHtml(style, doc).error == UnsupportedStyle(style)
    ensures ParseStyle(style).None?
      && (exists i :: 0 <= i < |doc.elements| && Qualifies(doc.elements[i]) && CleanWords(LabelOf(doc.elements[i])) != [])
      ==> ProcessHtml(style, doc).Failure?
    ensures ParseStyle(style).None? && ButtonPass(style, doc.elements).Success?
      && (exists j :: 0 <= j < |doc.texts| && Accepts(ButtonPass(style, doc.elements).value.nodes, doc.texts[j])
            && CleanWords(Strip(doc.texts[j].text)) != [])
      ==> ProcessHtml(style, doc).Failure?
  {
    if ParseStyle(style).Some? {
      assert ButtonPass(style, doc.elements).Success?;
      var buttons := ButtonPass(style, doc.elements).value;
      assert TextPass(style, buttons.nodes, doc.texts).Success?;
    }
    if ParseStyle(style).None? && exists i :: 0 <= i < |doc.elements| && Qualifies(doc.elements[i]) && CleanWords(LabelOf(doc.elements[i])) != [] {
      var i :| 0 <= i < |doc.elements| && Qualifies(doc.elements[i]) && CleanWords(LabelOf(doc.elements[i])) != [];
      assert VisitButton(style, doc.elements[i]).Failure?;
    }
    if ParseStyle(style).None? && ButtonPass(style, doc.elements).Success? {
      var nodes := ButtonPass(style, doc.elements).value.nodes;
      if exists j :: 0 <= j < |doc.texts| && Accepts(nodes, doc.texts[j]) && CleanWords(Strip(doc.texts[j].text)) != [] {
        var j :| 0 <= j < |doc.texts| && Accepts(nodes, doc.texts[j]) && CleanWords(Strip(doc.texts[j].text)) != [];
        assert VisitText(style, nodes, doc.texts[j]).Failure?;
        assert TextPass(style, nodes, doc.texts).Failure?;
      }
    }
  }

  /**
   * The table receives the label of every qualifying button, then the
   * stripped text of every accepted node, in document order; `button_labels`
   * and `text_elements` count them, and `total_labels` counts the distinct
   * names, so it falls short of their sum exactly when two writes share a name.
   */
  lemma {:induction false} MetricsCountRewrites(style: string, doc: Document)
    requires WellFormed(doc) && ProcessHtml(style, doc).Success?
    ensures Raws(Writes(style, doc))
      == QualifyingLabels(doc.elements) + AcceptedTexts(ProcessHtml(style, doc).value.document.elements, doc.texts)
    ensures ProcessHtml(style, doc).value.metrics.buttonLabels == |QualifyingLabels(doc.elements)|
    ensures ProcessHtml(style, doc).value.metrics.textElements
      == |AcceptedTexts(ProcessHtml(style, doc).value.document.elements, doc.texts)|
    ensures ProcessHtml(style, doc).value.metrics.totalLabels
      == |set i | 0 <= i < |Writes(style, doc)| :: Writes(style, doc)[i].name|
    ensures ProcessHtml(style, doc).value.metrics.totalLabels
      <= ProcessHtml(style, doc).value.metrics.buttonLabels + ProcessHtml(style, doc).value.metrics.textElements
    ensures ProcessHtml(style, doc).value.metrics.totalLabels
      == ProcessHtml(style, doc).value.metrics.buttonLabels + ProcessHtml(style, doc).value.metrics.textElements
      <==> forall i, j :: 0 <= i < j < |Writes(style, doc)| ==> Writes(style, doc)[i].name != Writes(style, doc)[j].name
  {
    var buttons := ButtonPass(style, doc.elements).value;
    var texts := TextPass(style, buttons.nodes, doc.texts).value;
    ButtonPassWrites(style, doc.elements);
    TextPassWrites(style, buttons.nodes, doc.texts);
    WritesOfConcat(buttons.writes, texts.writes);
    TableSizeCountsDistinctNames(Writes(style, doc));
  }

  /**
   * Last write wins: the table's keys are the names written, each holds the
   * text of the last write under that name, and the keys keep the order of
   * their first write, which is the order the metadata file lists them in.
   */
  lemma LastTextWins(style: string, doc: Document)
    requires WellFormed(doc) && ProcessHtml(style, doc).Success?
    ensures forall k :: k in ProcessHtml(style, doc).value.table.values <==> k in Names(Writes(style, doc))
    ensures forall k :: k in ProcessHtml(style, doc).value.table.values ==>
      ProcessHtml(style, doc).value.table.values[k] == LastRaw(Writes(style, doc), k)
    ensures forall i, j :: 0 <= i < j < |ProcessHtml(style, doc).value.table.order| ==>
      FirstIndex(Names(Writes(style, doc)), ProcessHtml(style, doc).value.table.order[i])
        < FirstIndex(Names(Writes(style, doc)), ProcessHtml(style, doc).value.table.order[j])
  {
    LastWriteWins(EmptyTable, Writes(style, doc));
    OrderIsFirstWrites(Writes(style, doc));
  }

  /** A button pass over elements none of which qualifies changes and writes nothing. */
  lemma {:induction false} ButtonPassInert(style: string, es: seq<Element>)
    requires forall i :: 0 <= i < |es| ==> !Qualifies(es[i])
    ensures ButtonPass(style, es) == Success(Pass(es, []))
  {
    if es != [] {
      assert forall i :: 1 <= i < |es| ==> es[i] == es[1..][i - 1];
      ButtonPassInert(style, es[1..]);
      var visited := VisitButton(style, es[0]);
      assert visited == Success((es[0], []));
      var rest := ButtonPass(style, es[1..]);
      assert rest == Success(Pass(es[1..], []));
      assert ButtonPass(style, es) == Success(Pass([visited.value.0] + rest.value.nodes, visited.value.1 + rest.value.writes));
      assert es == [es[0]] + es[1..];
      assert visited.value.1 + rest.value.writes == [];
    }
  }

  /** A text pass over nodes none of which is accepted changes and writes nothing. */
  lemma {:induction false} TextPassInert(style: string, elements: seq<Element>, ts: seq<TextNode>)
    requires ParentsExist(elements, ts)
    requires forall i :: 0 <= i < |ts| ==> !Accepts(elements, ts[i])
    ensures TextPass(style, elements, ts) == Success(Pass(ts, []))
  {
    if ts != [] {
      assert forall i :: 1 <= i < |ts| ==> ts[i] == ts[1..][i - 1];
      TextPassInert(style, elements, ts[1..]);
      var visited := VisitText(style, elements, ts[0]);
      assert visited == Success((ts[0], []));
      var rest := TextPass(style, elements, ts[1..]);
      assert rest == Success(Pass(ts[1..], []));
      assert TextPass(style, elements, ts) == Success(Pass([visited.value.0] + rest.value.nodes, visited.value.1 + rest.value.writes));
      assert ts == [ts[0]] + ts[1..];
      assert visited.value.1 + rest.value.writes == [];
    }
  }

  /**
   * Running the extraction again on its own output finds nothing: every
   * rewritten attribute and text is a placeholder the guards reject, and
   * everything else was rejected before, so the document comes back unchanged
   * with an empty table and zero counters.
   */
  lemma ProcessHtmlIdempotent(style: string, doc: Document)
    requires WellFormed(doc) && ProcessHtml(style, doc).Success?
    ensures WellFormed(ProcessHtml(style, doc).value.document)
    ensures ProcessHtml(style, ProcessHtml(style, doc).value.document)
      == Success(Extraction(ProcessHtml(style, doc).value.document, EmptyTable, Metrics(0, 0, 0)))
  {
    var out := ProcessHtml(style, doc).value.document;
    var buttons := ButtonPass(style, doc.elements).value;
    var texts := TextPass(style, buttons.nodes, doc.texts).value;
    assert out == Document(buttons.nodes, texts.nodes);
    ButtonOutputUnqualified(style, doc.elements);
    TextOutputRejected(style, buttons.nodes, doc.texts);
    InertDocument(style, out);
  }

  /** No element the button pass returns qualifies. */
  lemma ButtonOutputUnqualified(style: string, es: seq<Element>)
    requires ButtonPass(style, es).Success?
    ensures forall i :: 0 <= i < |ButtonPass(style, es).value.nodes| ==> !Qualifies(ButtonPass(style, es).value.nodes[i])
  {
  }

  /** No text node the text pass returns is accepted. */
  lemma TextOutputRejected(style: string, elements: seq<Element>, ts: seq<TextNode>)
    requires ParentsExist(elements, ts) && TextPass(style, elements, ts).Success?
    ensures forall i :: 0 <= i < |TextPass(style, elements, ts).value.nodes| ==>
      !Accepts(elements, TextPass(style, elements, ts).value.nodes[i])
  {
  }

  /** A document in which nothing qualifies or is accepted is left as it is, with nothing written. */
  lemma InertDocument(style: string, doc: Document)
    requires WellFormed(doc)
    requires forall i :: 0 <= i < |doc.elements| ==> !Qualifies(doc.elements[i])
    requires forall i :: 0 <= i < |doc.texts| ==> !Accepts(doc.elements, doc.texts[i])
    ensures ProcessHtml(style, doc) == Success(Extraction(doc, EmptyTable, Metrics(0, 0, 0)))
  {
    ButtonPassInert(style, doc.elements);
    TextPassInert(style, doc.elements, doc.texts);
    assert Writes(style, doc) == [];
  }

  /**
   * A `lightning-button` the button pass has been over has a label that is
   * absent, empty or placeholder-shaped, and no text can pass the fallback
   * branch of `should_process_text` against such a label.
   */
  lemma UnqualifiedButtonRejectsText(e: Element, text: string)
    requires e.tag == "lightning-button" && !Qualifies(e)
    ensures !ShouldProcessText(text, e.tag, e.labelAttr)
  {
    if e.labelAttr.Some? && e.labelAttr.value != [] {
      GuardMatchesRegex(e.labelAttr.value);
    }
  }

  /**
   * Within `process_html` the fallback branch never fires: text whose parent
   * is a `lightning-button` is never extracted and stays as it was.
   */
  lemma ButtonTextIsNeverExtracted(style: string, doc: Document)
    requires WellFormed(doc) && ProcessHtml(style, doc).Success?
    ensures forall i :: 0 <= i < |doc.texts| ==>
      (ParentTag(ProcessHtml(style, doc).value.document.elements, doc.texts[i]) == "lightning-button" ==>
        && !Accepts(ProcessHtml(style, doc).value.document.elements, doc.texts[i])
        && ProcessHtml(style, doc).value.document.texts[i] == doc.texts[i])
  {
    var out := ProcessHtml(style, doc).value.document;
    forall i | 0 <= i < |doc.texts| && ParentTag(out.elements, doc.texts[i]) == "lightning-button"
      ensures !Accepts(out.elements, doc.texts[i])
    {
      var t := doc.texts[i];
      assert t.parent.Child?;
      UnqualifiedButtonRejectsText(out.elements[t.parent.index], t.text);
    }
  }
}
