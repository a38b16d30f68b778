/**
 * What the two generated files say about a run of the extraction: the
 * module imports exactly the names written, one line each, and the metadata
 * document holds one record per name carrying the text of the last write
 * under it.
 */
module Outputs {
  import opened Results
  import opened Chars
  import opened LabelNames
  import opened LabelTables
  import opened Extraction
  import opened ExtractionProperties
  import opened JsEmitter
  import opened XmlEmitter

  /**
   * Letters, digits and `_` only, the characters of a generated name. The
   * empty name and names that start with a digit have this shape too.
   */
  predicate UsesNameChars(s: string) {
    forall j :: 0 <= j < |s| ==> IsNameChar(s[j])
  }

  /** Writes whose names are derived from their texts use only name characters. */
  lemma {:induction false} NamedWritesUseNameChars(style: string, prefix: string, ws: seq<Entry>)
    requires forall i :: 0 <= i < |prefix| ==> IsWordChar(prefix[i])
    requires NamedWrites(style, prefix, ws)
    ensures forall i :: 0 <= i < |ws| ==> UsesNameChars(ws[i].name)
  {
    forall i | 0 <= i < |ws| ensures UsesNameChars(ws[i].name) {
      var r := CreateLabelName(style, ws[i].raw, prefix);
      assert r == Success(ws[i].name);
    }
  }

  lemma NameCharsHaveNoBreak(s: string)
    requires UsesNameChars(s)
    ensures '\n' !in s
  {
  }

  /** Every name written uses only name characters. */
  lemma WrittenNamesUseNameChars(style: string, doc: Document)
    requires WellFormed(doc) && ProcessHtml(style, doc).Success?
    ensures forall i :: 0 <= i < |Writes(style, doc)| ==> UsesNameChars(Writes(style, doc)[i].name)
  {
    var buttons := ButtonPass(style, doc.elements).value;
    var texts := TextPass(style, buttons.nodes, doc.texts).value;
    ButtonPassWrites(style, doc.elements);
    TextPassWrites(style, buttons.nodes, doc.texts);
    ButtonPrefixIsWord();
    NamedWritesUseNameChars(style, ButtonPrefix, buttons.writes);
    NamedWritesUseNameChars(style, [], texts.writes);
    assert Writes(style, doc) == buttons.writes + texts.writes;
  }

  /**
   * The module imports each written name exactly once, and only those; its
   * physical lines are the imports, a blank line, the opener, the exports and
   * the closing brace.
   */
  lemma ModuleImportsWrittenNames(style: string, doc: Document)
    requires WellFormed(doc) && ProcessHtml(style, doc).Success?
    ensures forall k :: k in Names(Writes(style, doc)) <==>
      exists i :: 0 <= i < ProcessHtml(style, doc).value.metrics.totalLabels
        && JsLines(ProcessHtml(style, doc).value.table)[i] == ImportLine(k)
    ensures SplitOn(JsFile(ProcessHtml(style, doc).value.table), '\n')
      == Imports(SortedNames(ProcessHtml(style, doc).value.table)) + ["", "export const label = {"]
        + Exports(SortedNames(ProcessHtml(style, doc).value.table)) + ["};"]
  {
    LastTextWins(style, doc);
    WrittenNamesUseNameChars(style, doc);
    ModuleOfWrites(ProcessHtml(style, doc).value.table, Writes(style, doc));
  }

  /** The module of a table whose keys are the names written. */
  lemma ModuleOfWrites(t: LabelTable, ws: seq<Entry>)
    requires t.Valid()
    requires forall k :: k in t.values <==> k in Names(ws)
    requires forall i :: 0 <= i < |ws| ==> UsesNameChars(ws[i].name)
    ensures forall k :: k in Names(ws) <==> exists i :: 0 <= i < |t.values| && JsLines(t)[i] == ImportLine(k)
    ensures SplitOn(JsFile(t), '\n') == Imports(SortedNames(t)) + ["", "export const label = {"] + Exports(SortedNames(t)) + ["};"]
  {
    JsImportsEachKeyOnce(t);
    forall k | k in t.values ensures '\n' !in k {
      assert k in Names(ws);
      var i :| 0 <= i < |ws| && Names(ws)[i] == k;
      NameCharsHaveNoBreak(ws[i].name);
    }
    JsFileLines(t);
  }

  lemma NameCharsArePlain(s: string)
    requires UsesNameChars(s)
    ensures PlainText(s) && Unescape(s) == Some(s)
  {
    UnescapeOfPlain(s);
  }

  /**
   * The metadata document as the generator writes it: its records are the
   * written names in the table's order (the order of first write, by
   * `ExtractionProperties.LastTextWins`), each interpolated with the text of
   * its last write and the component. When that text and the component hold
   * no `<`, the record keeps its layout with the text in both text fields and
   * reads back exactly when both are readable character data; when they need
   * no escaping it reads back as them.
   */
  lemma MetadataCarriesLastText(style: string, doc: Document, component: string)
    requires WellFormed(doc) && ProcessHtml(style, doc).Success?
    ensures var t := ProcessHtml(style, doc).value.table;
      && |XmlLines(t, component)| == ProcessHtml(style, doc).value.metrics.totalLabels + 3
      && (forall k :: k in Names(Writes(style, doc)) <==> k in t.order)
    ensures var t := ProcessHtml(style, doc).value.table;
      forall i :: 0 <= i < |t.order| ==>
        (t.order[i] in Names(Writes(style, doc))
        && XmlLines(t, component)[i + 2] == XmlRecord(t.order[i], component, LastRaw(Writes(style, doc), t.order[i])))
    ensures var t := ProcessHtml(style, doc).value.table;
      forall i :: (0 <= i < |t.order| && t.order[i] in Names(Writes(style, doc))
        && '<' !in component && '<' !in LastRaw(Writes(style, doc), t.order[i])) ==>
          (&& Layout(XmlLines(t, component)[i + 2]) == Some(Fields(t.order[i], component,
            LastRaw(Writes(style, doc), t.order[i]), LastRaw(Writes(style, doc), t.order[i])))
          && (ReadRecord(XmlLines(t, component)[i + 2]).Some? <==>
            Unescape(component).Some? && Unescape(LastRaw(Writes(style, doc), t.order[i])).Some?))
    ensures var t := ProcessHtml(style, doc).value.table;
      forall i :: (0 <= i < |t.order| && t.order[i] in Names(Writes(style, doc))
        && PlainText(component) && PlainText(LastRaw(Writes(style, doc), t.order[i]))) ==>
          ReadRecord(XmlLines(t, component)[i + 2]) == Some(Fields(t.order[i], component,
            LastRaw(Writes(style, doc), t.order[i]), LastRaw(Writes(style, doc), t.order[i])))
  {
    LastTextWins(style, doc);
    WrittenNamesUseNameChars(style, doc);
    KeysUseNameChars(ProcessHtml(style, doc).value.table, Writes(style, doc));
    MetadataOfWrites(ProcessHtml(style, doc).value.table, Writes(style, doc), component);
    MetadataReadsBack(ProcessHtml(style, doc).value.table, Writes(style, doc), component);
  }

  /** The generator's metadata document for a table holding the last texts of the writes: its records. */
  lemma MetadataOfWrites(t: LabelTable, ws: seq<Entry>, component: string)
    requires t.Valid()
    requires forall k :: k in t.values <==> k in Names(ws)
    requires forall k :: k in t.values ==> UsesNameChars(k) && t.values[k] == LastRaw(ws, k)
    ensures |XmlLines(t, component)| == |t.values| + 3
    ensures forall k :: k in Names(ws) <==> k in t.order
    ensures forall i :: 0 <= i < |t.order| ==>
      (t.order[i] in Names(ws) && XmlLines(t, component)[i + 2] == XmlRecord(t.order[i], component, LastRaw(ws, t.order[i])))
  {
    ValidSize(t);
    forall i | 0 <= i < |t.order|
      ensures t.order[i] in Names(ws)
      ensures XmlLines(t, component)[i + 2] == XmlRecord(t.order[i], component, LastRaw(ws, t.order[i]))
    {
      RecordLine(t, component, i + 2);
    }
  }

  /** The generator's metadata document for a table holding the last texts of the writes: reading it back. */
  lemma MetadataReadsBack(t: LabelTable, ws: seq<Entry>, component: string)
    requires t.Valid()
    requires forall k :: k in t.values <==> k in Names(ws)
    requires forall k :: k in t.values ==> UsesNameChars(k) && t.values[k] == LastRaw(ws, k)
    ensures forall i :: (0 <= i < |t.order| && t.order[i] in Names(ws)
      && '<' !in component && '<' !in LastRaw(ws, t.order[i])) ==>
        (&& Layout(XmlLines(t, component)[i + 2]) == Some(Fields(t.order[i], component, LastRaw(ws, t.order[i]), LastRaw(ws, t.order[i])))
        && (ReadRecord(XmlLines(t, component)[i + 2]).Some? <==>
          Unescape(component).Some? && Unescape(LastRaw(ws, t.order[i])).Some?))
    ensures forall i :: (0 <= i < |t.order| && t.order[i] in Names(ws)
      && PlainText(component) && PlainText(LastRaw(ws, t.order[i]))) ==>
        ReadRecord(XmlLines(t, component)[i + 2]) == Some(Fields(t.order[i], component, LastRaw(ws, t.order[i]), LastRaw(ws, t.order[i])))
  {
    forall i | 0 <= i < |t.order|
      ensures '<' !in component && '<' !in t.values[t.order[i]] ==>
        && Layout(XmlLines(t, component)[i + 2]) == Some(Fields(t.order[i], component, t.values[t.order[i]], t.values[t.order[i]]))
        && (ReadRecord(XmlLines(t, component)[i + 2]).Some? <==>
          Unescape(component).Some? && Unescape(t.values[t.order[i]]).Some?)
      ensures PlainText(component) && PlainText(t.values[t.order[i]]) ==>
        ReadRecord(XmlLines(t, component)[i + 2]) == Some(Fields(t.order[i], component, t.values[t.order[i]], t.values[t.order[i]]))
    {
      MetadataLine(t, component, i);
    }
  }

  /** One record line of the generator's metadata document, for a key made of name characters. */
  lemma MetadataLine(t: LabelTable, component: string, i: int)
    requires t.Valid() && 0 <= i < |t.order| && UsesNameChars(t.order[i])
    ensures '<' !in component && '<' !in t.values[t.order[i]] ==>
      && Layout(XmlLines(t, component)[i + 2]) == Some(Fields(t.order[i], component, t.values[t.order[i]], t.values[t.order[i]]))
      && (ReadRecord(XmlLines(t, component)[i + 2]).Some? <==>
        Unescape(component).Some? && Unescape(t.values[t.order[i]]).Some?)
    ensures PlainText(component) && PlainText(t.values[t.order[i]]) ==>
      ReadRecord(XmlLines(t, component)[i + 2]) == Some(Fields(t.order[i], component, t.values[t.order[i]], t.values[t.order[i]]))
  {
    var k := t.order[i];
    NameCharsArePlain(k);
    RecordLine(t, component, i + 2);
    if '<' !in component && '<' !in t.values[k] {
      RecordAsWritten(k, component, t.values[k]);
    }
  }

  /** The keys of a table holding exactly the written names use only name characters. */
  lemma KeysUseNameChars(t: LabelTable, ws: seq<Entry>)
    requires forall k :: k in t.values <==> k in Names(ws)
    requires forall i :: 0 <= i < |ws| ==> UsesNameChars(ws[i].name)
    ensures forall k :: k in t.values ==> UsesNameChars(k)
  {
    forall k | k in t.values ensures UsesNameChars(k) {
      var j :| 0 <= j < |ws| && Names(ws)[j] == k;
    }
  }

  /**
   * The metadata document with escaped records has one record per written
   * name, carrying that name's last-written text in both text fields and the
   * component as its category; every record is for a written name, and no
   * two share one.
   */
  lemma EscapedMetadataCarriesLastText(style: string, doc: Document, component: string)
    requires WellFormed(doc) && ProcessHtml(style, doc).Success?
    ensures forall k :: k in Names(Writes(style, doc)) ==>
      exists i :: 2 <= i < ProcessHtml(style, doc).value.metrics.totalLabels + 2
        && ReadRecord(EscapedXmlLines(ProcessHtml(style, doc).value.table, component)[i])
          == Some(Fields(k, component, LastRaw(Writes(style, doc), k), LastRaw(Writes(style, doc), k)))
    ensures forall i :: 2 <= i < ProcessHtml(style, doc).value.metrics.totalLabels + 2 ==>
      var r := ReadRecord(EscapedXmlLines(ProcessHtml(style, doc).value.table, component)[i]);
      r.Some? && r.value.fullName in Names(Writes(style, doc))
      && r.value == Fields(r.value.fullName, component, LastRaw(Writes(style, doc), r.value.fullName), LastRaw(Writes(style, doc), r.value.fullName))
    ensures forall i, j :: 2 <= i < j < ProcessHtml(style, doc).value.metrics.totalLabels + 2 ==>
      ReadRecord(EscapedXmlLines(ProcessHtml(style, doc).value.table, component)[i]).Some?
      && ReadRecord(EscapedXmlLines(ProcessHtml(style, doc).value.table, component)[j]).Some?
      && ReadRecord(EscapedXmlLines(ProcessHtml(style, doc).value.table, component)[i]).value.fullName
        != ReadRecord(EscapedXmlLines(ProcessHtml(style, doc).value.table, component)[j]).value.fullName
  {
    var t := ProcessHtml(style, doc).value.table;
    LastTextWins(style, doc);
    EscapedRecordsAreKeys(t, component);
    EscapedOneRecordPerKey(t, component);
  }
}
