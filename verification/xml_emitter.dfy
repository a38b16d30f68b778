/**
 * `generate_xml_file` (lwc_label_generator.py:137-156): the `labels.xml`
 * custom-label metadata document, one `<labels>` record per table entry in
 * insertion order. The record text is built by string interpolation, so
 * this module also carries a reader for it: the character-data rules of
 * section 2.4 of XML 1.0 (`<` and `&` may appear only escaped) decide what a
 * record reads back as.
 */
module XmlEmitter {
  import opened Results
  import opened Chars
  import opened LabelTables

  const XmlDeclaration := "<?xml version=\"1.0\" encoding=\"UTF-8\"?>"
  const RootOpen := "<CustomLabels xmlns=\"http://soap.sforce.com/2006/04/metadata\">"
  const RootClose := "</CustomLabels>"

  /** The fixed text between the interpolated fields of one record. */
  const BeforeName := "    <labels>\n        <fullName>"
  const BeforeCategories := "</fullName>\n        <categories>"
  const BeforeDescription := "</categories>\n" + "        <language>en_US</language>\n"
    + "        <protected>false</protected>\n" + "        <shortDescription>"
  const BeforeValue := "</shortDescription>\n        <value>"
  const AfterValue := "</value>\n    </labels>"

  /** What a record says: the label's name, its category, and its two texts. */
  datatype Fields = Fields(fullName: string, categories: string, shortDescription: string, value: string)

  /** The record exactly as the generator interpolates it: no field is escaped. */
  function XmlRecord(name: string, component: string, raw: string): string {
    BeforeName + (name + (BeforeCategories + (component + (BeforeDescription + (raw + (BeforeValue + (raw + AfterValue)))))))
  }

  // ---------------------------------------------------------------------------
  // Character data

  function EscapeChar(c: char): string {
    if c == '&' then "&amp;" else if c == '<' then "&lt;" else if c == '>' then "&gt;" else [c]
  }

  /** Text turned into character data by replacing `&`, `<` and `>` with entity references. */
  function Escape(s: string): (r: string)
    ensures '<' !in r
    ensures NoSpecial(s) ==> r == s
  {
    if s == [] then [] else EscapeChar(s[0]) + Escape(s[1..])
  }

  function Prepend(c: char, o: Option<string>): Option<string> {
    match o
    case None => None
    case Some(t) => Some([c] + t)
  }

  /**
   * The text that character data stands for, as far as this reader goes: the
   * five predefined entity references are decoded, and a `<` or any other
   * `&` is not read. Numeric character references such as `&#38;`, which
   * XML 1.0 allows, are among the data it does not read.
   */
  function Unescape(s: string): (r: Option<string>)
  {
    if s == [] then Some([])
    else if s[0] == '<' then None
    else if s[0] != '&' then Prepend(s[0], Unescape(s[1..]))
    else if |s| >= 5 && s[..5] == "&amp;" then Prepend('&', Unescape(s[5..]))
    else if |s| >= 4 && s[..4] == "&lt;" then Prepend('<', Unescape(s[4..]))
    else if |s| >= 4 && s[..4] == "&gt;" then Prepend('>', Unescape(s[4..]))
    else if |s| >= 6 && s[..6] == "&quot;" then Prepend('"', Unescape(s[6..]))
    else if |s| >= 6 && s[..6] == "&apos;" then Prepend('\'', Unescape(s[6..]))
    else None
  }

  /** Reading back one escaped character, then the rest. */
  lemma UnescapeOneChar(c: char, rest: string)
    ensures Unescape(EscapeChar(c) + rest) == Prepend(c, Unescape(rest))
  {
    var e := EscapeChar(c) + rest;
    if c == '&' {
      assert e[..5] == "&amp;" && e[5..] == rest;
    } else if c == '<' {
      assert e[..4] == "&lt;" && e[4..] == rest;
      assert e[1] == 'l' && "&amp;"[1] == 'a';
    } else if c == '>' {
      assert e[..4] == "&gt;" && e[4..] == rest;
      assert e[1] == 'g' && "&amp;"[1] == 'a' && "&lt;"[1] == 'l';
    } else {
      assert e[0] == c && e[1..] == rest;
    }
  }

  /** Escaping then reading back gives the text again, whatever it contains. */
  lemma {:induction false} EscapeRoundTrip(s: string)
    ensures Unescape(Escape(s)) == Some(s)
  {
    if s != [] {
      EscapeRoundTrip(s[1..]);
      assert Escape(s) == EscapeChar(s[0]) + Escape(s[1..]);
      UnescapeOneChar(s[0], Escape(s[1..]));
      assert s == [s[0]] + s[1..];
    }
  }

  /** Text with no `<` or `&` reads back as itself, followed by whatever follows it. */
  lemma {:induction false} UnescapePlain(x: string, y: string)
    requires '<' !in x && '&' !in x
    ensures Unescape(x + y) == (match Unescape(y) case None => None case Some(t) => Some(x + t))
  {
    if x != [] {
      assert (x + y)[1..] == x[1..] + y;
      UnescapePlain(x[1..], y);
      match Unescape(y) {
        case None =>
        case Some(t) => assert [x[0]] + (x[1..] + t) == x + t;
      }
    } else {
      assert x + y == y;
      assert forall t: string :: x + t == t;
    }
  }

  // ---------------------------------------------------------------------------
  // Reading a record back

  /** The rest of `s` after the literal `lit`, if `s` starts with it. */
  function After(s: string, lit: string): (r: Option<string>)
    ensures r.Some? <==> |lit| <= |s| && s[..|lit|] == lit
    ensures r.Some? ==> s == lit + r.value
  {
    if |lit| <= |s| && s[..|lit|] == lit then
      assert s == lit + s[|lit|..];
      Some(s[|lit|..])
    else None
  }

  /** The character data at the start of `s`, up to the first `<`, and what follows it. */
  function Content(s: string): (r: (string, string))
    ensures r.0 + r.1 == s && '<' !in r.0
  {
    var i := FindChar(s, '<');
    assert s == s[..i] + s[i..];
    (s[..i], s[i..])
  }

  /** The literal `lit`, then character data up to the next tag: that data and the rest. */
  function ReadField(s: string, lit: string): Option<(string, string)> {
    var a :- After(s, lit);
    Some(Content(a))
  }

  /** The character data of the four fields, where the fixed text is as the generator writes it. */
  function Layout(s: string): Option<Fields> {
    var (name, b) :- ReadField(s, BeforeName);
    var (component, d) :- ReadField(b, BeforeCategories);
    var (description, f) :- ReadField(d, BeforeDescription);
    var (value, h) :- ReadField(f, BeforeValue);
    if h == AfterValue then Some(Fields(name, component, description, value)) else None
  }

  /**
   * Reads one record: the fixed text must be where the generator puts it, and
   * each field's character data must be readable by `Unescape`.
   */
  function ReadRecord(s: string): Option<Fields> {
    var raw :- Layout(s);
    var fullName :- Unescape(raw.fullName);
    var categories :- Unescape(raw.categories);
    var shortDescription :- Unescape(raw.shortDescription);
    var value :- Unescape(raw.value);
    Some(Fields(fullName, categories, shortDescription, value))
  }

  /** Peels one field off a record: the fixed text, then character data up to the next tag. */
  lemma ReadStep(lit: string, x: string, rest: string)
    requires '<' !in x && rest != [] && rest[0] == '<'
    ensures ReadField(lit + (x + rest), lit) == Some((x, rest))
  {
    assert (lit + (x + rest))[..|lit|] == lit;
    assert (lit + (x + rest))[|lit|..] == x + rest;
    FindCharPast(x, rest, '<');
    assert (x + rest)[..|x|] == x && (x + rest)[|x|..] == rest;
  }

  /** A record whose fields hold no `<` lays out as exactly those fields. */
  lemma LayoutOf(name: string, component: string, raw: string)
    requires '<' !in name && '<' !in component && '<' !in raw
    ensures Layout(XmlRecord(name, component, raw)) == Some(Fields(name, component, raw, raw))
  {
    var tail4 := BeforeValue + (raw + AfterValue);
    var tail3 := BeforeDescription + (raw + tail4);
    var tail2 := BeforeCategories + (component + tail3);
    assert BeforeDescription[0] == '<' && BeforeCategories[0] == '<' && BeforeValue[0] == '<' && AfterValue[0] == '<';
    assert tail2[0] == '<' && tail3[0] == '<' && tail4[0] == '<';
    ReadStep(BeforeName, name, tail2);
    ReadStep(BeforeCategories, component, tail3);
    ReadStep(BeforeDescription, raw, tail4);
    ReadStep(BeforeValue, raw, AfterValue);
  }

  /**
   * A record whose fields hold no `<` reads back as the fields' character data,
   * or fails exactly when one of them is not readable by `Unescape`.
   */
  lemma ReadRecordOf(name: string, component: string, raw: string)
    requires '<' !in name && '<' !in component && '<' !in raw
    ensures ReadRecord(XmlRecord(name, component, raw)) ==
      if Unescape(name).Some? && Unescape(component).Some? && Unescape(raw).Some?
      then Some(Fields(Unescape(name).value, Unescape(component).value, Unescape(raw).value, Unescape(raw).value))
      else None
  {
    LayoutOf(name, component, raw);
  }

  // ---------------------------------------------------------------------------
  // The record with escaped fields, and the document

  /**
   * The record with every interpolated field escaped. It is the same text as
   * the generator's whenever the fields hold no `&`, `<` or `>`.
   */
  function XmlRecordEscaped(name: string, component: string, raw: string): (r: string)
    ensures ReadRecord(r) == Some(Fields(name, component, raw, raw))
  {
    EscapeRoundTrip(name);
    EscapeRoundTrip(component);
    EscapeRoundTrip(raw);
    ReadRecordOf(Escape(name), Escape(component), Escape(raw));
    XmlRecord(Escape(name), Escape(component), Escape(raw))
  }

  /** Text free of the three characters that escaping replaces. */
  predicate NoSpecial(s: string) {
    forall i :: 0 <= i < |s| ==> s[i] != '&' && s[i] != '<' && s[i] != '>'
  }

  /** Escaping changes nothing for text free of the three special characters. */
  lemma EscapedRecordIsRecordOnPlainText(name: string, component: string, raw: string)
    requires NoSpecial(name) && NoSpecial(component) && NoSpecial(raw)
    ensures XmlRecordEscaped(name, component, raw) == XmlRecord(name, component, raw)
  {
  }

  /**
   * As generated, a label whose text holds an ampersand that starts no entity
   * reference gives a record that is not well-formed and reads back as
   * nothing, while the escaped record reads back as the text.
   */
  lemma BareAmpersandBreaksRecord(name: string, component: string, before: string, after: string)
    requires '<' !in name && '<' !in component && '<' !in before && '<' !in after && '&' !in before
    ensures ReadRecord(XmlRecord(name, component, before + "& " + after)) == None
    ensures ReadRecord(XmlRecordEscaped(name, component, before + "& " + after))
      == Some(Fields(name, component, before + "& " + after, before + "& " + after))
  {
    var raw := before + "& " + after;
    var bare := "& " + after;
    assert raw == before + bare;
    UnescapePlain(before, bare);
    assert bare[0] == '&' && bare[1] == ' ';
    assert Unescape(bare) == None;
    ReadRecordOf(name, component, raw);
  }

  /**
   * An HTML `Terms &amp; Conditions` reaches the generator decoded, and its
   * record is then not well-formed.
   */
  lemma TermsAndConditionsBreaksRecord()
    ensures ReadRecord(XmlRecord("btnTermsConditions", "checkout", "Terms & Conditions")) == None
  {
    var raw := "Terms & Conditions";
    assert raw == "Terms " + "& " + "Conditions";
    BareAmpersandBreaksRecord("btnTermsConditions", "checkout", "Terms ", "Conditions");
  }

  /** Text without any `<` or `&` reads back as itself. */
  lemma UnescapeOfPlain(x: string)
    requires '<' !in x && '&' !in x
    ensures Unescape(x) == Some(x)
  {
    UnescapePlain(x, []);
    assert x + [] == x;
  }

  /** Character data that stands for itself: it holds no `<` and no `&`. */
  predicate PlainText(s: string) {
    '<' !in s && '&' !in s
  }

  /**
   * A record as the generator writes it, with no `<` in its fields, keeps its
   * layout; it reads back exactly when each field is readable character data,
   * and fields that need no escaping read back as themselves.
   */
  lemma RecordAsWritten(name: string, component: string, raw: string)
    requires '<' !in name && '<' !in component && '<' !in raw
    ensures Layout(XmlRecord(name, component, raw)) == Some(Fields(name, component, raw, raw))
    ensures ReadRecord(XmlRecord(name, component, raw)).Some?
      <==> Unescape(name).Some? && Unescape(component).Some? && Unescape(raw).Some?
    ensures PlainText(name) && PlainText(component) && PlainText(raw) ==>
      ReadRecord(XmlRecord(name, component, raw)) == Some(Fields(name, component, raw, raw))
  {
    LayoutOf(name, component, raw);
    ReadRecordOf(name, component, raw);
    if PlainText(name) && PlainText(component) && PlainText(raw) {
      UnescapeOfPlain(name);
      UnescapeOfPlain(component);
      UnescapeOfPlain(raw);
    }
  }

  // ---------------------------------------------------------------------------
  // The document

  /** The lines around a sequence of records: declaration, root element, the records, root end. */
  function Frame(records: seq<string>): (lines: seq<string>)
    ensures |lines| == |records| + 3
    ensures lines[0] == XmlDeclaration && lines[1] == RootOpen && lines[|lines| - 1] == RootClose
    ensures lines[2..|lines| - 1] == records
  {
    var lines := [XmlDeclaration, RootOpen] + records + [RootClose];
    assert lines[2..|lines| - 1] == records;
    lines
  }

  /** One record per key in insertion order, each interpolated as the generator does. */
  function Records(t: LabelTable, component: string): (rs: seq<string>)
    requires t.Valid()
    ensures |rs| == |t.order|
    ensures forall i :: 0 <= i < |t.order| ==> rs[i] == XmlRecord(t.order[i], component, t.values[t.order[i]])
  {
    seq(|t.order|, i requires 0 <= i < |t.order| => XmlRecord(t.order[i], component, t.values[t.order[i]]))
  }

  /** The lines of `labels.xml` as the generator writes them. */
  function XmlLines(t: LabelTable, component: string): (lines: seq<string>)
    requires t.Valid()
    ensures |lines| == |t.values| + 3 && |lines| == |t.order| + 3
    ensures lines[0] == XmlDeclaration && lines[1] == RootOpen && lines[|lines| - 1] == RootClose
    ensures lines[2..|lines| - 1] == Records(t, component)
  {
    ValidSize(t);
    Frame(Records(t, component))
  }

  /** `'\n'.join(xml_content)`. */
  function XmlFile(t: LabelTable, component: string): string
    requires t.Valid()
  {
    JoinWith(XmlLines(t, component), '\n')
  }

  /**
   * The written file: the declaration and the root element each end in a
   * newline, the records follow joined by newlines, and the root's end tag
   * closes the file on a line of its own, with no newline after it.
   */
  lemma XmlFileLayout(t: LabelTable, component: string)
    requires t.Valid()
    ensures XmlFile(t, component) == XmlDeclaration + "\n" + RootOpen + "\n"
      + (if t.order == [] then [] else JoinWith(Records(t, component), '\n') + "\n") + RootClose
  {
    FrameJoin(Records(t, component));
  }

  lemma FrameJoin(records: seq<string>)
    ensures JoinWith(Frame(records), '\n') == XmlDeclaration + "\n" + RootOpen + "\n"
      + (if records == [] then [] else JoinWith(records, '\n') + "\n") + RootClose
  {
    var lines := Frame(records);
    assert lines == [XmlDeclaration, RootOpen] + (records + [RootClose]);
    JoinConcat([XmlDeclaration, RootOpen], records + [RootClose], '\n');
    JoinCons([XmlDeclaration, RootOpen], '\n');
    assert JoinWith([XmlDeclaration, RootOpen], '\n') == XmlDeclaration + "\n" + RootOpen;
    if records == [] {
      assert records + [RootClose] == [RootClose];
    } else {
      JoinConcat(records, [RootClose], '\n');
    }
  }

  /** Line `i` of the document is the record of the `i - 2`-th key, interpolated. */
  lemma RecordLine(t: LabelTable, component: string, i: int)
    requires t.Valid() && 2 <= i < |t.order| + 2
    ensures |XmlLines(t, component)| == |t.order| + 3
    ensures XmlLines(t, component)[i] == XmlRecord(t.order[i - 2], component, t.values[t.order[i - 2]])
  {
    ValidSize(t);
    var lines := XmlLines(t, component);
    assert lines[i] == lines[2..|lines| - 1][i - 2];
  }

  /**
   * The record of the `i`-th key in insertion order, as the generator writes
   * it. When neither that key, its text nor the component holds a `<`, the
   * record keeps its layout with the text in both text fields; it reads back
   * exactly when all three are readable character data, and as themselves
   * when they need no escaping.
   */
  lemma XmlRecordsAreKeys(t: LabelTable, component: string)
    requires t.Valid()
    ensures forall i :: 0 <= i < |t.order| && '<' !in component && '<' !in t.order[i] && '<' !in t.values[t.order[i]] ==>
      && Layout(XmlLines(t, component)[i + 2]) == Some(Fields(t.order[i], component, t.values[t.order[i]], t.values[t.order[i]]))
      && (ReadRecord(XmlLines(t, component)[i + 2]).Some? <==>
        Unescape(t.order[i]).Some? && Unescape(component).Some? && Unescape(t.values[t.order[i]]).Some?)
    ensures forall i :: 0 <= i < |t.order| && PlainText(component) && PlainText(t.order[i]) && PlainText(t.values[t.order[i]]) ==>
      ReadRecord(XmlLines(t, component)[i + 2]) == Some(Fields(t.order[i], component, t.values[t.order[i]], t.values[t.order[i]]))
  {
    forall i | 0 <= i < |t.order|
      ensures '<' !in component && '<' !in t.order[i] && '<' !in t.values[t.order[i]] ==>
        && Layout(XmlLines(t, component)[i + 2]) == Some(Fields(t.order[i], component, t.values[t.order[i]], t.values[t.order[i]]))
        && (ReadRecord(XmlLines(t, component)[i + 2]).Some? <==>
          Unescape(t.order[i]).Some? && Unescape(component).Some? && Unescape(t.values[t.order[i]]).Some?)
      ensures PlainText(component) && PlainText(t.order[i]) && PlainText(t.values[t.order[i]]) ==>
        ReadRecord(XmlLines(t, component)[i + 2]) == Some(Fields(t.order[i], component, t.values[t.order[i]], t.values[t.order[i]]))
    {
      var k := t.order[i];
      RecordLine(t, component, i + 2);
      if '<' !in component && '<' !in k && '<' !in t.values[k] {
        RecordAsWritten(k, component, t.values[k]);
      }
    }
  }

  /** No key, no text and not the component holds a `<`. */
  predicate NoMarkup(t: LabelTable, component: string) {
    '<' !in component && forall k :: k in t.values ==> '<' !in k && '<' !in t.values[k]
  }

  /**
   * Every key has a record in the generator's document carrying its text, and
   * when nothing holds a `<`, no two records carry the same name.
   */
  lemma XmlOneRecordPerKey(t: LabelTable, component: string)
    requires t.Valid()
    ensures forall k :: k in t.values ==>
      exists i :: 2 <= i < |t.values| + 2 && XmlLines(t, component)[i] == XmlRecord(k, component, t.values[k])
    ensures NoMarkup(t, component) ==> forall i, j :: 2 <= i < j < |t.values| + 2 ==>
      && Layout(XmlLines(t, component)[i]).Some? && Layout(XmlLines(t, component)[j]).Some?
      && Layout(XmlLines(t, component)[i]).value.fullName != Layout(XmlLines(t, component)[j]).value.fullName
  {
    ValidSize(t);
    forall k | k in t.values
      ensures exists i :: 2 <= i < |t.values| + 2 && XmlLines(t, component)[i] == XmlRecord(k, component, t.values[k])
    {
      assert k in t.order;
      var j :| 0 <= j < |t.order| && t.order[j] == k;
      RecordLine(t, component, j + 2);
    }
    if NoMarkup(t, component) {
      forall i, j | 2 <= i < j < |t.values| + 2
        ensures Layout(XmlLines(t, component)[i]).Some? && Layout(XmlLines(t, component)[j]).Some?
        ensures Layout(XmlLines(t, component)[i]).value.fullName != Layout(XmlLines(t, component)[j]).value.fullName
      {
        RecordLine(t, component, i);
        RecordLine(t, component, j);
        LayoutOf(t.order[i - 2], component, t.values[t.order[i - 2]]);
        LayoutOf(t.order[j - 2], component, t.values[t.order[j - 2]]);
      }
    }
  }

  // ---------------------------------------------------------------------------
  // The document with escaped records

  /** One escaped record per key in insertion order. */
  function EscapedRecords(t: LabelTable, component: string): (rs: seq<string>)
    requires t.Valid()
    ensures |rs| == |t.order|
    ensures forall i :: 0 <= i < |t.order| ==> ReadRecord(rs[i]) == Some(Fields(t.order[i], component, t.values[t.order[i]], t.values[t.order[i]]))
  {
    seq(|t.order|, i requires 0 <= i < |t.order| => XmlRecordEscaped(t.order[i], component, t.values[t.order[i]]))
  }

  /** The lines of `labels.xml` with every field escaped. */
  function EscapedXmlLines(t: LabelTable, component: string): (lines: seq<string>)
    requires t.Valid()
    ensures |lines| == |t.values| + 3 && |lines| == |t.order| + 3
    ensures lines[0] == XmlDeclaration && lines[1] == RootOpen && lines[|lines| - 1] == RootClose
    ensures lines[2..|lines| - 1] == EscapedRecords(t, component)
  {
    ValidSize(t);
    Frame(EscapedRecords(t, component))
  }

  /** The escaped document is the generator's whenever no field holds `&`, `<` or `>`. */
  lemma EscapedDocumentOnPlainText(t: LabelTable, component: string)
    requires t.Valid()
    requires NoSpecial(component) && forall k :: k in t.values ==> NoSpecial(k) && NoSpecial(t.values[k])
    ensures EscapedXmlLines(t, component) == XmlLines(t, component)
  {
    EscapedRecordsOnPlainText(t, component);
  }

  lemma EscapedRecordsOnPlainText(t: LabelTable, component: string)
    requires t.Valid()
    requires NoSpecial(component) && forall k :: k in t.values ==> NoSpecial(k) && NoSpecial(t.values[k])
    ensures EscapedRecords(t, component) == Records(t, component)
  {
    var e := EscapedRecords(t, component);
    var r := Records(t, component);
    forall i | 0 <= i < |t.order| ensures e[i] == r[i] {
      var k := t.order[i];
      EscapedRecordIsRecordOnPlainText(k, component, t.values[k]);
      assert e[i] == XmlRecordEscaped(k, component, t.values[k]);
    }
  }

  /** The record on line `i` of the escaped document reads back as the `i - 2`-th key, the component and that key's text. */
  lemma EscapedRecordLine(t: LabelTable, component: string, i: int)
    requires t.Valid() && 2 <= i < |t.order| + 2
    ensures |EscapedXmlLines(t, component)| == |t.order| + 3
    ensures ReadRecord(EscapedXmlLines(t, component)[i])
      == Some(Fields(t.order[i - 2], component, t.values[t.order[i - 2]], t.values[t.order[i - 2]]))
  {
    ValidSize(t);
    var lines := EscapedXmlLines(t, component);
    assert lines[i] == lines[2..|lines| - 1][i - 2];
  }

  /**
   * Every record of the escaped document reads back as a key of the table,
   * with the component as its category and the key's text in both text fields.
   */
  lemma EscapedRecordsAreKeys(t: LabelTable, component: string)
    requires t.Valid()
    ensures forall i :: 2 <= i < |t.values| + 2 ==>
      var r := ReadRecord(EscapedXmlLines(t, component)[i]);
      r.Some? && r.value.fullName in t.values
      && r.value == Fields(r.value.fullName, component, t.values[r.value.fullName], t.values[r.value.fullName])
  {
    ValidSize(t);
    forall i | 2 <= i < |t.values| + 2
      ensures ReadRecord(EscapedXmlLines(t, component)[i])
        == Some(Fields(t.order[i - 2], component, t.values[t.order[i - 2]], t.values[t.order[i - 2]]))
    {
      EscapedRecordLine(t, component, i);
    }
  }

  /** Every key has a record in the escaped document carrying its text, and no two records share a key. */
  lemma EscapedOneRecordPerKey(t: LabelTable, component: string)
    requires t.Valid()
    ensures forall k :: k in t.values ==>
      exists i :: 2 <= i < |t.values| + 2 && ReadRecord(EscapedXmlLines(t, component)[i]) == Some(Fields(k, component, t.values[k], t.values[k]))
    ensures forall i, j :: 2 <= i < j < |t.values| + 2 ==>
      ReadRecord(EscapedXmlLines(t, component)[i]).Some? && ReadRecord(EscapedXmlLines(t, component)[j]).Some? &&
      ReadRecord(EscapedXmlLines(t, component)[i]).value.fullName != ReadRecord(EscapedXmlLines(t, component)[j]).value.fullName
  {
    ValidSize(t);
    forall k | k in t.values
      ensures exists i :: 2 <= i < |t.values| + 2 && ReadRecord(EscapedXmlLines(t, component)[i]) == Some(Fields(k, component, t.values[k], t.values[k]))
    {
      assert k in t.order;
      var j :| 0 <= j < |t.order| && t.order[j] == k;
      EscapedRecordLine(t, component, j + 2);
    }
    forall i, j | 2 <= i < j < |t.values| + 2
      ensures ReadRecord(EscapedXmlLines(t, component)[i]).Some? && ReadRecord(EscapedXmlLines(t, component)[j]).Some?
      ensures ReadRecord(EscapedXmlLines(t, component)[i]).value.fullName != ReadRecord(EscapedXmlLines(t, component)[j]).value.fullName
    {
      EscapedRecordLine(t, component, i);
      EscapedRecordLine(t, component, j);
    }
  }
}
