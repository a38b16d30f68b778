/**
 * The extraction pass of `process_html` (lwc_label_generator.py:75-112) over an
 * abstract document: the elements in document order, each with its tag and its
 * optional `label` attribute, and the text nodes in document order, each
 * pointing at its parent. The button pass rewrites `label` attributes of
 * `lightning-button` and `button` elements; the text pass then rewrites the
 * accepted text nodes. Both record `name -> raw text` writes into the label
 * table and count what they rewrote.
 */
module Extraction {
  import opened Results
  import opened Chars
  import opened Placeholders
  import opened LabelNames
  import opened LabelTables

  /** Tags whose text content becomes a label (line 24). */
  const TextTags: seq<string> := ["p", "a", "h1", "h2", "h3", "h4", "h5", "h6", "span", "div", "label", "th", "td"]

  /** Prefix of the names derived from button labels (line 99). */
  const ButtonPrefix: string := "btn"

  lemma ButtonPrefixIsWord()
    ensures forall i :: 0 <= i < |ButtonPrefix| ==> IsWordChar(ButtonPrefix[i])
  {
  }

  /** The name the parser gives the document itself, the parent of top-level text. */
  const RootTag: string := "[document]"

  datatype Element = Element(tag: string, labelAttr: Option<string>)

  datatype Parent = Root | Child(index: nat)

  datatype TextNode = TextNode(parent: Parent, text: string)

  datatype Document = Document(elements: seq<Element>, texts: seq<TextNode>)

  /** The counters of `self.metrics`. */
  datatype Metrics = Metrics(totalLabels: nat, buttonLabels: nat, textElements: nat)

  /** The rewritten document, the label table and the counters after `process_html`. */
  datatype Extraction = Extraction(document: Document, table: LabelTable, metrics: Metrics)

  /** One pass's rewritten nodes and its table writes, in document order. */
  datatype Pass<T> = Pass(nodes: seq<T>, writes: seq<Entry>)

  /** Every text node's parent is the root or an element of the document. */
  predicate ParentsExist(elements: seq<Element>, texts: seq<TextNode>) {
    forall i :: 0 <= i < |texts| ==> texts[i].parent.Child? ==> texts[i].parent.index < |elements|
  }

  predicate WellFormed(doc: Document) {
    ParentsExist(doc.elements, doc.texts)
  }

  function ParentTag(elements: seq<Element>, t: TextNode): string
    requires t.parent.Child? ==> t.parent.index < |elements|
  {
    match t.parent
    case Root => RootTag
    case Child(i) => elements[i].tag
  }

  /** `element.parent.get('label')`: absent on the root and on elements without the attribute. */
  function ParentLabel(elements: seq<Element>, t: TextNode): Option<string>
    requires t.parent.Child? ==> t.parent.index < |elements|
  {
    match t.parent
    case Root => None
    case Child(i) => elements[i].labelAttr
  }

  /**
   * `should_process_text` (lines 75-89): a text node becomes a label exactly
   * when its stripped text is non-empty, is not already placeholder-shaped,
   * its parent is not `script` or `style`, and the parent is a text tag or a
   * `lightning-button` whose `label` equals the stripped text.
   */
  function ShouldProcessText(text: string, parentTag: string, parentLabel: Option<string>): (accept: bool)
    ensures accept <==>
      && Strip(text) != []
      && !MatchesPattern(Strip(text))
      && parentTag != "script" && parentTag != "style"
      && (parentTag in TextTags || (parentTag == "lightning-button" && parentLabel == Some(Strip(text))))
  {
    var s := Strip(text);
    GuardMatchesRegex(s);
    if LooksLikePlaceholder(s) then false
    else if s == [] then false
    else if parentTag in ["script", "style"] then false
    else if parentTag !in TextTags && !(parentTag == "lightning-button" && parentLabel == Some(s)) then false
    else true
  }

  predicate Accepts(elements: seq<Element>, t: TextNode)
    requires t.parent.Child? ==> t.parent.index < |elements|
  {
    ShouldProcessText(t.text, ParentTag(elements, t), ParentLabel(elements, t))
  }

  /** `button.get('label', '')`. */
  function LabelOf(e: Element): string {
    e.labelAttr.GetOr([])
  }

  predicate IsButton(e: Element) {
    e.tag == "lightning-button" || e.tag == "button"
  }

  /** A button the pass relabels: its label is non-empty and not placeholder-shaped (line 97). */
  predicate Qualifies(e: Element) {
    IsButton(e) && LabelOf(e) != [] && !LooksLikePlaceholder(LabelOf(e))
  }

  /** Reference definition: the labels of the qualifying buttons, in document order. */
  function QualifyingLabels(es: seq<Element>): seq<string> {
    if es == [] then []
    else (if Qualifies(es[0]) then [LabelOf(es[0])] else []) + QualifyingLabels(es[1..])
  }

  /** Reference definition: the stripped texts of the accepted text nodes, in document order. */
  function AcceptedTexts(elements: seq<Element>, ts: seq<TextNode>): seq<string>
    requires ParentsExist(elements, ts)
  {
    if ts == [] then []
    else (if Accepts(elements, ts[0]) then [Strip(ts[0].text)] else []) + AcceptedTexts(elements, ts[1..])
  }

  /** Generated names contain no newline, so their placeholders are caught by the guard. */
  lemma NameIsGuarded(name: string)
    requires forall i :: 0 <= i < |name| ==> IsNameChar(name[i])
    ensures LooksLikePlaceholder(Placeholder(name))
    ensures MatchesPattern(Placeholder(name))
    ensures Strip(Placeholder(name)) == Placeholder(name)
  {
    PlaceholderIsGuarded(name);
    GuardMatchesRegex(Placeholder(name));
  }

  /**
   * One iteration of the button loop (lines 96-101): a qualifying button gets
   * its label replaced by the placeholder of the name derived from it with
   * prefix `btn` and yields one write `name -> label`; any other element is
   * left as it was and yields nothing. The result never qualifies.
   */
  function VisitButton(style: string, e: Element): (r: Result<(Element, seq<Entry>)>)
    ensures r.Success? ==> r.value.0.tag == e.tag && !Qualifies(r.value.0)
    ensures r.Success? && !Qualifies(e) ==> r.value == (e, [])
    ensures r.Success? && Qualifies(e) ==>
      && |r.value.1| == 1
      && r.value.1[0].raw == LabelOf(e)
      && CreateLabelName(style, LabelOf(e), ButtonPrefix) == Success(r.value.1[0].name)
      && r.value.0 == e.(labelAttr := Some(Placeholder(r.value.1[0].name)))
    ensures r.Failure? <==> Qualifies(e) && CreateLabelName(style, LabelOf(e), ButtonPrefix).Failure?
    ensures r.Failure? ==> r.error == UnsupportedStyle(style)
  {
    if Qualifies(e) then
      var name :- CreateLabelName(style, LabelOf(e), ButtonPrefix);
      NameIsGuarded(name);
      Success((e.(labelAttr := Some(Placeholder(name))), [Entry(name, LabelOf(e))]))
    else
      Success((e, []))
  }

  /** The button loop over all elements in document order; the first failure aborts it. */
  function ButtonPass(style: string, es: seq<Element>): (r: Result<Pass<Element>>)
    ensures r.Success? ==> |r.value.nodes| == |es|
    ensures r.Success? ==> forall i :: 0 <= i < |es| ==>
      VisitButton(style, es[i]).Success? && r.value.nodes[i] == VisitButton(style, es[i]).value.0
    ensures r.Failure? <==> exists i :: 0 <= i < |es| && VisitButton(style, es[i]).Failure?
    ensures r.Failure? ==> r.error == UnsupportedStyle(style)
  {
    if es == [] then Success(Pass([], []))
    else
      var visited :- VisitButton(style, es[0]);
      var rest :- ButtonPass(style, es[1..]);
      assert forall i :: 1 <= i < |es| ==> es[i] == es[1..][i - 1];
      Success(Pass([visited.0] + rest.nodes, visited.1 + rest.writes))
  }

  lemma ButtonPassStep(style: string, es: seq<Element>)
    requires es != [] && ButtonPass(style, es).Success?
    ensures VisitButton(style, es[0]).Success? && ButtonPass(style, es[1..]).Success?
    ensures ButtonPass(style, es).value.writes
      == VisitButton(style, es[0]).value.1 + ButtonPass(style, es[1..]).value.writes
  {
  }

  /**
   * The button pass writes the label of every qualifying button, in document
   * order, each under the name derived from it with prefix `btn`.
   */
  lemma {:induction false} ButtonPassWrites(style: string, es: seq<Element>)
    requires ButtonPass(style, es).Success?
    ensures Raws(ButtonPass(style, es).value.writes) == QualifyingLabels(es)
    ensures NamedWrites(style, ButtonPrefix, ButtonPass(style, es).value.writes)
  {
    if es != [] {
      ButtonPassStep(style, es);
      var head := VisitButton(style, es[0]).value.1;
      var tail := ButtonPass(style, es[1..]).value.writes;
      ButtonPassWrites(style, es[1..]);
      WritesOfConcat(head, tail);
      assert Raws(head) == if Qualifies(es[0]) then [LabelOf(es[0])] else [];
      NamedWritesConcat(style, ButtonPrefix, head, tail);
    }
  }

  /**
   * One iteration of the text loop (lines 104-110): an accepted node is
   * replaced by the placeholder of the name derived from its stripped text,
   * with no prefix, and yields one write `name -> stripped text`; any other
   * node is left as it was. The result is never accepted.
   */
  function VisitText(style: string, elements: seq<Element>, t: TextNode): (r: Result<(TextNode, seq<Entry>)>)
    requires t.parent.Child? ==> t.parent.index < |elements|
    ensures r.Success? ==> r.value.0.parent == t.parent && !Accepts(elements, r.value.0)
    ensures r.Success? && !Accepts(elements, t) ==> r.value == (t, [])
    ensures r.Success? && Accepts(elements, t) ==>
      && |r.value.1| == 1
      && r.value.1[0].raw == Strip(t.text)
      && CreateLabelName(style, Strip(t.text), []) == Success(r.value.1[0].name)
      && r.value.0 == t.(text := Placeholder(r.value.1[0].name))
    ensures r.Failure? <==> Accepts(elements, t) && CreateLabelName(style, Strip(t.text), []).Failure?
    ensures r.Failure? ==> r.error == UnsupportedStyle(style)
  {
    if Accepts(elements, t) then
      var text := Strip(t.text);
      var name :- CreateLabelName(style, text, []);
      NameIsGuarded(name);
      Success((t.(text := Placeholder(name)), [Entry(name, text)]))
    else
      Success((t, []))
  }

  /** The text loop over all text nodes in document order; the first failure aborts it. */
  function TextPass(style: string, elements: seq<Element>, ts: seq<TextNode>): (r: Result<Pass<TextNode>>)
    requires ParentsExist(elements, ts)
    ensures r.Success? ==> |r.value.nodes| == |ts|
    ensures r.Success? ==> forall i :: 0 <= i < |ts| ==>
      VisitText(style, elements, ts[i]).Success? && r.value.nodes[i] == VisitText(style, elements, ts[i]).value.0
    ensures r.Failure? <==> exists i :: 0 <= i < |ts| && VisitText(style, elements, ts[i]).Failure?
    ensures r.Failure? ==> r.error == UnsupportedStyle(style)
  {
    if ts == [] then Success(Pass([], []))
    else
      TextFailureShifts(style, elements, ts);
      var visited :- VisitText(style, elements, ts[0]);
      var rest :- TextPass(style, elements, ts[1..]);
      TextNodesShift(style, elements, ts, visited.0, rest.nodes);
      Success(Pass([visited.0] + rest.nodes, visited.1 + rest.writes))
  }

  /** A visit of the text nodes fails somewhere exactly when it fails on the first or on one of the rest. */
  lemma TextFailureShifts(style: string, elements: seq<Element>, ts: seq<TextNode>)
    requires ParentsExist(elements, ts) && ts != []
    ensures ParentsExist(elements, ts[1..])
    ensures (exists i :: 0 <= i < |ts| && VisitText(style, elements, ts[i]).Failure?) <==>
      VisitText(style, elements, ts[0]).Failure? || exists i :: 0 <= i < |ts[1..]| && VisitText(style, elements, ts[1..][i]).Failure?
  {
    assert forall i :: 0 <= i < |ts[1..]| ==> ts[1..][i] == ts[i + 1];
    if exists i :: 0 <= i < |ts| && VisitText(style, elements, ts[i]).Failure? {
      var i :| 0 <= i < |ts| && VisitText(style, elements, ts[i]).Failure?;
      if i > 0 {
        assert ts[1..][i - 1] == ts[i];
      }
    }
  }

  /** The visited nodes of the first text and of the rest, put together. */
  lemma TextNodesShift(style: string, elements: seq<Element>, ts: seq<TextNode>, first: TextNode, rest: seq<TextNode>)
    requires ParentsExist(elements, ts) && ts != [] && |rest| == |ts| - 1
    requires VisitText(style, elements, ts[0]).Success? && VisitText(style, elements, ts[0]).value.0 == first
    requires forall i :: 0 <= i < |ts| - 1 ==>
      VisitText(style, elements, ts[1..][i]).Success? && rest[i] == VisitText(style, elements, ts[1..][i]).value.0
    ensures forall i :: 0 <= i < |ts| ==>
      VisitText(style, elements, ts[i]).Success? && ([first] + rest)[i] == VisitText(style, elements, ts[i]).value.0
  {
    forall i | 0 <= i < |ts|
      ensures VisitText(style, elements, ts[i]).Success? && ([first] + rest)[i] == VisitText(style, elements, ts[i]).value.0
    {
      if i > 0 {
        TextNodeShiftAt(style, elements, ts, first, rest, i);
      }
    }
  }

  lemma TextNodeShiftAt(style: string, elements: seq<Element>, ts: seq<TextNode>, first: TextNode, rest: seq<TextNode>, i: int)
    requires ParentsExist(elements, ts) && 0 < i < |ts| && |rest| == |ts| - 1
    requires VisitText(style, elements, ts[1..][i - 1]).Success?
    requires rest[i - 1] == VisitText(style, elements, ts[1..][i - 1]).value.0
    ensures VisitText(style, elements, ts[i]).Success? && ([first] + rest)[i] == VisitText(style, elements, ts[i]).value.0
  {
    assert ts[1..][i - 1] == ts[i];
  }

  lemma TextPassStep(style: string, elements: seq<Element>, ts: seq<TextNode>)
    requires ParentsExist(elements, ts)
    requires ts != [] && TextPass(style, elements, ts).Success?
    ensures ParentsExist(elements, ts[1..])
    ensures VisitText(style, elements, ts[0]).Success? && TextPass(style, elements, ts[1..]).Success?
    ensures TextPass(style, elements, ts).value.writes
      == VisitText(style, elements, ts[0]).value.1 + TextPass(style, elements, ts[1..]).value.writes
  {
    assert forall i :: 1 <= i < |ts| ==> ts[i] == ts[1..][i - 1];
  }

  /**
   * The text pass writes the stripped text of every accepted node, in
   * document order, each under the name derived from it.
   */
  lemma {:induction false} TextPassWrites(style: string, elements: seq<Element>, ts: seq<TextNode>)
    requires ParentsExist(elements, ts)
    requires TextPass(style, elements, ts).Success?
    ensures Raws(TextPass(style, elements, ts).value.writes) == AcceptedTexts(elements, ts)
    ensures NamedWrites(style, [], TextPass(style, elements, ts).value.writes)
  {
    if ts != [] {
      TextPassStep(style, elements, ts);
      var head := VisitText(style, elements, ts[0]).value.1;
      var tail := TextPass(style, elements, ts[1..]).value.writes;
      TextPassWrites(style, elements, ts[1..]);
      WritesOfConcat(head, tail);
      assert Raws(head) == if Accepts(elements, ts[0]) then [Strip(ts[0].text)] else [];
      NamedWritesConcat(style, [], head, tail);
    }
  }

  lemma WritesOfConcat(a: seq<Entry>, b: seq<Entry>)
    ensures Raws(a + b) == Raws(a) + Raws(b)
  {
  }

  /** Writes whose names are derived from their texts. */
  predicate NamedWrites(style: string, prefix: string, ws: seq<Entry>)
    requires forall i :: 0 <= i < |prefix| ==> IsWordChar(prefix[i])
  {
    forall k :: 0 <= k < |ws| ==> CreateLabelName(style, ws[k].raw, prefix) == Success(ws[k].name)
  }

  lemma NamedWritesConcat(style: string, prefix: string, a: seq<Entry>, b: seq<Entry>)
    requires forall i :: 0 <= i < |prefix| ==> IsWordChar(prefix[i])
    requires NamedWrites(style, prefix, a) && NamedWrites(style, prefix, b)
    ensures NamedWrites(style, prefix, a + b)
  {
    forall k | |a| <= k < |a + b| ensures CreateLabelName(style, (a + b)[k].raw, prefix) == Success((a + b)[k].name) {
      assert (a + b)[k] == b[k - |a|];
    }
  }

  /** Both passes in order; the text pass sees the labels the button pass wrote. */
  function Passes(style: string, doc: Document): (r: Result<(Pass<Element>, Pass<TextNode>)>)
    requires WellFormed(doc)
    ensures r.Success? ==> |r.value.0.nodes| == |doc.elements| && ParentsExist(r.value.0.nodes, doc.texts)
    ensures r.Failure? ==> r.error == UnsupportedStyle(style)
  {
    var buttons :- ButtonPass(style, doc.elements);
    var texts :- TextPass(style, buttons.nodes, doc.texts);
    Success((buttons, texts))
  }

  /** Every label-table write of a run, buttons first, in document order. */
  function Writes(style: string, doc: Document): seq<Entry>
    requires WellFormed(doc) && Passes(style, doc).Success?
  {
    Passes(style, doc).value.0.writes + Passes(style, doc).value.1.writes
  }

  /**
   * `process_html` without the parsing and serialisation (lines 95-112): the
   * rewritten document, the table built from the writes of both passes in
   * order, and the counters. `total_labels` is the number of keys of the table.
   */
  function ProcessHtml(style: string, doc: Document): (r: Result<Extraction>)
    requires WellFormed(doc)
    ensures r.Success? <==> Passes(style, doc).Success?
    ensures r.Failure? ==> r.error == UnsupportedStyle(style)
    ensures r.Success? ==> WellFormed(r.value.document) && r.value.table.Valid()
    ensures r.Success? ==> |r.value.document.elements| == |doc.elements| && |r.value.document.texts| == |doc.texts|
    ensures r.Success? ==> r.value.table == PutAll(EmptyTable, Writes(style, doc))
    ensures r.Success? ==> r.value.metrics.totalLabels == |r.value.table.values|
  {
    match Passes(style, doc)
    case Failure(err) => Failure(err)
    case Success(passes) =>
      var (buttons, texts) := passes;
      var table := PutAll(EmptyTable, buttons.writes + texts.writes);
      assert ParentsExist(buttons.nodes, texts.nodes) by {
        forall i | 0 <= i < |texts.nodes|
          ensures texts.nodes[i].parent.Child? ==> texts.nodes[i].parent.index < |buttons.nodes|
        {
          assert texts.nodes[i].parent == VisitText(style, buttons.nodes, doc.texts[i]).value.0.parent;
        }
      }
      var metrics := Metrics(|table.values|, |buttons.writes|, |texts.writes|);
      Success(Extraction(Document(buttons.nodes, texts.nodes), table, metrics))
  }
}
