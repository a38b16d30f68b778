/**
 * `generate_js_file` (lwc_label_generator.py:121-135): the `labels.js` module
 * that imports every label of the table, in ascending name order, and
 * re-exports them as the members of one `label` object.
 */
module JsEmitter {
  import opened Chars
  import opened Sorting
  import opened LabelTables

  const ImportHead := "import "
  const ImportFrom := " from '@salesforce/label/c."
  const ImportTail := "';"
  const ExportIndent := "    "
  /** The opener carries its own leading newline, so the file has a blank line before it. */
  const ExportOpener := "\nexport const label = {"
  const ExportCloser := "};"

  /** `import <name> from '@salesforce/label/c.<name>';` */
  function ImportLine(name: string): (line: string)
    ensures |line| == |ImportHead| + 2 * |name| + |ImportFrom| + |ImportTail|
    ensures line[|ImportHead|..|ImportHead| + |name|] == name
  {
    ImportHead + name + ImportFrom + name + ImportTail
  }

  /** Different names give different import lines. */
  lemma ImportLineInjective(a: string, b: string)
    ensures ImportLine(a) == ImportLine(b) <==> a == b
  {
    if ImportLine(a) == ImportLine(b) {
      assert |a| == |b|;
    }
  }

  /** `    <name>,`, one member of the exported object. */
  function ExportLine(name: string): (line: string)
    ensures |line| == |ExportIndent| + |name| + 1
    ensures line[..|ExportIndent|] == ExportIndent && line[|line| - 1] == ','
    ensures line[|ExportIndent|..|line| - 1] == name
  {
    ExportIndent + name + ","
  }

  /** `labels = list(self.labels.keys()); labels.sort()`. */
  function SortedNames(t: LabelTable): (names: seq<string>)
    requires t.Valid()
    ensures StrictlySorted(names)
    ensures forall k :: k in names <==> k in t.values
    ensures |names| == |t.values|
  {
    var names := Sort(t.order);
    assert forall k :: k in names <==> k in t.values by {
      forall k ensures k in names <==> k in t.order {
        assert k in names <==> k in multiset(names);
        assert k in t.order <==> k in multiset(t.order);
      }
    }
    ValidSize(t);
    names
  }

  function Imports(names: seq<string>): (lines: seq<string>)
    ensures |lines| == |names| && forall i :: 0 <= i < |names| ==> lines[i] == ImportLine(names[i])
  {
    seq(|names|, i requires 0 <= i < |names| => ImportLine(names[i]))
  }

  function Exports(names: seq<string>): (lines: seq<string>)
    ensures |lines| == |names| && forall i :: 0 <= i < |names| ==> lines[i] == ExportLine(names[i])
  {
    seq(|names|, i requires 0 <= i < |names| => ExportLine(names[i]))
  }

  /** The lines of the module, before they are joined with newlines. */
  function JsLines(t: LabelTable): (lines: seq<string>)
    requires t.Valid()
    ensures |lines| == 2 * |t.values| + 2
    ensures lines[|t.values|] == ExportOpener && lines[|lines| - 1] == ExportCloser
    ensures lines[..|t.values|] == Imports(SortedNames(t))
    ensures lines[|t.values| + 1..2 * |t.values| + 1] == Exports(SortedNames(t))
  {
    var names := SortedNames(t);
    var imports := Imports(names);
    var exports := Exports(names);
    var lines := imports + [ExportOpener] + exports + [ExportCloser];
    assert lines[..|names|] == imports;
    assert lines[|names| + 1..2 * |names| + 1] == exports;
    lines
  }

  /** `'\n'.join(js_content)`. */
  function JsFile(t: LabelTable): string
    requires t.Valid()
  {
    JoinWith(JsLines(t), '\n')
  }

  /**
   * Every key of the table is imported by exactly one line of the import
   * block, and nothing else is imported.
   */
  lemma JsImportsEachKeyOnce(t: LabelTable)
    requires t.Valid()
    ensures forall k :: k in t.values <==> exists i :: 0 <= i < |t.values| && JsLines(t)[i] == ImportLine(k)
    ensures forall i, j :: 0 <= i < j < |t.values| ==> JsLines(t)[i] != JsLines(t)[j]
  {
    var names := SortedNames(t);
    JsLinesAt(t);
    AscendingIsDistinct(names);
    ImportBlock(JsLines(t), names);
  }

  /** Lines importing a list without repeats import each listed name once and nothing else. */
  lemma ImportBlock(lines: seq<string>, names: seq<string>)
    requires |names| <= |lines| && Distinct(names)
    requires forall i :: 0 <= i < |names| ==> lines[i] == ImportLine(names[i])
    ensures forall k :: k in names <==> exists i :: 0 <= i < |names| && lines[i] == ImportLine(k)
    ensures forall i, j :: 0 <= i < j < |names| ==> lines[i] != lines[j]
  {
    forall k ensures k in names <==> exists i :: 0 <= i < |names| && lines[i] == ImportLine(k) {
      if k in names {
        var i :| 0 <= i < |names| && names[i] == k;
        assert lines[i] == ImportLine(k);
      }
      if exists i :: 0 <= i < |names| && lines[i] == ImportLine(k) {
        var i :| 0 <= i < |names| && lines[i] == ImportLine(k);
        ImportLineInjective(names[i], k);
      }
    }
    forall i, j | 0 <= i < j < |names| ensures lines[i] != lines[j] {
      ImportLineInjective(names[i], names[j]);
    }
  }

  /** An ascending list has no repeats. */
  lemma AscendingIsDistinct(names: seq<string>)
    requires StrictlySorted(names)
    ensures Distinct(names)
  {
    forall i, j | 0 <= i < j < |names| ensures names[i] != names[j] {
      BelowIrreflexive(names[i]);
    }
  }

  /**
   * The imports are in ascending name order, and the export block lists the
   * same names in the same order.
   */
  lemma JsImportsAscend(t: LabelTable)
    requires t.Valid()
    ensures forall i, j, a, b ::
      0 <= i < j < |t.values| && JsLines(t)[i] == ImportLine(a) && JsLines(t)[j] == ImportLine(b) ==> Below(a, b)
    ensures forall i, a ::
      0 <= i < |t.values| && JsLines(t)[i] == ImportLine(a) ==> JsLines(t)[|t.values| + 1 + i] == ExportLine(a)
  {
    var names := SortedNames(t);
    JsLinesAt(t);
    forall i, a | 0 <= i < |t.values| && JsLines(t)[i] == ImportLine(a) ensures names[i] == a {
      ImportLineInjective(names[i], a);
    }
  }

  /** Line `i` imports the `i`-th sorted name and line `n + 1 + i` exports it. */
  lemma JsLinesAt(t: LabelTable)
    requires t.Valid()
    ensures forall i :: 0 <= i < |t.values| ==>
      JsLines(t)[i] == ImportLine(SortedNames(t)[i]) && JsLines(t)[|t.values| + 1 + i] == ExportLine(SortedNames(t)[i])
  {
    BlocksAt(JsLines(t), SortedNames(t));
  }

  lemma BlocksAt(lines: seq<string>, names: seq<string>)
    requires |lines| == 2 * |names| + 2
    requires lines[..|names|] == Imports(names)
    requires lines[|names| + 1..2 * |names| + 1] == Exports(names)
    ensures forall i :: 0 <= i < |names| ==>
      lines[i] == ImportLine(names[i]) && lines[|names| + 1 + i] == ExportLine(names[i])
  {
    var n := |names|;
    forall i | 0 <= i < n ensures lines[i] == ImportLine(names[i]) && lines[n + 1 + i] == ExportLine(names[i]) {
      assert lines[..n][i] == lines[i];
      assert lines[n + 1..2 * n + 1][i] == lines[n + 1 + i];
    }
  }

  /**
   * The sorted names are the only ascending arrangement of the keys: an
   * independent description of what the import block lists.
   */
  lemma SortedNamesAreTheAscendingKeys(t: LabelTable, s: seq<string>)
    requires t.Valid()
    requires StrictlySorted(s) && forall k :: k in s <==> k in t.values
    ensures SortedNames(t) == s
  {
    SortedByMembers(SortedNames(t), s);
  }

  /**
   * The file's lines: the imports, one blank line, the opener, the exports and
   * the closing brace, provided no key contains a line break.
   */
  lemma JsFileLines(t: LabelTable)
    requires t.Valid()
    requires forall k :: k in t.values ==> '\n' !in k
    ensures SplitOn(JsFile(t), '\n')
      == Imports(SortedNames(t)) + ["", "export const label = {"] + Exports(SortedNames(t)) + ["};"]
  {
    var names := SortedNames(t);
    LinesAround(JsLines(t), Imports(names), Exports(names));
    SortedNamesHaveNoBreak(t);
    NoBreakInLines(names);
    BlocksSplit(Imports(names), Exports(names));
  }

  lemma SortedNamesHaveNoBreak(t: LabelTable)
    requires t.Valid()
    requires forall k :: k in t.values ==> '\n' !in k
    ensures forall i :: 0 <= i < |SortedNames(t)| ==> '\n' !in SortedNames(t)[i]
  {
    var names := SortedNames(t);
    forall i | 0 <= i < |names| ensures '\n' !in names[i] {
      assert names[i] in names;
    }
  }

  /** Splitting the joined blocks separates the opener's leading newline into a blank line. */
  lemma BlocksSplit(imports: seq<string>, exports: seq<string>)
    requires forall i :: 0 <= i < |imports| ==> '\n' !in imports[i]
    requires forall i :: 0 <= i < |exports| ==> '\n' !in exports[i]
    ensures SplitOn(JoinWith(imports + [ExportOpener] + (exports + [ExportCloser]), '\n'), '\n')
      == imports + ["", "export const label = {"] + exports + ["};"]
  {
    var rest := exports + [ExportCloser];
    var physical := imports + ["", "export const label = {"] + rest;
    OpenerJoinsAsTwoLines(imports, rest);
    PhysicalLinesHaveNoBreak(imports, exports);
    SplitJoin(physical, '\n');
    assert physical == imports + ["", "export const label = {"] + exports + ["};"];
  }

  /** The opener's leading newline makes it join like a blank line followed by the opener proper. */
  lemma OpenerJoinsAsTwoLines(imports: seq<string>, rest: seq<string>)
    requires rest != []
    ensures JoinWith(imports + [ExportOpener] + rest, '\n') == JoinWith(imports + ["", "export const label = {"] + rest, '\n')
  {
    assert ExportOpener == [] + ['\n'] + "export const label = {";
    JoinSplitsPiece(imports, [], "export const label = {", rest, '\n');
  }

  lemma PhysicalLinesHaveNoBreak(imports: seq<string>, exports: seq<string>)
    requires forall i :: 0 <= i < |imports| ==> '\n' !in imports[i]
    requires forall i :: 0 <= i < |exports| ==> '\n' !in exports[i]
    ensures var physical := imports + ["", "export const label = {"] + (exports + [ExportCloser]);
      physical != [] && forall k :: 0 <= k < |physical| ==> '\n' !in physical[k]
  {
    var physical := imports + ["", "export const label = {"] + (exports + [ExportCloser]);
    var n := |imports|;
    assert '\n' !in "export const label = {";
    assert '\n' !in ExportCloser;
    forall k | 0 <= k < |physical| ensures '\n' !in physical[k] {
      if k < n {
        assert physical[k] == imports[k];
      } else if k == n {
        assert physical[k] == "";
      } else if k == n + 1 {
        assert physical[k] == "export const label = {";
      } else if k < |physical| - 1 {
        assert physical[k] == exports[k - n - 2];
      } else {
        assert physical[k] == ExportCloser;
      }
    }
  }

  lemma LinesAround(lines: seq<string>, imports: seq<string>, exports: seq<string>)
    requires |imports| == |exports| && |lines| == 2 * |imports| + 2
    requires lines[..|imports|] == imports && lines[|imports|] == ExportOpener
    requires lines[|imports| + 1..2 * |imports| + 1] == exports && lines[|lines| - 1] == ExportCloser
    ensures lines == imports + [ExportOpener] + (exports + [ExportCloser])
  {
    var n := |imports|;
    assert lines == lines[..n] + [lines[n]] + (lines[n + 1..2 * n + 1] + [lines[2 * n + 1]]);
  }

  /** Generated lines contain a line break only where a name does. */
  lemma NoBreakInLines(names: seq<string>)
    requires forall i :: 0 <= i < |names| ==> '\n' !in names[i]
    ensures forall i :: 0 <= i < |names| ==> '\n' !in Imports(names)[i] && '\n' !in Exports(names)[i]
  {
    forall i | 0 <= i < |names| ensures '\n' !in Imports(names)[i] && '\n' !in Exports(names)[i] {
      var n := names[i];
      assert ImportLine(n) == ImportHead + n + ImportFrom + n + ImportTail;
      assert ExportLine(n) == ExportIndent + n + ",";
    }
  }
}
