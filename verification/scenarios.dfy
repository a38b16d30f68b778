/** Worked examples of the generator on small inputs. */
module Scenarios {
  import opened Results
  import opened Chars
  import opened Placeholders
  import opened LabelNames
  import opened LabelTables
  import opened Extraction
  import opened ExtractionProperties

  /** Lower-casing two title-cased words separated by a space gives the words back. */
  lemma LowerOfTitledPair(v: string, w: string)
    requires IsWord(v) && IsWord(w)
    ensures Lower(Title(v) + " " + Title(w)) == v + " " + w
  {
    TitleOfWord(v, false);
    TitleOfWord(w, false);
    LowerDistributes(Title(v) + " ", Title(w));
    LowerDistributes(Title(v), " ");
    assert Lower(" ") == " ";
  }

  /** Every character of a title-cased word is a letter or a digit. */
  lemma TitleChars(w: string)
    requires IsWord(w)
    ensures forall i :: 0 <= i < |Title(w)| ==> IsLetter(Title(w)[i]) || IsDigit(Title(w)[i])
  {
    TitleOfWord(w, false);
  }

  /**
   * Two title-cased words separated by a space, followed by punctuation,
   * clean and split into the two words.
   */
  lemma TitledPairWords(v: string, w: string, tail: string)
    requires IsWord(v) && IsWord(w)
    requires forall i :: 0 <= i < |tail| ==> !Kept(tail[i])
    ensures CleanWords(Title(v) + " " + Title(w) + tail) == [v, w]
  {
    var shown := Title(v) + " " + Title(w);
    TitleChars(v);
    TitleChars(w);
    assert forall i :: 0 <= i < |shown| ==> Kept(shown[i]) by {
      forall i | 0 <= i < |shown| ensures Kept(shown[i]) {
        if i < |Title(v)| {
          assert shown[i] == Title(v)[i];
        } else if i > |Title(v)| {
          assert shown[i] == Title(w)[i - |Title(v)| - 1];
        }
      }
    }
    CleanKeepsThenDrops(shown, tail);
    LowerOfTitledPair(v, w);
    TwoWords(v, w);
  }

  lemma SubmitOrderWords()
    ensures CleanWords("Submit Order!") == ["submit", "order"]
  {
    SubmitAndOrderTitled();
    assert Title("submit") + " " + Title("order") == "Submit Order";
    assert "Submit Order" + "!" == "Submit Order!";
    assert IsWord("submit") && IsWord("order") && !Kept('!');
    TitledPairWords("submit", "order", "!");
  }

  /** camelCase keeps the first word as it is and title-cases the rest. */
  lemma CamelRender(ws: seq<string>)
    requires ws != [] && forall k :: 0 <= k < |ws| ==> IsWord(ws[k])
    ensures Render(CamelCase, ws) == Lower(ws[0]) + TitleJoin(ws[1..])
  {
  }

  lemma TitleJoinTwo(v: string, w: string)
    requires IsWord(v) && IsWord(w)
    ensures TitleJoin([v, w]) == Title(v) + Title(w)
  {
    assert [v, w][1..] == [w];
    assert [w][1..] == [];
  }

  /** Title-casing after a letter lower-cases, which leaves lower-case letters alone. */
  lemma {:induction false} TitleAfterLetterKeeps(w: string)
    requires forall i :: 0 <= i < |w| ==> IsLower(w[i])
    ensures TitleAfter(w, true) == w
  {
    if w != [] {
      TitleAfterLetterKeeps(w[1..]);
      assert w == [w[0]] + w[1..];
    }
  }

  /** A lower-case word is title-cased by upper-casing its first letter. */
  lemma TitleOfLowerWord(w: string)
    requires w != [] && forall i :: 0 <= i < |w| ==> IsLower(w[i])
    ensures Title(w) == [ToUpper(w[0])] + w[1..]
  {
    TitleAfterLetterKeeps(w[1..]);
  }

  lemma SubmitAndOrderTitled()
    ensures Title("submit") == "Submit" && Title("order") == "Order"
  {
    TitleOfLowerWord("submit");
    assert ToUpper('s') == 'S';
    assert "submit"[1..] == "ubmit";
    assert ['S'] + "ubmit" == "Submit";
    TitleOfLowerWord("order");
    assert ToUpper('o') == 'O';
    assert "order"[1..] == "rder";
    assert ['O'] + "rder" == "Order";
  }

  /** camelCase on two words: the first as it is, the second title-cased. */
  lemma CamelRenderTwo(v: string, w: string)
    requires IsWord(v) && IsWord(w)
    ensures Render(CamelCase, [v, w]) == v + Title(w)
  {
    CamelRender([v, w]);
    LowerKeepsWord(v);
    assert [v, w][1..] == [w];
    assert TitleJoin([w]) == Title(w) + TitleJoin([]) by {
      assert [w][1..] == [];
    }
  }

  /** camelCase on three words: the first as it is, the other two title-cased. */
  lemma CamelRenderThree(u: string, v: string, w: string)
    requires IsWord(u) && IsWord(v) && IsWord(w)
    ensures Render(CamelCase, [u, v, w]) == u + (Title(v) + Title(w))
  {
    CamelRender([u, v, w]);
    LowerKeepsWord(u);
    assert [u, v, w][1..] == [v, w];
    TitleJoinTwo(v, w);
  }

  lemma SubmitOrderRendered()
    ensures Render(CamelCase, ["submit", "order"]) == "submitOrder"
  {
    assert IsWord("submit") && IsWord("order");
    CamelRenderTwo("submit", "order");
    SubmitAndOrderTitled();
    assert "submit" + "Order" == "submitOrder";
  }

  lemma ButtonSubmitOrderCased()
    ensures Render(CamelCase, ["btn", "submit", "order"]) == "btn" + (Title("submit") + Title("order"))
  {
    assert IsWord("btn") && IsWord("submit") && IsWord("order");
    CamelRenderThree("btn", "submit", "order");
  }

  lemma ButtonSubmitOrderJoined()
    ensures "btn" + (Title("submit") + Title("order")) == "btnSubmitOrder"
  {
    SubmitAndOrderTitled();
  }

  lemma ButtonSubmitOrderRendered()
    ensures Render(CamelCase, ["btn", "submit", "order"]) == "btnSubmitOrder"
  {
    ButtonSubmitOrderCased();
    ButtonSubmitOrderJoined();
  }

  /** A text whose words are known is named by rendering them, prefix first. */
  lemma NameOfWords(style: NamingStyle, text: string, prefix: string, words: seq<string>, name: string)
    requires forall i :: 0 <= i < |prefix| ==> IsWordChar(prefix[i])
    requires CleanWords(text) == words && words != []
    requires Render(style, NameWords(prefix, words)) == name
    ensures CreateLabelName(StyleName(style), text, prefix) == Success(name)
  {
    NameUnderStyle(style, text, prefix);
  }

  lemma ButtonWordsListed()
    ensures [ButtonPrefix] + ["submit", "order"] == ["btn", "submit", "order"]
  {
  }

  lemma PrefixedNameOfWords(style: NamingStyle, text: string, prefix: string, words: seq<string>, name: string)
    requires prefix != [] && forall i :: 0 <= i < |prefix| ==> IsWordChar(prefix[i])
    requires CleanWords(text) == words && words != []
    requires Render(style, [prefix] + words) == name
    ensures CreateLabelName(StyleName(style), text, prefix) == Success(name)
  {
    NameUnderStyle(style, text, prefix);
  }

  /** `Submit Order!` in camelCase: punctuation dropped, the second word title-cased. */
  lemma SubmitOrderName()
    ensures CreateLabelName("camelCase", "Submit Order!", []) == Success("submitOrder")
  {
    SubmitOrderWords();
    SubmitOrderRendered();
    NameOfWords(CamelCase, "Submit Order!", [], ["submit", "order"], "submitOrder");
  }

  /** The same text on a button: `btn` leads and the first word is title-cased too. */
  lemma ButtonSubmitOrderName()
    ensures CreateLabelName("camelCase", "Submit Order!", ButtonPrefix) == Success("btnSubmitOrder")
  {
    SubmitOrderWords();
    ButtonSubmitOrderRendered();
    ButtonPrefixIsWord();
    ButtonWordsListed();
    PrefixedNameOfWords(CamelCase, "Submit Order!", ButtonPrefix, ["submit", "order"], "btnSubmitOrder");
  }

  lemma SubmitOrderConcat()
    ensures Concat(["submit", "order"]) == "submitorder"
  {
    assert ["submit", "order"][1..] == ["order"];
    assert ["order"][1..] == [];
  }

  /**
   * Deriving a name again from the camelCase name `submitOrder` does not
   * return it: the name is a single word to `split()`, and the word is
   * lower-cased.
   */
  lemma CamelNameIsNotAFixpoint()
    ensures CreateLabelName("camelCase", "submitOrder", []) == Success("submitorder")
  {
    SubmitOrderWords();
    SubmitOrderName();
    CamelRenameLowers("Submit Order!");
    CamelAndPascalLowerToWords("Submit Order!", []);
    SubmitOrderConcat();
  }

  lemma OrdinalWords()
    ensures CleanWords("2nd") == ["2nd"]
  {
    assert IsLetter('n') && IsLetter('d') && IsDigit('2');
    OneTokenCleansToOneWord("2nd");
    assert IsWord("2nd");
    LowerKeepsWord("2nd");
  }

  lemma OrdinalTitled()
    ensures Title("2nd") == "2Nd"
  {
    assert "2nd"[1..] == "nd";
    assert TitleAfter("nd", false) == ['N'] + TitleAfter("d", true);
    assert "nd"[1..] == "d";
    assert TitleAfter("d", true) == "d";
  }

  lemma OrdinalRendered()
    ensures Render(PascalCase, ["2nd"]) == "2Nd"
  {
    assert IsWord("2nd");
    assert TitleJoin(["2nd"]) == Title("2nd") + TitleJoin([]);
    OrdinalTitled();
  }

  /** `2nd` in PascalCase: `title()` upper-cases the letter after the digit. */
  lemma OrdinalInPascalCase()
    ensures CreateLabelName("PascalCase", "2nd", []) == Success("2Nd")
  {
    OrdinalWords();
    OrdinalRendered();
    NameOfWords(PascalCase, "2nd", [], ["2nd"], "2Nd");
  }

  /** Text with no letter or digit gets the empty name under every style string, even an unknown one. */
  lemma PunctuationGetsEmptyName(style: string)
    ensures CreateLabelName(style, "!!!", []) == Success([])
  {
    CleanDrops("!!!");
    assert Words([]) == [];
  }

  /**
   * A paragraph holding only punctuation is still extracted: it is written
   * under the empty key and replaced by the placeholder `{label.}`.
   */
  lemma PunctuationParagraph(style: string)
    ensures VisitText(style, [Element("p", None)], TextNode(Child(0), "!!!"))
      == Success((TextNode(Child(0), "{label.}"), [Entry("", "!!!")]))
  {
    var elements := [Element("p", None)];
    var t := TextNode(Child(0), "!!!");
    StripTrimmed("!!!");
    assert !LooksLikePlaceholder("!!!");
    GuardMatchesRegex("!!!");
    assert "p" in TextTags;
    assert Accepts(elements, t);
    PunctuationGetsEmptyName(style);
    assert Placeholder([]) == "{label.}";
  }

  /** The guard recognises the placeholder of a generated name, so a second run leaves it alone. */
  lemma SavePlaceholderIsGuarded()
    ensures LooksLikePlaceholder(Placeholder("btnSave"))
  {
    assert '\n' !in "btnSave";
    PlaceholderIsGuarded("btnSave");
  }

  lemma OkLowered()
    ensures Lower("OK") == "ok" && Lower("Ok") == "ok"
  {
    assert ToLower('O') == 'o' && ToLower('K') == 'k' && ToLower('k') == 'k';
  }

  /** `OK` is named `ok` in camelCase. */
  lemma UpperOkNamed()
    ensures CreateLabelName("camelCase", "OK", []) == Success("ok")
  {
    assert IsLetter('O') && IsLetter('K');
    OkLowered();
    OneTokenRenamesToLower("OK");
  }

  /** `Ok!` is named `ok` in camelCase: the `!` is cleaned away. */
  lemma OkBangNamed()
    ensures CreateLabelName("camelCase", "Ok!", []) == Success("ok")
  {
    assert IsLetter('O') && IsLetter('k') && !Kept('!');
    assert "Ok" + "!" == "Ok!";
    OkLowered();
    OneTokenThenPunctuation("Ok", "!");
  }

  /** `OK` and `Ok!` clean to one word each, and camelCase names both `ok`. */
  lemma OkTextsShareName()
    ensures CreateLabelName("camelCase", "OK", []) == Success("ok")
    ensures CreateLabelName("camelCase", "Ok!", []) == Success("ok")
  {
    UpperOkNamed();
    OkBangNamed();
  }

  /** Two writes of one key leave one label, holding the text written last. */
  lemma SameKeyTwice(key: string, first: string, second: string)
    ensures PutAll(EmptyTable, [Entry(key, first), Entry(key, second)]) == LabelTable([key], map[key := second])
  {
    var ws := [Entry(key, first), Entry(key, second)];
    var once := Put(EmptyTable, ws[0]);
    assert once == LabelTable([key], map[key := first]);
    var twice := Put(once, ws[1]);
    assert twice == LabelTable([key], map[key := second]);
    assert ws[1..][1..] == [];
    assert PutAll(EmptyTable, ws) == PutAll(once, ws[1..]);
    assert PutAll(once, ws[1..]) == PutAll(twice, []);
  }

  /**
   * Two texts that clean to the same name, `OK` and `Ok!`, write the same key
   * twice: the table keeps one label, holding the text written last.
   */
  lemma DuplicateNameCollapses()
    ensures CreateLabelName("camelCase", "OK", []).Success? && CreateLabelName("camelCase", "Ok!", []).Success?
    ensures PutAll(EmptyTable, [Entry(CreateLabelName("camelCase", "OK", []).value, "OK"),
                                Entry(CreateLabelName("camelCase", "Ok!", []).value, "Ok!")])
      == LabelTable(["ok"], map["ok" := "Ok!"])
  {
    OkTextsShareName();
    SameKeyTwice("ok", "OK", "Ok!");
  }
}
