/**
 * Label-name derivation, `create_label_name` (lwc_label_generator.py:54-73):
 * clean the text down to ASCII letters, digits and whitespace, lower-case it,
 * split it into words, put the optional prefix in front and join the words in
 * one of four casings.
 */
module LabelNames {
  import opened Results
  import opened Chars

  datatype NamingStyle = CamelCase | SnakeCase | PascalCase | UpperCase

  /** The style strings the generator compares `naming_style` against. */
  function StyleName(style: NamingStyle): string {
    match style
    case CamelCase => "camelCase"
    case SnakeCase => "snake_case"
    case PascalCase => "PascalCase"
    case UpperCase => "UPPER_CASE"
  }

  /** Recognises a style string; any other string is an unsupported style. */
  function ParseStyle(name: string): (r: Option<NamingStyle>)
    ensures r.Some? ==> StyleName(r.value) == name
    ensures forall style :: StyleName(style) == name ==> r == Some(style)
  {
    if name == "snake_case" then Some(SnakeCase)
    else if name == "camelCase" then Some(CamelCase)
    else if name == "PascalCase" then Some(PascalCase)
    else if name == "UPPER_CASE" then Some(UpperCase)
    else None
  }

  /** Characters that survive `re.sub(r'[^a-zA-Z0-9\s]', '', ...)`. */
  predicate Kept(c: char) {
    IsLetter(c) || IsDigit(c) || IsSpace(c)
  }

  /** The text with every character other than ASCII letters, digits and whitespace removed. */
  function Clean(s: string): (r: string)
    ensures |r| <= |s|
    ensures forall c :: c in r <==> c in s && Kept(c)
  {
    if s == [] then []
    else
      var rest := Clean(s[1..]);
      assert forall c :: c in s <==> c == s[0] || c in s[1..];
      if Kept(s[0]) then [s[0]] + rest else rest
  }

  /** Text made only of kept characters is left as it is. */
  lemma {:induction false} CleanKeeps(s: string)
    requires forall i :: 0 <= i < |s| ==> Kept(s[i])
    ensures Clean(s) == s
  {
    if s != [] {
      CleanKeeps(s[1..]);
      assert s == [s[0]] + s[1..];
    }
  }

  /** Cleaning works character by character, so it distributes over concatenation. */
  lemma {:induction false} CleanConcat(a: string, b: string)
    ensures Clean(a + b) == Clean(a) + Clean(b)
  {
    if a != [] {
      assert (a + b)[1..] == a[1..] + b;
      CleanConcat(a[1..], b);
    } else {
      assert a + b == b;
    }
  }

  /** Text with no kept character cleans to nothing. */
  lemma {:induction false} CleanDrops(s: string)
    requires forall i :: 0 <= i < |s| ==> !Kept(s[i])
    ensures Clean(s) == []
  {
    if s != [] {
      CleanDrops(s[1..]);
    }
  }

  /** Kept characters followed by dropped ones clean down to the kept ones. */
  lemma CleanKeepsThenDrops(a: string, b: string)
    requires forall i :: 0 <= i < |a| ==> Kept(a[i])
    requires forall i :: 0 <= i < |b| ==> !Kept(b[i])
    ensures Clean(a + b) == a
  {
    CleanConcat(a, b);
    CleanKeeps(a);
    CleanDrops(b);
    assert a + [] == a;
  }

  /** Whitespace around a text survives cleaning and lower-casing as it is. */
  lemma CleanAround(a: string, m: string, b: string)
    requires AllSpace(a) && AllSpace(b)
    ensures Lower(Clean(a + m + b)) == a + Lower(Clean(m)) + b
  {
    assert forall k :: 0 <= k < |a| ==> Kept(a[k]) by {
      forall k | 0 <= k < |a| ensures Kept(a[k]) { assert IsSpace(a[k]); }
    }
    assert forall k :: 0 <= k < |b| ==> Kept(b[k]) by {
      forall k | 0 <= k < |b| ensures Kept(b[k]) { assert IsSpace(b[k]); }
    }
    CleanConcat(a + m, b);
    CleanConcat(a, m);
    CleanKeeps(a);
    CleanKeeps(b);
    var cm := Clean(m);
    LowerDistributes(a + cm, b);
    LowerDistributes(a, cm);
    LowerSpaces(a);
    LowerSpaces(b);
  }

  /**
   * The strip at the start of `create_label_name` does not change the words:
   * whitespace survives cleaning and lower-casing, and `split()` ignores it
   * at either end.
   */
  lemma CleanWordsIgnoreStrip(s: string)
    ensures CleanWords(Strip(s)) == CleanWords(s)
  {
    var i, j :| 0 <= i <= j <= |s| && Strip(s) == s[i..j] && AllSpace(s[..i]) && AllSpace(s[j..]);
    var a, m, b := s[..i], s[i..j], s[j..];
    assert s == a + m + b;
    CleanAround(a, m, b);
    WordsAround(a, Lower(Clean(m)), b);
    assert CleanWords(s) == Words(Lower(Clean(s)));
    assert CleanWords(m) == Words(Lower(Clean(m)));
  }

  /** The words of the cleaned, lower-cased text: `clean_text.lower().split()`. */
  function CleanWords(text: string): (ws: seq<string>)
    ensures forall k :: 0 <= k < |ws| ==> IsWord(ws[k])
  {
    var low := Lower(Clean(text));
    var ws := Words(low);
    assert forall k :: 0 <= k < |ws| ==> IsWord(ws[k]) by {
      forall k, i | 0 <= k < |ws| && 0 <= i < |ws[k]| ensures IsWordChar(ws[k][i]) {
        var c := ws[k][i];
        var j :| 0 <= j < |low| && low[j] == c;
        assert Clean(text)[j] in Clean(text);
      }
    }
    ws
  }

  /** The word list after `words.insert(0, prefix)` when the prefix is non-empty. */
  function NameWords(prefix: string, words: seq<string>): seq<string> {
    if prefix != [] then [prefix] + words else words
  }

  /**
   * Python's `str.title()` restricted to ASCII: a letter is upper-cased when the
   * character before it is not a letter, and lower-cased otherwise.
   */
  function Title(w: string): string {
    TitleAfter(w, false)
  }

  function TitleAfter(w: string, afterLetter: bool): (r: string)
    ensures |r| == |w|
  {
    if w == [] then []
    else
      var c := w[0];
      var d := if !IsLetter(c) then c else if afterLetter then ToLower(c) else ToUpper(c);
      [d] + TitleAfter(w[1..], IsLetter(c))
  }

  /**
   * On a word of `[a-z0-9]` title-casing upper-cases exactly the letters that
   * come first or follow a digit (`"2nd"` becomes `"2Nd"`), and lower-casing
   * the result gives the word back.
   */
  lemma {:induction false} TitleOfWord(w: string, afterLetter: bool)
    requires forall i :: 0 <= i < |w| ==> IsWordChar(w[i])
    ensures forall i :: 0 <= i < |w| ==>
      TitleAfter(w, afterLetter)[i]
        == if IsLower(w[i]) && (if i == 0 then !afterLetter else IsDigit(w[i - 1])) then ToUpper(w[i]) else w[i]
    ensures Lower(TitleAfter(w, afterLetter)) == w
  {
    if w != [] {
      TitleOfWord(w[1..], IsLetter(w[0]));
      var r := TitleAfter(w, afterLetter);
      assert r[1..] == TitleAfter(w[1..], IsLetter(w[0]));
      forall i | 1 <= i < |w|
        ensures r[i] == if IsLower(w[i]) && IsDigit(w[i - 1]) then ToUpper(w[i]) else w[i]
      {
        assert r[i] == r[1..][i - 1];
        assert w[i] == w[1..][i - 1];
      }
      assert Lower(r) == [ToLower(r[0])] + Lower(r[1..]);
    }
  }

  /** `''.join(word.title() for word in ws)`. */
  function TitleJoin(ws: seq<string>): (r: string)
    requires forall k :: 0 <= k < |ws| ==> IsWord(ws[k])
    ensures forall i :: 0 <= i < |r| ==> IsLetter(r[i]) || IsDigit(r[i])
    ensures Lower(r) == Concat(ws)
  {
    if ws == [] then []
    else
      var t := Title(ws[0]);
      assert IsWord(ws[0]);
      TitleOfWord(ws[0], false);
      assert forall i :: 0 <= i < |t| ==> IsLetter(t[i]) || IsDigit(t[i]);
      LowerDistributes(t, TitleJoin(ws[1..]));
      t + TitleJoin(ws[1..])
  }

  /** Every character of a `JoinWith` is the separator or a character of some piece. */
  lemma JoinedChars(ws: seq<string>, sep: char)
    requires forall k :: 0 <= k < |ws| ==> IsWord(ws[k])
    ensures forall i :: 0 <= i < |JoinWith(ws, sep)| ==>
      JoinWith(ws, sep)[i] == sep || IsWordChar(JoinWith(ws, sep)[i])
  {
    var r := JoinWith(ws, sep);
    forall i | 0 <= i < |r| ensures r[i] == sep || IsWordChar(r[i]) {
      if r[i] != sep {
        assert r[i] in r;
        var k :| 0 <= k < |ws| && r[i] in ws[k];
        var j :| 0 <= j < |ws[k]| && ws[k][j] == r[i];
      }
    }
  }

  /** A word list joined in one of the four casings. */
  function Render(style: NamingStyle, ws: seq<string>): (name: string)
    requires ws != []
    requires forall k :: 0 <= k < |ws| ==> IsWord(ws[k])
    ensures name != []
    ensures forall i :: 0 <= i < |name| ==> IsNameChar(name[i])
    ensures '_' in name <==> (style == SnakeCase || style == UpperCase) && |ws| > 1
  {
    JoinedChars(ws, '_');
    assert |ws| > 1 ==> JoinWith(ws, '_')[|ws[0]|] == '_';
    assert |ws| == 1 ==> '_' !in JoinWith(ws, '_');
    match style
    case SnakeCase => JoinWith(ws, '_')
    case CamelCase =>
      var head := Lower(ws[0]);
      var tail := TitleJoin(ws[1..]);
      assert forall i :: 0 <= i < |head| ==> head[i] == ws[0][i];
      head + tail
    case PascalCase =>
      TitleJoin(ws)
    case UpperCase =>
      var joined := JoinWith(ws, '_');
      var up := Upper(joined);
      assert forall i :: 0 <= i < |up| ==> (up[i] == '_' <==> joined[i] == '_');
      up
  }

  /**
   * `create_label_name(text, prefix)` with the generator's `naming_style`.
   * The strip the source applies first is left out of the body: by
   * `NameIgnoresStrip` it does not change the name.
   * The word list is checked before the style, so text without words yields
   * `''` under every style string, and only a non-empty word list under an
   * unknown style raises the unsupported-style error.
   */
  function CreateLabelName(style: string, text: string, prefix: string): (r: Result<string>)
    requires forall i :: 0 <= i < |prefix| ==> IsWordChar(prefix[i])
    ensures r == Success([]) <==> CleanWords(text) == []
    ensures r.Failure? <==> CleanWords(text) != [] && ParseStyle(style).None?
    ensures r.Failure? ==> r.error == UnsupportedStyle(style)
    ensures r.Success? ==> forall i :: 0 <= i < |r.value| ==> IsNameChar(r.value[i])
    ensures r.Success? && '_' in r.value ==> ParseStyle(style) == Some(SnakeCase) || ParseStyle(style) == Some(UpperCase)
  {
    var words := CleanWords(text);
    if words == [] then Success([])
    else
      match ParseStyle(style)
      case Some(st) => Success(Render(st, NameWords(prefix, words)))
      case None => Failure(UnsupportedStyle(style))
  }

  /** Stripping the text first, as `create_label_name` does, gives the same result. */
  lemma NameIgnoresStrip(style: string, text: string, prefix: string)
    requires forall i :: 0 <= i < |prefix| ==> IsWordChar(prefix[i])
    ensures CreateLabelName(style, Strip(text), prefix) == CreateLabelName(style, text, prefix)
  {
    CleanWordsIgnoreStrip(text);
  }

  /** Under a supported style the name is the rendered (prefixed) word list, or `''` when there are no words. */
  lemma NameUnderStyle(style: NamingStyle, text: string, prefix: string)
    requires forall i :: 0 <= i < |prefix| ==> IsWordChar(prefix[i])
    ensures CleanWords(text) == [] ==> CreateLabelName(StyleName(style), text, prefix) == Success([])
    ensures CleanWords(text) != [] ==>
      CreateLabelName(StyleName(style), text, prefix) == Success(Render(style, NameWords(prefix, CleanWords(text))))
  {
    assert ParseStyle(StyleName(style)) == Some(style);
  }

  /**
   * snake_case names split back on `_` into the word list, prefix first; the
   * prefix is therefore the first word of the name.
   */
  lemma SnakeNameSplitsIntoWords(text: string, prefix: string)
    requires forall i :: 0 <= i < |prefix| ==> IsWordChar(prefix[i])
    requires CleanWords(text) != []
    ensures CreateLabelName(StyleName(SnakeCase), text, prefix).Success?
    ensures SplitOn(CreateLabelName(StyleName(SnakeCase), text, prefix).value, '_') == NameWords(prefix, CleanWords(text))
    ensures prefix != [] ==> SplitOn(CreateLabelName(StyleName(SnakeCase), text, prefix).value, '_')[0] == prefix
  {
    NameUnderStyle(SnakeCase, text, prefix);
    var ws := NameWords(prefix, CleanWords(text));
    forall k | 0 <= k < |ws| ensures '_' !in ws[k] {
      assert IsWord(ws[k]);
    }
    SplitJoin(ws, '_');
  }

  /** The UPPER_CASE name is the snake_case name upper-cased, and lowering it gives the snake_case name back. */
  lemma UpperNameIsSnakeUpperCased(text: string, prefix: string)
    requires forall i :: 0 <= i < |prefix| ==> IsWordChar(prefix[i])
    ensures CreateLabelName(StyleName(UpperCase), text, prefix)
      == Success(Upper(CreateLabelName(StyleName(SnakeCase), text, prefix).value))
    ensures Lower(CreateLabelName(StyleName(UpperCase), text, prefix).value)
      == CreateLabelName(StyleName(SnakeCase), text, prefix).value
  {
    NameUnderStyle(SnakeCase, text, prefix);
    NameUnderStyle(UpperCase, text, prefix);
    if CleanWords(text) != [] {
      var ws := NameWords(prefix, CleanWords(text));
      var snake := JoinWith(ws, '_');
      JoinedChars(ws, '_');
      LowerOfUpper(snake);
    }
  }

  /** camelCase and PascalCase differ only in letter case: both lower back to the words run together. */
  lemma CamelAndPascalLowerToWords(text: string, prefix: string)
    requires forall i :: 0 <= i < |prefix| ==> IsWordChar(prefix[i])
    requires CleanWords(text) != []
    ensures Lower(CreateLabelName(StyleName(CamelCase), text, prefix).value) == Concat(NameWords(prefix, CleanWords(text)))
    ensures Lower(CreateLabelName(StyleName(PascalCase), text, prefix).value) == Concat(NameWords(prefix, CleanWords(text)))
  {
    NameUnderStyle(CamelCase, text, prefix);
    NameUnderStyle(PascalCase, text, prefix);
    var ws := NameWords(prefix, CleanWords(text));
    var head := Lower(ws[0]);
    assert IsWord(ws[0]);
    assert head == ws[0];
    LowerDistributes(head, TitleJoin(ws[1..]));
  }

  /**
   * Where `title()` puts a capital in a word of `[a-z0-9]`: on a letter (every
   * letter of such a word is lower-case) that starts the word or follows a digit.
   */
  predicate CapitalAt(w: string, i: int)
    requires 0 <= i < |w|
  {
    IsLower(w[i]) && (i == 0 || IsDigit(w[i - 1]))
  }

  /** The character a title-cased word has at position `i`. */
  function TitledChar(w: string, i: int): char
    requires 0 <= i < |w|
  {
    if CapitalAt(w, i) then ToUpper(w[i]) else w[i]
  }

  /** Where word `k` of a list starts once the words are run together. */
  function WordStart(ws: seq<string>, k: int): nat
    requires 0 <= k <= |ws|
  {
    |Concat(ws[..k])|
  }

  /** Running words together: the words before `k`, then word `k`, then the rest. */
  lemma {:induction false} ConcatSplit(ws: seq<string>, k: int)
    requires 0 <= k < |ws|
    ensures Concat(ws) == Concat(ws[..k]) + ws[k] + Concat(ws[k + 1..])
  {
    if k == 0 {
      assert ws[..0] == [];
      assert ws[1..] == ws[k + 1..];
    } else {
      ConcatSplit(ws[1..], k - 1);
      assert ws[1..][..k - 1] == ws[..k][1..];
      assert ws[1..][k - 1] == ws[k];
      assert ws[1..][k..] == ws[k + 1..];
      assert ws[..k][0] == ws[0];
    }
  }

  /** After the first word, every word starts `|ws[0]|` later than it does among the rest. */
  lemma WordStartAfterFirst(ws: seq<string>, k: int)
    requires 0 < k <= |ws|
    ensures WordStart(ws, k) == |ws[0]| + WordStart(ws[1..], k - 1)
  {
    assert ws[..k][1..] == ws[1..][..k - 1];
    assert ws[..k][0] == ws[0];
  }

  /** A word title-cased character by character, as `TitledChar` says. */
  function TitledWord(w: string): (r: string)
    ensures |r| == |w|
  {
    seq(|w|, i requires 0 <= i < |w| => TitledChar(w, i))
  }

  /** Every word of a list title-cased. */
  function TitledWords(ws: seq<string>): (rs: seq<string>)
    ensures |rs| == |ws|
  {
    seq(|ws|, k requires 0 <= k < |ws| => TitledWord(ws[k]))
  }

  /** `title()` on a word of `[a-z0-9]` is the character-by-character title-casing. */
  lemma TitleIsTitledWord(w: string)
    requires IsWord(w)
    ensures Title(w) == TitledWord(w)
  {
    TitleOfWord(w, false);
  }

  /** Title-casing the words and running them together runs the title-cased words together. */
  lemma {:induction false} TitleJoinIsTitledWords(ws: seq<string>)
    requires forall k :: 0 <= k < |ws| ==> IsWord(ws[k])
    ensures TitleJoin(ws) == Concat(TitledWords(ws))
  {
    if ws != [] {
      TitleJoinIsTitledWords(ws[1..]);
      assert IsWord(ws[0]);
      TitleIsTitledWord(ws[0]);
      assert TitledWords(ws)[1..] == TitledWords(ws[1..]);
    }
  }

  /**
   * Where PascalCase puts its capitals (line 67): the name is the words run
   * together, each title-cased, so each letter that starts a word or follows
   * a digit is upper-case and every other character is the word's own.
   */
  lemma PascalCapitals(ws: seq<string>)
    requires ws != [] && forall k :: 0 <= k < |ws| ==> IsWord(ws[k])
    ensures Render(PascalCase, ws) == Concat(TitledWords(ws))
  {
    TitleJoinIsTitledWords(ws);
  }

  /**
   * Where camelCase puts its capitals (line 65): as in PascalCase, except that
   * the first word is left as it is.
   */
  lemma CamelCapitals(ws: seq<string>)
    requires ws != [] && forall k :: 0 <= k < |ws| ==> IsWord(ws[k])
    ensures Render(CamelCase, ws) == Concat([ws[0]] + TitledWords(ws[1..]))
  {
    TitleJoinIsTitledWords(ws[1..]);
    assert IsWord(ws[0]);
    LowerKeepsWord(ws[0]);
    assert ([ws[0]] + TitledWords(ws[1..]))[1..] == TitledWords(ws[1..]);
  }

  /** Character `i` of piece `k` sits at the piece's start plus `i` once the pieces are run together. */
  lemma ConcatAt(xs: seq<string>, k: int, i: int)
    requires 0 <= k < |xs| && 0 <= i < |xs[k]|
    ensures |Concat(xs[..k])| + i < |Concat(xs)| && Concat(xs)[|Concat(xs[..k])| + i] == xs[k][i]
  {
    ConcatSplit(xs, k);
  }

  /** Pieces of the same lengths start at the same places. */
  lemma {:induction false} SameLengthsSameStarts(xs: seq<string>, ys: seq<string>, k: int)
    requires |xs| == |ys| && forall j :: 0 <= j < |xs| ==> |xs[j]| == |ys[j]|
    requires 0 <= k <= |xs|
    ensures WordStart(xs, k) == WordStart(ys, k)
    decreases k
  {
    if k == 0 {
      assert xs[..0] == [] && ys[..0] == [];
    } else {
      SameLengthsSameStarts(xs[1..], ys[1..], k - 1);
      WordStartAfterFirst(xs, k);
      WordStartAfterFirst(ys, k);
      assert |xs[0]| == |ys[0]|;
    }
  }

  /** Pieces of the same lengths run together to the same length. */
  lemma SameLengthsSameTotal(xs: seq<string>, ys: seq<string>)
    requires |xs| == |ys| && forall j :: 0 <= j < |xs| ==> |xs[j]| == |ys[j]|
    ensures |Concat(xs)| == |Concat(ys)|
  {
    SameLengthsSameStarts(xs, ys, |xs|);
    assert xs[..|xs|] == xs && ys[..|ys|] == ys;
  }

  /** A string that runs together pieces as long as the words has piece `k`'s characters where word `k` starts. */
  lemma PieceAt(r: string, xs: seq<string>, ws: seq<string>, k: int, i: int)
    requires r == Concat(xs)
    requires |xs| == |ws| && forall j :: 0 <= j < |xs| ==> |xs[j]| == |ws[j]|
    requires 0 <= k < |ws| && 0 <= i < |ws[k]|
    ensures |r| == |Concat(ws)| && WordStart(ws, k) + i < |r| && r[WordStart(ws, k) + i] == xs[k][i]
  {
    SameLengthsSameStarts(xs, ws, k);
    SameLengthsSameTotal(xs, ws);
    ConcatAt(xs, k, i);
  }

  /** Character `i` of word `k` in the PascalCase rendering. */
  lemma PascalAt(ws: seq<string>, k: int, i: int)
    requires ws != [] && forall j :: 0 <= j < |ws| ==> IsWord(ws[j])
    requires 0 <= k < |ws| && 0 <= i < |ws[k]|
    ensures WordStart(ws, k) + i < |Concat(ws)|
    ensures |Render(PascalCase, ws)| == |Concat(ws)| && Render(PascalCase, ws)[WordStart(ws, k) + i] == TitledChar(ws[k], i)
  {
    PascalCapitals(ws);
    var ts := TitledWords(ws);
    assert ts[k][i] == TitledChar(ws[k], i);
    PieceAt(Render(PascalCase, ws), ts, ws, k, i);
  }

  /** Character `i` of word `k` in the camelCase rendering: the first word is left as it is. */
  lemma CamelAt(ws: seq<string>, k: int, i: int)
    requires ws != [] && forall j :: 0 <= j < |ws| ==> IsWord(ws[j])
    requires 0 <= k < |ws| && 0 <= i < |ws[k]|
    ensures WordStart(ws, k) + i < |Concat(ws)|
    ensures |Render(CamelCase, ws)| == |Concat(ws)|
    ensures Render(CamelCase, ws)[WordStart(ws, k) + i] == (if k == 0 then ws[k][i] else TitledChar(ws[k], i))
  {
    CamelCapitals(ws);
    var cs := [ws[0]] + TitledWords(ws[1..]);
    assert forall j :: 1 <= j < |ws| ==> cs[j] == TitledWord(ws[j]);
    assert cs[k][i] == (if k == 0 then ws[k][i] else TitledChar(ws[k], i));
    PieceAt(Render(CamelCase, ws), cs, ws, k, i);
  }

  /**
   * `create_label_name` under PascalCase and camelCase: the prefix and the
   * cleaned words, title-cased and run together, the first word left as it
   * is under camelCase.
   */
  lemma CamelAndPascalNames(text: string, prefix: string)
    requires forall i :: 0 <= i < |prefix| ==> IsWordChar(prefix[i])
    requires CleanWords(text) != []
    ensures CreateLabelName(StyleName(PascalCase), text, prefix)
      == Success(Concat(TitledWords(NameWords(prefix, CleanWords(text)))))
    ensures CreateLabelName(StyleName(CamelCase), text, prefix)
      == Success(Concat([NameWords(prefix, CleanWords(text))[0]] + TitledWords(NameWords(prefix, CleanWords(text))[1..])))
  {
    NameUnderStyle(CamelCase, text, prefix);
    NameUnderStyle(PascalCase, text, prefix);
    var ws := NameWords(prefix, CleanWords(text));
    assert prefix != [] ==> IsWord(prefix);
    assert forall k :: 0 <= k < |ws| ==> IsWord(ws[k]);
    PascalCapitals(ws);
    CamelCapitals(ws);
  }

  /**
   * The same, character by character: character `i` of word `k` of the
   * prefixed word list sits at that word's start in the run-together words
   * plus `i`, upper-cased exactly where `title()` puts a capital, except
   * that camelCase leaves the first word as it is. Both names are as long as
   * the words run together.
   */
  lemma CamelAndPascalNameAt(text: string, prefix: string, k: int, i: int)
    requires forall j :: 0 <= j < |prefix| ==> IsWordChar(prefix[j])
    requires CleanWords(text) != []
    requires 0 <= k < |NameWords(prefix, CleanWords(text))| && 0 <= i < |NameWords(prefix, CleanWords(text))[k]|
    ensures var ws := NameWords(prefix, CleanWords(text));
      && CreateLabelName(StyleName(PascalCase), text, prefix).Success?
      && CreateLabelName(StyleName(CamelCase), text, prefix).Success?
      && |CreateLabelName(StyleName(PascalCase), text, prefix).value| == |Concat(ws)|
      && |CreateLabelName(StyleName(CamelCase), text, prefix).value| == |Concat(ws)|
      && WordStart(ws, k) + i < |Concat(ws)|
      && CreateLabelName(StyleName(PascalCase), text, prefix).value[WordStart(ws, k) + i] == TitledChar(ws[k], i)
      && CreateLabelName(StyleName(CamelCase), text, prefix).value[WordStart(ws, k) + i]
        == (if k == 0 then ws[k][i] else TitledChar(ws[k], i))
  {
    NameUnderStyle(CamelCase, text, prefix);
    NameUnderStyle(PascalCase, text, prefix);
    var ws := NameWords(prefix, CleanWords(text));
    assert prefix != [] ==> IsWord(prefix);
    assert forall j :: 0 <= j < |ws| ==> IsWord(ws[j]);
    PascalAt(ws, k, i);
    CamelAt(ws, k, i);
  }

  /** A non-empty prefix leads every name, in the casing of its style. */
  lemma PrefixLeadsName(style: NamingStyle, text: string, prefix: string)
    requires forall i :: 0 <= i < |prefix| ==> IsWordChar(prefix[i])
    requires prefix != [] && CleanWords(text) != []
    ensures CreateLabelName(StyleName(style), text, prefix).Success?
    ensures |prefix| <= |CreateLabelName(StyleName(style), text, prefix).value|
    ensures Lower(CreateLabelName(StyleName(style), text, prefix).value[..|prefix|]) == prefix
  {
    NameUnderStyle(style, text, prefix);
    FirstWordLeads(style, NameWords(prefix, CleanWords(text)));
  }

  /** The first word of a list leads its rendering, up to case. */
  lemma FirstWordLeads(style: NamingStyle, ws: seq<string>)
    requires ws != [] && forall k :: 0 <= k < |ws| ==> IsWord(ws[k])
    ensures |ws[0]| <= |Render(style, ws)|
    ensures Lower(Render(style, ws)[..|ws[0]|]) == ws[0]
  {
    var w := ws[0];
    assert IsWord(w);
    LowerOfUpper(w);
    LowerKeepsWord(w);
    var snake := JoinWith(ws, '_');
    JoinStartsWithFirst(ws, '_');
    match style
    case SnakeCase =>
    case UpperCase =>
      assert Upper(snake)[..|w|] == Upper(w);
    case CamelCase =>
      assert Render(style, ws) == Lower(w) + TitleJoin(ws[1..]);
      assert Render(style, ws)[..|w|] == Lower(w);
    case PascalCase =>
      TitleOfWord(w, false);
      assert TitleJoin(ws) == Title(w) + TitleJoin(ws[1..]);
      assert Render(style, ws)[..|w|] == Title(w);
  }

  /** A word has no upper-case letter, so lower-casing keeps it. */
  lemma LowerKeepsWord(w: string)
    requires IsWord(w)
    ensures Lower(w) == w
  {
  }

  /** `sep.join(ws)` starts with the first piece. */
  lemma JoinStartsWithFirst(ws: seq<string>, sep: char)
    requires ws != []
    ensures |ws[0]| <= |JoinWith(ws, sep)| && JoinWith(ws, sep)[..|ws[0]|] == ws[0]
  {
    if |ws| > 1 {
      assert JoinWith(ws, sep) == ws[0] + ([sep] + JoinWith(ws[1..], sep));
    }
  }

  /**
   * Deriving a name again from a camelCase name yields the name lower-cased:
   * it is a single word to `split()`, and words are lower-cased. So the name
   * comes back unchanged only when it has no upper-case letter.
   */
  lemma CamelRenameLowers(text: string)
    requires CleanWords(text) != []
    ensures CreateLabelName("camelCase", text, []).Success?
    ensures var name := CreateLabelName("camelCase", text, []).value;
      && CreateLabelName("camelCase", name, []) == Success(Lower(name))
      && (Lower(name) == name <==> forall i :: 0 <= i < |name| ==> !IsUpper(name[i]))
  {
    CamelNameChars(text);
    var name := CreateLabelName("camelCase", text, []).value;
    OneTokenRenamesToLower(name);
    LowerFixesIff(name);
  }

  /** A camelCase name is made of letters and digits only. */
  lemma CamelNameChars(text: string)
    requires CleanWords(text) != []
    ensures CreateLabelName("camelCase", text, []).Success?
    ensures var name := CreateLabelName("camelCase", text, []).value;
      name != [] && forall i :: 0 <= i < |name| ==> IsLetter(name[i]) || IsDigit(name[i])
  {
    NameUnderStyle(CamelCase, text, []);
    assert ParseStyle("camelCase") == Some(CamelCase);
  }

  /** Letters and digits with no separator clean to one word, which camelCase renders lower-cased. */
  lemma OneTokenRenamesToLower(name: string)
    requires name != [] && forall i :: 0 <= i < |name| ==> IsLetter(name[i]) || IsDigit(name[i])
    ensures CreateLabelName("camelCase", name, []) == Success(Lower(name))
  {
    OneTokenCleansToOneWord(name);
    NameUnderStyle(CamelCase, name, []);
    LowerIsWord(name);
    SingleWordCamel(Lower(name));
  }

  /** A one-token name followed by punctuation is named as the token alone: the punctuation is cleaned away. */
  lemma OneTokenThenPunctuation(name: string, tail: string)
    requires name != [] && forall i :: 0 <= i < |name| ==> IsLetter(name[i]) || IsDigit(name[i])
    requires forall i :: 0 <= i < |tail| ==> !Kept(tail[i])
    ensures CreateLabelName("camelCase", name + tail, []) == Success(Lower(name))
  {
    OneTokenRenamesToLower(name);
    CleanKeepsThenDrops(name, tail);
    CleanKeeps(name);
    NameUnderStyle(CamelCase, name + tail, []);
    NameUnderStyle(CamelCase, name, []);
  }

  lemma OneTokenCleansToOneWord(name: string)
    requires name != [] && forall i :: 0 <= i < |name| ==> IsLetter(name[i]) || IsDigit(name[i])
    ensures CleanWords(name) == [Lower(name)]
  {
    CleanKeeps(name);
    LowerIsWord(name);
    OneWord(Lower(name));
  }

  lemma LowerIsWord(name: string)
    requires name != [] && forall i :: 0 <= i < |name| ==> IsLetter(name[i]) || IsDigit(name[i])
    ensures IsWord(Lower(name)) && forall i :: 0 <= i < |Lower(name)| ==> !IsSpace(Lower(name)[i])
  {
  }

  /** camelCase renders a single word as itself. */
  lemma SingleWordCamel(w: string)
    requires IsWord(w)
    ensures Render(CamelCase, [w]) == w
  {
    LowerKeepsWord(w);
    assert [w][1..] == [];
  }

  /** Lower-casing changes a text exactly when it has an upper-case letter. */
  lemma LowerFixesIff(s: string)
    ensures Lower(s) == s <==> forall i :: 0 <= i < |s| ==> !IsUpper(s[i])
  {
    if Lower(s) == s {
      forall i | 0 <= i < |s| ensures !IsUpper(s[i]) {
        assert ToLower(s[i]) == s[i];
      }
    }
  }
}
