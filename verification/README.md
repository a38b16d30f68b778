# LWC label generator — a Dafny model of its core

The label generator reads the HTML template of a Lightning Web Component and
replaces user-visible text with references to Salesforce custom labels. It
works in three steps:

- **Extraction.** Every `lightning-button`/`button` `label` attribute and
  every eligible text node is given a generated *label name*. The name is
  recorded with its raw text in an insertion-ordered table (a Python dict).
  The markup is then rewritten to the placeholder `{label.<name>}`, and
  three counters are kept.
- **The `labels.js` module.** It has one `import` per name in sorted order,
  then an export object that lists every name.
- **The `labels.xml` document.** It has one `<labels>` record per table
  entry, in insertion order.

The model works on an abstract document instead of parsed HTML:

- the elements, in document order, each with a tag and an optional `label`
  attribute;
- the text nodes, in document order, each with its parent, which is the
  root or an element index.

Both passes collect their table writes in order. The table is those writes
applied to an empty dict. This is the same as writing during the pass,
because neither pass reads the table.

Modules:

- `Results`: `Option`, `Result` and the one error (an unsupported naming
  style).
- `Chars`: Python's `str.isspace` set, `strip`, `split()`, `lower`/`upper`
  on ASCII, `join` and splitting on one character.
- `LabelNames`: `create_label_name`.
- `Placeholders`: the `{label.<name>}` placeholder and the `{\s*.*\s*}`
  guard.
- `LabelTables`: the insertion-ordered dict.
- `Sorting`: Python's string order and `list.sort` on distinct names.
- `Extraction`: `should_process_text` and the two passes of `process_html`.
- `ExtractionProperties`: what a run of `process_html` promises as a whole.
- `JsEmitter`, `XmlEmitter`: the two generated files.
- `Outputs`: the generated files stated in terms of the writes of a run.
- `Scenarios`: concrete inputs worked through the model.

Three behaviours of the code are stated as lemmas because they are easy to
miss when reading it:

- **The `lightning-button` fallback never fires inside `process_html`.** This
  is the fallback at lines 85-86 of `should_process_text`. The button pass
  runs first and rewrites every qualifying label to a placeholder. A button
  whose label was not rewritten has an empty or placeholder-shaped label,
  which a non-empty, non-placeholder text can never equal. See
  `ExtractionProperties.ButtonTextIsNeverExtracted`.
- **Re-deriving a name does not in general return the same name.** A
  camelCase name put through `create_label_name` again comes back lower-cased
  (`submitOrder` becomes `submitorder`). It is a fixpoint only when it has
  no upper-case letter. See `LabelNames.CamelRenameLowers` and
  `Scenarios.CamelNameIsNotAFixpoint`. Line 56 drops no letter, but line 57
  lower-cases the whole text before line 65 title-cases the later words, so
  the case boundaries inside a camelCase name are lost. The other styles
  lose their word boundaries as well. Line 56 drops the `_` of a multi-word
  snake_case or UPPER_CASE name (`submit_order` becomes `submitorder`), and a
  multi-word PascalCase name is read back as one word and title-cased as
  one (`SubmitOrder` becomes `Submitorder`). Under every style a name made
  from a single word, with no prefix, comes back as it is. The model proves the camelCase case
  for every input; the other three are stated here only.
- **Punctuation-only text gets the empty name.** A text with no letters or
  digits, such as `!!!`, is accepted by `should_process_text`, but
  `create_label_name` returns `''` for it. The table then holds the key `""`.
  See `Scenarios.PunctuationGetsEmptyName`. The module then gets the line
  `import  from '@salesforce/label/c.';` (line 126), which is not valid
  JavaScript; a text such as `2nd` gets `2Nd` in PascalCase, which is not an
  identifier either. `Outputs.WrittenNamesUseNameChars` therefore promises
  only the character set `[A-Za-z0-9_]`, not a valid identifier.

## Model

All source cells refer to `lwc_label_generator.py`.

| member | source | states |
|---|---|---|
| Chars.Strip | lwc_label_generator.py:55 | `str.strip()`: the result is a slice of the text with only whitespace cut from either side. It is empty exactly when the text is all whitespace, and otherwise neither starts nor ends with whitespace. The model applies it where the text pass strips (line 105). `CreateLabelName` leaves out the strip at line 55, which `LabelNames.NameIgnoresStrip` shows changes no name. |
| Chars.StripIdempotent | lwc_label_generator.py:105-108 | Stripping a stripped text changes nothing. So on the text path the strip at line 55 is a no-op on the text stripped at line 105, named at line 107 and recorded at line 108. The button path (lines 96-99) passes the label unstripped; `LabelNames.NameIgnoresStrip` covers it. |
| Chars.Lower | lwc_label_generator.py:57 | `str.lower()` on ASCII: same length, each character mapped by `ToLower`. `Chars.LowerOfUpper` and `LabelNames.TitleOfWord` show it undoes `upper()` and `title()` on words. |
| Chars.Upper | lwc_label_generator.py:69 | `str.upper()` on ASCII: same length, each character mapped by `ToUpper`. `LabelNames.UpperNameIsSnakeUpperCased` shows that on a snake_case name lower-casing gives the name back. |
| Chars.Words | lwc_label_generator.py:57 | `split()` yields no words exactly for all-whitespace text; every word is non-empty and made of non-space characters of the input. |
| Chars.JoinWith | lwc_label_generator.py:63-69 | `sep.join(words)` for a one-character separator: the empty list joins to `''`, and the result holds only the separator and characters of the pieces. `Chars.SplitJoin` is its inverse, so the join is pinned down completely on separator-free pieces. |
| Chars.SplitJoin | lwc_label_generator.py:63 | Joining separator-free words with a separator and splitting again gives the words back. |
| LabelNames.ParseStyle | lwc_label_generator.py:62-71 | Exactly the four style names `snake_case`, `camelCase`, `PascalCase`, `UPPER_CASE` are recognised; each maps back to its own name. |
| LabelNames.Clean | lwc_label_generator.py:56 | The cleaned text keeps exactly the ASCII letters, digits and whitespace characters of the input. |
| LabelNames.CleanWords | lwc_label_generator.py:55-57 | Every word of the cleaned, lower-cased text is a non-empty run of `[a-z0-9]`. |
| LabelNames.CleanWordsIgnoreStrip | lwc_label_generator.py:55-57 | Stripping the text first gives the same words: whitespace survives cleaning and lower-casing, and `split()` ignores it at either end. |
| LabelNames.NameIgnoresStrip | lwc_label_generator.py:54-57 | For every style string, text and prefix the name is the same whether or not the text is stripped first. So leaving the strip at line 55 out of `CreateLabelName` changes nothing, including on the button path (lines 96-99) where the label arrives unstripped. |
| LabelNames.NameWords | lwc_label_generator.py:61 | `words.insert(0, prefix)` when the prefix is non-empty. `LabelNames.PrefixLeadsName` and `LabelNames.SnakeNameSplitsIntoWords` show the prefix is the first word of every name and the cleaned words follow it. |
| LabelNames.Title | lwc_label_generator.py:65-67 | `word.title()` on one word. `LabelNames.TitleOfWord` fixes every character of the result. |
| LabelNames.TitleAfter | lwc_label_generator.py:65-67 | `title()` from a given position: the same length as the word, each letter cased by whether a letter precedes it. `LabelNames.TitleOfWord` fixes every character. |
| LabelNames.TitleOfWord | lwc_label_generator.py:65-67 | `title()` upper-cases a lower-case letter exactly at the start of a run of letters and changes nothing else, so lower-casing undoes it. |
| LabelNames.TitleJoin | lwc_label_generator.py:65-67 | `''.join(word.title() for word in words)`: only letters and digits, and lower-casing gives the words run together. `LabelNames.TitleJoinIsTitledWords` fixes every character against the per-character reference. |
| LabelNames.Render | lwc_label_generator.py:62-69 | A rendered name is non-empty and uses only `[A-Za-z0-9_]`; it contains `_` exactly for snake/UPPER case with more than one word. |
| LabelNames.CreateLabelName | lwc_label_generator.py:54-73 | The empty name is returned exactly when the text has no words. The unsupported-style error occurs exactly when there are words and the style is unknown. Names use only `[A-Za-z0-9_]`, and `_` appears only under snake_case or UPPER_CASE. The body starts from the text without the strip at line 55; `LabelNames.NameIgnoresStrip` proves that gives the same result. |
| LabelNames.SnakeNameSplitsIntoWords | lwc_label_generator.py:61-63 | Splitting a snake_case name on `_` gives back the prefix and the words; the prefix comes first. |
| LabelNames.UpperNameIsSnakeUpperCased | lwc_label_generator.py:62-69 | The UPPER_CASE name is the snake_case name upper-cased, and lower-casing it gives the snake_case name back. |
| LabelNames.CamelAndPascalLowerToWords | lwc_label_generator.py:64-67 | Lower-casing a camelCase or PascalCase name gives the prefix and words concatenated. |
| LabelNames.TitleJoinIsTitledWords | lwc_label_generator.py:65-67 | Title-casing words with `title()` and running them together equals running together the words title-cased character by character: a letter upper-case exactly when it starts its word or follows a digit. |
| LabelNames.PascalCapitals | lwc_label_generator.py:66-67 | A PascalCase name is every word title-cased character by character, run together. |
| LabelNames.CamelCapitals | lwc_label_generator.py:64-65 | A camelCase name is the first word as it is, then every other word title-cased character by character, run together. |
| LabelNames.CamelAndPascalNames | lwc_label_generator.py:54-67 | For text with words, the PascalCase name is the prefix and the cleaned words, each title-cased, run together; the camelCase name is the same with the first of them left as it is. |
| LabelNames.CamelAndPascalNameAt | lwc_label_generator.py:54-67 | Character by character: both names are as long as the words run together, and character `i` of word `k` sits at that word's start plus `i`. It is upper-cased exactly when it is a letter that starts its word or follows a digit, except in the first word under camelCase. |
| LabelNames.PrefixLeadsName | lwc_label_generator.py:61-69 | Under every style the name begins with the prefix (up to case). |
| LabelNames.CamelRenameLowers | lwc_label_generator.py:54-73 | Deriving a camelCase name from a camelCase name gives the name lower-cased; it is unchanged exactly when it has no upper-case letter. |
| Placeholders.Placeholder | lwc_label_generator.py:101 | The placeholder is `{label.` then the name then `}`. |
| Placeholders.GuardMatchesRegex | lwc_label_generator.py:76 | The guard as evaluated agrees with `re.match(r'{\s*.*\s*}')`: `{` at the start, a later `}`, and no line break between them outside the optional surrounding whitespace. |
| Placeholders.PlaceholderIsGuarded | lwc_label_generator.py:97 | A placeholder for a name without line breaks matches the guard and is unchanged by stripping, so it is never relabelled. |
| Extraction.ShouldProcessText | lwc_label_generator.py:75-89 | A text is accepted exactly when its stripped form is non-empty and not placeholder-shaped, and its parent is neither `script` nor `style`. The parent must also be an allow-listed tag, or a `lightning-button` whose `label` equals the stripped text. |
| Extraction.LabelOf | lwc_label_generator.py:96 | `button.get('label', '')`: the label attribute, or `''` when it is absent. `Extraction.VisitButton` shows it is the text recorded for a relabelled button. |
| Extraction.IsButton | lwc_label_generator.py:95 | The `lightning-button` and `button` tags that `find_all` selects. `Extraction.ButtonPassWrites` shows only those buttons are written. |
| Extraction.Qualifies | lwc_label_generator.py:97 | The guard `label and not re.match(...)` on a button. `Extraction.VisitButton` shows a button is relabelled exactly when it qualifies, and `ExtractionProperties.ButtonPassInert` shows none qualifies after the pass. |
| Extraction.VisitButton | lwc_label_generator.py:95-101 | A qualifying button yields one write (its `btn`-prefixed name, its label) and has its label replaced by the placeholder. Any other element is unchanged. The result never qualifies again. It fails exactly when the name cannot be made. |
| Extraction.ButtonPass | lwc_label_generator.py:95-101 | The pass visits every element in order, keeps their count, and fails exactly when some visit fails, with the unsupported-style error. |
| Extraction.ButtonPassWrites | lwc_label_generator.py:95-100 | The button writes carry the labels of the qualifying buttons in document order, each under the name made from it with prefix `btn`. |
| Extraction.VisitText | lwc_label_generator.py:103-110 | An accepted text yields one write (its unprefixed name, its stripped text) and is replaced by the placeholder. Any other text is unchanged. The result is never accepted again. It fails exactly when the name cannot be made. |
| Extraction.TextPass | lwc_label_generator.py:103-110 | The pass visits every text in order, keeps their count, and fails exactly when some visit fails. |
| Extraction.TextPassWrites | lwc_label_generator.py:103-108 | The text writes carry the accepted stripped texts in document order, each under the name made from it. |
| Scenarios.PunctuationParagraph | lwc_label_generator.py:103-110 | A paragraph of only punctuation is still extracted: it is written under the empty key with its text, and replaced by `{label.}`. |
| Extraction.ProcessHtml | lwc_label_generator.py:95-112 | It succeeds exactly when both passes do, and otherwise fails with the unsupported-style error. The table is the writes applied in order to an empty dict, and `total_labels` is the table's size. |
| ExtractionProperties.FailsOnlyForUnsupportedStyle | lwc_label_generator.py:58-71 | A known style never fails, and a failure is always the unsupported-style error. An unknown style fails when a qualifying button label has a word, and, once the button pass is through, when a text accepted after it has a word. |
| ExtractionProperties.MetricsCountRewrites | lwc_label_generator.py:98-112 | `button_labels` counts the qualifying buttons and `text_elements` the accepted texts. `total_labels` counts the distinct names written, is at most their sum, and equals it exactly when no name repeats. |
| ExtractionProperties.LastTextWins | lwc_label_generator.py:100-112 | The table holds exactly the written names. Each maps to the text of its last write, and the table lists them in order of first write. |
| ExtractionProperties.ProcessHtmlIdempotent | lwc_label_generator.py:95-110 | Running the extraction again on its own output changes nothing, writes nothing, and counts zero. |
| ExtractionProperties.InertDocument | lwc_label_generator.py:95-112 | A document with no qualifying button and no accepted text is left unchanged, with an empty table and zero counts. |
| ExtractionProperties.ButtonPassInert | lwc_label_generator.py:95-101 | The button pass leaves elements none of which qualifies as they are and writes nothing. |
| ExtractionProperties.TextPassInert | lwc_label_generator.py:103-110 | The text pass leaves texts none of which is accepted as they are and writes nothing. |
| ExtractionProperties.UnqualifiedButtonRejectsText | lwc_label_generator.py:85-86 | Under a `lightning-button` whose label does not qualify, no text is accepted. |
| ExtractionProperties.ButtonTextIsNeverExtracted | lwc_label_generator.py:85-110 | In a run, no text directly under a `lightning-button` is accepted or rewritten. |
| LabelTables.Put | lwc_label_generator.py:100 | Assigning a key sets its value. A new key is appended to the insertion order, and an existing key keeps its place. |
| LabelTables.LastWriteWins | lwc_label_generator.py:100-108 | After a sequence of writes, every written key maps to the text of its last write, and keys not written keep their values. |
| LabelTables.OrderIsFirstWrites | lwc_label_generator.py:140 | The dict's iteration order lists exactly the written keys, in the order of their first writes. |
| LabelTables.TableSizeCountsDistinctNames | lwc_label_generator.py:112 | The dict's size is the number of distinct names written, at most the number of writes, and equal to it exactly when no name repeats. |
| Sorting.Below | lwc_label_generator.py:124 | Python's `<` on `str`. `Sorting.BelowTotal`, `Sorting.BelowTransitive` and the irreflexivity and asymmetry lemmas make it a strict total order. |
| Sorting.BelowTotal | lwc_label_generator.py:124 | Of two different strings one is below the other. |
| Sorting.BelowTransitive | lwc_label_generator.py:124 | The string order is transitive. |
| Sorting.Insert | lwc_label_generator.py:124 | One step of the sort: inserting a new name into a strictly ascending list keeps it strictly ascending and adds exactly that name (multiset). |
| Sorting.Sort | lwc_label_generator.py:123-124 | Sorting distinct names gives a strictly ascending permutation of them. |
| Sorting.SortedByMembers | lwc_label_generator.py:123-124 | Two strictly ascending lists with the same members are equal, so the sorted key list is determined by the keys. |
| JsEmitter.ImportLine | lwc_label_generator.py:126 | The import line carries the name as its imported identifier. |
| JsEmitter.ImportLineInjective | lwc_label_generator.py:126 | Two import lines are equal exactly when their names are. |
| JsEmitter.ExportLine | lwc_label_generator.py:129 | An export line is the indent, the name and a comma. |
| JsEmitter.SortedNames | lwc_label_generator.py:123-124 | The module's names are the table's keys in strictly ascending order. |
| JsEmitter.JsLines | lwc_label_generator.py:122-130 | The module's list is the imports in sorted order, the opener, one export per name in the same order, and the closer. |
| JsEmitter.JsImportsEachKeyOnce | lwc_label_generator.py:123-126 | Every key has an import line, only keys have one, and no import line repeats. |
| JsEmitter.JsImportsAscend | lwc_label_generator.py:123-129 | The imports ascend by name, and the export in the same position names the same label. |
| JsEmitter.SortedNamesAreTheAscendingKeys | lwc_label_generator.py:123-124 | Any strictly ascending list of exactly the keys is the module's name list. |
| JsEmitter.JsFile | lwc_label_generator.py:134 | `'\n'.join(js_content)`. `JsEmitter.JsFileLines` splits it back into its physical lines. |
| JsEmitter.JsFileLines | lwc_label_generator.py:128-134 | Split into lines, the file is the imports, a blank line, `export const label = {`, the exports and `};`. |
| XmlEmitter.XmlRecordEscaped | lwc_label_generator.py:141-148 | The escaped record reads back as exactly the name, the component and the raw text in both text fields. |
| XmlEmitter.EscapeRoundTrip | lwc_label_generator.py:146-147 | Unescaping escaped text gives the text back. |
| XmlEmitter.EscapedRecordIsRecordOnPlainText | lwc_label_generator.py:141-148 | For text without `&`, `<` or `>` the escaped record is exactly the record as the generator writes it. |
| XmlEmitter.BareAmpersandBreaksRecord | lwc_label_generator.py:146-147 | A raw text containing `& ` makes the interpolated record unreadable. The escaped record reads back correctly. |
| XmlEmitter.XmlRecord | lwc_label_generator.py:141-148 | One record as the f-string writes it, with the name, the component and the raw text interpolated unescaped. `XmlEmitter.RecordAsWritten` gives its layout and when it reads back, and `XmlEmitter.BareAmpersandBreaksRecord` shows a bare `&` makes it unreadable. |
| XmlEmitter.TermsAndConditionsBreaksRecord | lwc_label_generator.py:141-148 | The interpolated record for `Terms & Conditions` is not well-formed. |
| XmlEmitter.RecordAsWritten | lwc_label_generator.py:141-148 | A record as written, with no `<` in its fields, has the record layout around exactly the name, the component and the raw text. It reads back exactly when each field is readable character data, and as those three texts when none holds `&`. |
| XmlEmitter.Records | lwc_label_generator.py:140-149 | There is one record per key, in insertion order, interpolating that key, the component and the key's raw text. |
| XmlEmitter.XmlLines | lwc_label_generator.py:138-151 | The document's list is the declaration, the root opener, one record per key and the root closer. |
| XmlEmitter.XmlRecordsAreKeys | lwc_label_generator.py:140-149 | Each record of the document is the record of the key in that position. Without `<` it keeps the layout around the key, the component and the text, and it reads back exactly when those are readable character data. Without `&` it reads back as them. |
| XmlEmitter.XmlOneRecordPerKey | lwc_label_generator.py:140-149 | Every key has a record carrying its text. When no field holds a `<`, no two records carry the same name. |
| XmlEmitter.XmlFile | lwc_label_generator.py:155 | `'\n'.join(xml_content)`, the text written to `labels.xml`. `XmlEmitter.XmlFileLayout` states its layout. |
| XmlEmitter.XmlFileLayout | lwc_label_generator.py:138-155 | `'\n'.join(xml_content)`: the declaration and root element each end in a newline, the records follow joined by newlines, and the end tag closes the file with no newline after it. |
| XmlEmitter.EscapedXmlLines | lwc_label_generator.py:138-151 | The corrected document is the same frame around the escaped records, and each record reads back as its key, the component and the key's text. |
| XmlEmitter.EscapedDocumentOnPlainText | lwc_label_generator.py:138-151 | On names, component and texts without `&`, `<` or `>`, the corrected document is the document the generator writes. |
| XmlEmitter.EscapedRecordsAreKeys | lwc_label_generator.py:140-149 | Every record of the corrected document reads back as a key, its component and that key's final text in both text fields. |
| XmlEmitter.EscapedOneRecordPerKey | lwc_label_generator.py:140-149 | In the corrected document every key has a record, and no two records share a name. |
| Outputs.WrittenNamesUseNameChars | lwc_label_generator.py:99-107 | Every name a run writes uses only `[A-Za-z0-9_]`. |
| Outputs.ModuleImportsWrittenNames | lwc_label_generator.py:100-134 | The module imports exactly the names written, one line each within the first `total_labels` lines. Its physical lines are the imports, a blank line, the opener, the exports and the closer. |
| Outputs.MetadataCarriesLastText | lwc_label_generator.py:100-151 | The document as written has `total_labels` records, one per written name in the table's insertion order, each interpolating the name, the component and the text of the name's last write. Each keeps its layout when neither the component nor that text holds `<`, reads back exactly when they are readable character data, and reads back as them when neither holds `&`. |
| Outputs.EscapedMetadataCarriesLastText | lwc_label_generator.py:100-151 | In the corrected document every written name has exactly one record, reading back as the name, the component and the text of its last write, and every record is for a written name. |
| Scenarios.SubmitOrderName | lwc_label_generator.py:54-73 | In camelCase, `Submit Order!` is named `submitOrder`. |
| Scenarios.ButtonSubmitOrderName | lwc_label_generator.py:99 | In camelCase, a button labelled `Submit Order!` is named `btnSubmitOrder`. |
| Scenarios.CamelNameIsNotAFixpoint | lwc_label_generator.py:57-65 | In camelCase, re-deriving `submitOrder` gives `submitorder`. |
| Scenarios.OrdinalInPascalCase | lwc_label_generator.py:67 | In PascalCase, `2nd` becomes `2Nd`, because `title()` capitalises a letter after a digit. |
| Scenarios.PunctuationGetsEmptyName | lwc_label_generator.py:56-59 | Under every style, `!!!` gets the empty name. |
| Scenarios.SavePlaceholderIsGuarded | lwc_label_generator.py:97 | The placeholder `{label.btnSave}` is recognised by the guard. |
| Scenarios.OkTextsShareName | lwc_label_generator.py:54-73 | In camelCase both `OK` and `Ok!` are named `ok`. |
| Scenarios.DuplicateNameCollapses | lwc_label_generator.py:108-112 | Writing `OK` and then `Ok!` under the names made from them leaves one entry, `ok`, holding `Ok!`. |

## Left out

- **unidecode** (line 55): the input text is taken as already transliterated
  to ASCII. `unidecode` is a foreign library.
- **HTML parsing.** BeautifulSoup parsing, `find_all`, `replace_with` and
  `prettify` are left out; the document is the abstract element/text
  sequence. So is the regex unquoting of attributes at line 116, which
  belongs to writing the HTML file.
- **Files and console.** Reading and writing files, `os.makedirs`,
  `validate_files`, `print_status`, the colour output and `main` are left
  out. They are I/O only.
- **Text encoding.** The `'\n'.join` outputs are modelled as strings; their
  encoding to UTF-8 bytes is left out.
- LabelNames.CreateLabelName: requires the prefix to be made of `[a-z0-9]`.
  The generator only ever passes `''` and `'btn'`.
  Its body does not strip the text first as line 55 does.
  `LabelNames.NameIgnoresStrip` proves that the strip changes no result.
- LabelNames.TitleOfWord: `title()` is modelled for ASCII only, which is all
  the cleaned words can contain.
- XmlEmitter.XmlRecordEscaped: the corrected record escapes the component
  name and the label name too. Written names use only `[A-Za-z0-9_]`, so
  escaping them changes nothing.
- XmlEmitter.Unescape: reads only the five predefined entities. Numeric
  character references such as `&#38;` are valid XML but are not read, so
  read-back statements about the document as written say "readable by this
  reader" rather than "well-formed". In the other direction it accepts
  character data XML 1.0 forbids: the sequence `]]>` and control
  characters outside the `Char` production. `XmlEmitter.EscapedXmlLines`
  writes those unchanged, so the corrected document is well-formed only for
  texts without them.
- XmlEmitter.XmlRecordsAreKeys: says nothing about how a record whose fields
  hold `<` parses; such a record no longer has the record layout.

## Findings

| source | as written | input that shows it | evidently intended | confidence | as-written member | corrected member |
|---|---|---|---|---|---|---|
| lwc_label_generator.py:146-147 | the raw text is interpolated into `<shortDescription>` and `<value>` without escaping, so `&` and `<` reach the XML as they are | a button labelled `Terms & Conditions`: its record contains a bare `&`, which section 2.4 of XML 1.0 forbids in character data, so `labels.xml` is not well-formed | escape `&`, `<` and `>` so that every record reads back as the label's text | not executed | XmlEmitter.TermsAndConditionsBreaksRecord | XmlEmitter.EscapedXmlLines |
