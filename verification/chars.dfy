/**
 * Character classes and the few string primitives of Python's `str` that the
 * label generator relies on: `isspace`, ASCII case mapping, `strip`, `split()`
 * with no argument, `split(sep)` and `sep.join(...)`.
 */
module Chars {

  /** Python's `str.isspace`; the same set is `\s` in a `str` regex and the separator of `split()`. */
  predicate IsSpace(c: char) {
    || c == ' '
    || ('\t' <= c <= '\r')
    || ('\U{1c}' <= c <= '\U{1f}')
    || c == '\U{85}' || c == '\U{a0}' || c == '\U{1680}'
    || ('\U{2000}' <= c <= '\U{200a}')
    || c == '\U{2028}' || c == '\U{2029}' || c == '\U{202f}' || c == '\U{205f}' || c == '\U{3000}'
  }

  predicate IsLower(c: char) { 'a' <= c <= 'z' }
  predicate IsUpper(c: char) { 'A' <= c <= 'Z' }
  predicate IsDigit(c: char) { '0' <= c <= '9' }
  predicate IsLetter(c: char) { IsLower(c) || IsUpper(c) }

  /** A character of a cleaned, lower-cased word: `[a-z0-9]`. */
  predicate IsWordChar(c: char) { IsLower(c) || IsDigit(c) }

  /** A character allowed in a generated label name: `[A-Za-z0-9_]`. */
  predicate IsNameChar(c: char) { IsLetter(c) || IsDigit(c) || c == '_' }

  predicate AllSpace(s: string) {
    forall i :: 0 <= i < |s| ==> IsSpace(s[i])
  }

  /** A non-empty run of `[a-z0-9]`, the shape of every word of a label name. */
  predicate IsWord(w: string) {
    w != [] && forall i :: 0 <= i < |w| ==> IsWordChar(w[i])
  }

  function ToLower(c: char): (d: char)
    ensures IsUpper(c) ==> IsLower(d)
    ensures !IsUpper(c) ==> d == c
  {
    if IsUpper(c) then (c as int + 32) as char else c
  }

  function ToUpper(c: char): (d: char)
    ensures IsLower(c) ==> IsUpper(d) && ToLower(d) == c
    ensures !IsLower(c) ==> d == c
  {
    if IsLower(c) then (c as int - 32) as char else c
  }

  /** `str.lower` on text whose only cased characters are ASCII letters. */
  function Lower(s: string): (r: string)
    ensures |r| == |s|
    ensures forall i :: 0 <= i < |s| ==> r[i] == ToLower(s[i])
  {
    if s == [] then [] else [ToLower(s[0])] + Lower(s[1..])
  }

  /** `str.upper` on text whose only cased characters are ASCII letters. */
  function Upper(s: string): (r: string)
    ensures |r| == |s|
    ensures forall i :: 0 <= i < |s| ==> r[i] == ToUpper(s[i])
  {
    if s == [] then [] else [ToUpper(s[0])] + Upper(s[1..])
  }

  lemma LowerDistributes(a: string, b: string)
    ensures Lower(a + b) == Lower(a) + Lower(b)
  {
  }

  /** Upper-casing loses nothing on text without upper-case letters: lowering gives it back. */
  lemma {:induction false} LowerOfUpper(s: string)
    requires forall i :: 0 <= i < |s| ==> !IsUpper(s[i])
    ensures Lower(Upper(s)) == s
  {
    if s != [] {
      LowerOfUpper(s[1..]);
      assert Lower(Upper(s)) == [ToLower(ToUpper(s[0]))] + Lower(Upper(s[1..]));
    }
  }

  /** Number of whitespace characters at the front of `s`. */
  function LeadingSpaces(s: string): (n: nat)
    ensures n <= |s|
    ensures forall i :: 0 <= i < n ==> IsSpace(s[i])
    ensures n < |s| ==> !IsSpace(s[n])
  {
    if s == [] || !IsSpace(s[0]) then 0 else 1 + LeadingSpaces(s[1..])
  }

  /** Number of whitespace characters at the back of `s`. */
  function TrailingSpaces(s: string): (n: nat)
    ensures n <= |s|
    ensures forall i :: |s| - n <= i < |s| ==> IsSpace(s[i])
    ensures n < |s| ==> !IsSpace(s[|s| - 1 - n])
  {
    if s == [] || !IsSpace(s[|s| - 1]) then 0 else 1 + TrailingSpaces(s[..|s| - 1])
  }

  /**
   * Python's `str.strip()`: the slice of `s` left after dropping whitespace at
   * both ends. It is empty exactly when `s` is all whitespace, and otherwise
   * starts and ends with a non-space character; what it drops on either side
   * is whitespace.
   */
  function Strip(s: string): (r: string)
    ensures |r| <= |s|
    ensures r == [] <==> AllSpace(s)
    ensures r != [] ==> !IsSpace(r[0]) && !IsSpace(r[|r| - 1])
    ensures exists i, j :: 0 <= i <= j <= |s| && r == s[i..j] && AllSpace(s[..i]) && AllSpace(s[j..])
  {
    var i := LeadingSpaces(s);
    var t := s[i..];
    var n := TrailingSpaces(t);
    LeadingCut(s);
    TrailingCut(t);
    var j := i + (|t| - n);
    var r := t[..|t| - n];
    assert r == s[i..j];
    assert s[j..] == t[|t| - n..];
    assert 0 <= i <= j <= |s| && r == s[i..j] && AllSpace(s[..i]) && AllSpace(s[j..]);
    assert r == [] <==> AllSpace(s) by {
      if i == |s| {
        assert |t| == 0;
      } else {
        assert t[0] == s[i];
        assert |r| > 0;
      }
    }
    r
  }

  /** The whitespace `LeadingSpaces` counts, and when it is all of `s`. */
  lemma LeadingCut(s: string)
    ensures AllSpace(s[..LeadingSpaces(s)])
    ensures LeadingSpaces(s) == |s| <==> AllSpace(s)
    ensures LeadingSpaces(s) < |s| ==> !IsSpace(s[LeadingSpaces(s)..][0])
  {
    if LeadingSpaces(s) == |s| {
      assert s[..|s|] == s;
    }
  }

  /** The whitespace `TrailingSpaces` counts, and that it stops short of a non-space first character. */
  lemma TrailingCut(t: string)
    ensures AllSpace(t[|t| - TrailingSpaces(t)..])
    ensures t != [] && !IsSpace(t[0]) ==> TrailingSpaces(t) < |t|
  {
  }

  /** Stripping text that has no surrounding whitespace changes nothing. */
  lemma StripTrimmed(s: string)
    requires s != [] ==> !IsSpace(s[0]) && !IsSpace(s[|s| - 1])
    ensures Strip(s) == s
  {
    if s != [] {
      assert LeadingSpaces(s) == 0;
      assert TrailingSpaces(s) == 0;
    }
  }

  /** `str.strip()` is idempotent. */
  lemma StripIdempotent(s: string)
    ensures Strip(Strip(s)) == Strip(s)
  {
    StripTrimmed(Strip(s));
  }

  /** Length of the run of non-space characters at the front of `s`. */
  function TokenLength(s: string): (n: nat)
    ensures n <= |s|
    ensures forall i :: 0 <= i < n ==> !IsSpace(s[i])
    ensures n < |s| ==> IsSpace(s[n])
  {
    if s == [] || IsSpace(s[0]) then 0 else 1 + TokenLength(s[1..])
  }

  /**
   * Python's `str.split()` with no separator: the maximal runs of non-space
   * characters, in order. There are none exactly when the text is all whitespace.
   */
  function Words(s: string): (ws: seq<string>)
    ensures ws == [] <==> AllSpace(s)
    ensures forall k :: 0 <= k < |ws| ==> ws[k] != []
    ensures forall k, i :: 0 <= k < |ws| && 0 <= i < |ws[k]| ==> ws[k][i] in s && !IsSpace(ws[k][i])
    decreases |s|
  {
    if s == [] then []
    else if IsSpace(s[0]) then
      var rest := Words(s[1..]);
      assert forall k, i :: 0 <= k < |rest| && 0 <= i < |rest[k]| ==> rest[k][i] in s by {
        forall k, i | 0 <= k < |rest| && 0 <= i < |rest[k]| ensures rest[k][i] in s {
          assert rest[k][i] in s[1..];
        }
      }
      rest
    else
      var n := TokenLength(s);
      var rest := Words(s[n..]);
      assert forall k, i :: 0 <= k < |rest| && 0 <= i < |rest[k]| ==> rest[k][i] in s by {
        forall k, i | 0 <= k < |rest| && 0 <= i < |rest[k]| ensures rest[k][i] in s {
          assert rest[k][i] in s[n..];
        }
      }
      assert forall i :: 0 <= i < n ==> s[..n][i] in s;
      [s[..n]] + rest
  }

  /** A word followed by nothing or by whitespace is the first word of the split. */
  lemma WordsOfWord(w: string, rest: string)
    requires w != [] && forall i :: 0 <= i < |w| ==> !IsSpace(w[i])
    requires rest != [] ==> IsSpace(rest[0])
    ensures Words(w + rest) == [w] + Words(rest)
  {
    var s := w + rest;
    TokenLengthOfWord(w, rest);
    assert s[..|w|] == w && s[|w|..] == rest;
  }

  /** A leading whitespace character does not change the split. */
  lemma WordsAfterSpace(c: char, rest: string)
    requires IsSpace(c)
    ensures Words([c] + rest) == Words(rest)
  {
    assert ([c] + rest)[1..] == rest;
  }

  /** Leading whitespace does not change the split. */
  lemma {:induction false} WordsAfterSpaces(a: string, rest: string)
    requires AllSpace(a)
    ensures Words(a + rest) == Words(rest)
  {
    if a != [] {
      assert a + rest == [a[0]] + (a[1..] + rest);
      assert IsSpace(a[0]);
      assert AllSpace(a[1..]) by {
        forall k | 0 <= k < |a[1..]| ensures IsSpace(a[1..][k]) { assert a[1..][k] == a[k + 1]; }
      }
      WordsAfterSpace(a[0], a[1..] + rest);
      WordsAfterSpaces(a[1..], rest);
    } else {
      assert a + rest == rest;
    }
  }

  /** Trailing whitespace does not change the length of the first token. */
  lemma {:induction false} TokenLengthBeforeSpaces(s: string, b: string)
    requires AllSpace(b)
    ensures TokenLength(s + b) == TokenLength(s)
  {
    if s == [] {
      assert s + b == b;
    } else if !IsSpace(s[0]) {
      assert (s + b)[1..] == s[1..] + b;
      TokenLengthBeforeSpaces(s[1..], b);
    }
  }

  /** Trailing whitespace does not change the split. */
  lemma {:induction false} WordsBeforeSpaces(s: string, b: string)
    requires AllSpace(b)
    ensures Words(s + b) == Words(s)
    decreases |s|
  {
    if s == [] {
      assert s + b == b;
    } else if IsSpace(s[0]) {
      assert (s + b)[1..] == s[1..] + b;
      WordsBeforeSpaces(s[1..], b);
    } else {
      var n := TokenLength(s);
      TokenLengthBeforeSpaces(s, b);
      assert (s + b)[..n] == s[..n];
      assert (s + b)[n..] == s[n..] + b;
      WordsBeforeSpaces(s[n..], b);
    }
  }

  /** Whitespace on both sides does not change the split. */
  lemma WordsAround(a: string, x: string, b: string)
    requires AllSpace(a) && AllSpace(b)
    ensures Words(a + x + b) == Words(x)
  {
    assert a + x + b == a + (x + b);
    WordsAfterSpaces(a, x + b);
    WordsBeforeSpaces(x, b);
  }

  /** Lower-casing leaves whitespace as it is. */
  lemma LowerSpaces(a: string)
    requires AllSpace(a)
    ensures Lower(a) == a
  {
  }

  /** Two words separated by one space split into those two words. */
  lemma TwoWords(v: string, w: string)
    requires v != [] && forall i :: 0 <= i < |v| ==> !IsSpace(v[i])
    requires w != [] && forall i :: 0 <= i < |w| ==> !IsSpace(w[i])
    ensures Words(v + " " + w) == [v, w]
  {
    WordsOfWord(v, " " + w);
    WordsAfterSpace(' ', w);
    WordsOfWord(w, []);
    assert v + " " + w == v + (" " + w);
    assert " " + w == [' '] + w;
    assert w + [] == w;
  }

  lemma {:induction false} TokenLengthOfWord(w: string, rest: string)
    requires forall i :: 0 <= i < |w| ==> !IsSpace(w[i])
    requires rest != [] ==> IsSpace(rest[0])
    ensures TokenLength(w + rest) == |w|
  {
    if w != [] {
      assert (w + rest)[1..] == w[1..] + rest;
      TokenLengthOfWord(w[1..], rest);
    } else {
      assert w + rest == rest;
    }
  }

  /** A single word splits into itself. */
  lemma OneWord(w: string)
    requires w != [] && forall i :: 0 <= i < |w| ==> !IsSpace(w[i])
    ensures Words(w) == [w]
  {
    WordsOfWord(w, []);
    assert w + [] == w;
  }

  /** Python's `sep.join(ws)` for a one-character separator. */
  function JoinWith(ws: seq<string>, sep: char): (r: string)
    ensures ws == [] ==> r == []
    ensures forall c :: c in r ==> c == sep || exists k :: 0 <= k < |ws| && c in ws[k]
  {
    if ws == [] then []
    else if |ws| == 1 then ws[0]
    else
      var rest := JoinWith(ws[1..], sep);
      assert forall c :: c in rest ==> c == sep || exists k :: 0 <= k < |ws| && c in ws[k] by {
        forall c | c in rest && c != sep ensures exists k :: 0 <= k < |ws| && c in ws[k] {
          var k :| 0 <= k < |ws[1..]| && c in ws[1..][k];
          assert c in ws[k + 1];
        }
      }
      ws[0] + [sep] + rest
  }

  /** Index of the first `sep` in `s`, or `|s|` when there is none. */
  function FindChar(s: string, sep: char): (i: nat)
    ensures i <= |s|
    ensures sep !in s[..i]
    ensures i < |s| ==> s[i] == sep
  {
    if s == [] then 0
    else if s[0] == sep then 0
    else
      var i := 1 + FindChar(s[1..], sep);
      assert s[..i] == [s[0]] + s[1..][..i - 1];
      i
  }

  /** Python's `s.split(sep)`: the pieces between separators, always at least one. */
  function SplitOn(s: string, sep: char): (ps: seq<string>)
    ensures |ps| >= 1
    ensures forall k :: 0 <= k < |ps| ==> sep !in ps[k]
    decreases |s|
  {
    var i := FindChar(s, sep);
    if i == |s| then [s] else [s[..i]] + SplitOn(s[i + 1..], sep)
  }

  /** Joining two or more pieces: the first, the separator, then the rest joined. */
  lemma JoinCons(ws: seq<string>, sep: char)
    requires |ws| >= 2
    ensures JoinWith(ws, sep) == ws[0] + [sep] + JoinWith(ws[1..], sep)
  {
  }

  /** Splitting a join on its separator returns the pieces, when no piece contains the separator. */
  lemma {:induction false} SplitJoin(ws: seq<string>, sep: char)
    requires ws != []
    requires forall k :: 0 <= k < |ws| ==> sep !in ws[k]
    ensures SplitOn(JoinWith(ws, sep), sep) == ws
  {
    var w := ws[0];
    if |ws| == 1 {
      SplitNoSep(w, sep);
      assert ws == [w];
    } else {
      var tail := ws[1..];
      TailHasNoSep(ws, sep);
      SplitJoinStep(ws, sep);
      SplitJoin(tail, sep);
      assert ws == [w] + tail;
    }
  }

  lemma TailHasNoSep(ws: seq<string>, sep: char)
    requires ws != [] && forall k :: 0 <= k < |ws| ==> sep !in ws[k]
    ensures forall k :: 0 <= k < |ws[1..]| ==> sep !in ws[1..][k]
  {
    forall k | 0 <= k < |ws[1..]| ensures sep !in ws[1..][k] { assert ws[1..][k] == ws[k + 1]; }
  }

  /** Text without the separator splits into itself. */
  lemma SplitNoSep(w: string, sep: char)
    requires sep !in w
    ensures SplitOn(w, sep) == [w]
  {
    assert FindChar(w, sep) == |w|;
  }

  /** Splitting a join of two or more pieces splits off the first piece, when it has no separator. */
  lemma SplitJoinStep(ws: seq<string>, sep: char)
    requires |ws| >= 2 && sep !in ws[0]
    ensures SplitOn(JoinWith(ws, sep), sep) == [ws[0]] + SplitOn(JoinWith(ws[1..], sep), sep)
  {
    var w := ws[0];
    var rest := JoinWith(ws[1..], sep);
    var s := w + ([sep] + rest);
    JoinCons(ws, sep);
    assert JoinWith(ws, sep) == s;
    FindCharPast(w, [sep] + rest, sep);
    assert s[..|w|] == w;
    assert s[|w| + 1..] == rest;
  }

  lemma {:induction false} FindCharPast(a: string, b: string, sep: char)
    requires sep !in a
    requires b != [] && b[0] == sep
    ensures FindChar(a + b, sep) == |a|
  {
    if a != [] {
      assert (a + b)[1..] == a[1..] + b;
      FindCharPast(a[1..], b, sep);
    } else {
      assert a + b == b;
    }
  }

  /** Joining two non-empty lists is joining each and putting one separator between them. */
  lemma {:induction false} JoinConcat(a: seq<string>, b: seq<string>, sep: char)
    requires a != [] && b != []
    ensures JoinWith(a + b, sep) == JoinWith(a, sep) + [sep] + JoinWith(b, sep)
  {
    if |a| == 1 {
      assert (a + b)[1..] == b;
    } else {
      assert (a + b)[1..] == a[1..] + b;
      JoinConcat(a[1..], b, sep);
    }
  }

  /** The same for the first piece. */
  lemma JoinSplitsFirst(x: string, y: string, post: seq<string>, sep: char)
    requires post != []
    ensures JoinWith([x + [sep] + y] + post, sep) == JoinWith([x, y] + post, sep)
  {
    var tail := [x + [sep] + y] + post;
    var split := [x, y] + post;
    var rest := JoinWith(post, sep);
    JoinCons(tail, sep);
    assert tail[1..] == post;
    JoinCons(split, sep);
    assert split[1..] == [y] + post;
    JoinCons([y] + post, sep);
    assert ([y] + post)[1..] == post;
    assert (x + [sep] + y) + [sep] + rest == x + [sep] + (y + [sep] + rest);
  }

  /**
   * A piece that itself contains the separator joins to the same text as the
   * two pieces on either side of that separator.
   */
  lemma JoinSplitsPiece(pre: seq<string>, x: string, y: string, post: seq<string>, sep: char)
    requires post != []
    ensures JoinWith(pre + [x + [sep] + y] + post, sep) == JoinWith(pre + [x, y] + post, sep)
  {
    var tail := [x + [sep] + y] + post;
    var split := [x, y] + post;
    JoinSplitsFirst(x, y, post, sep);
    if pre != [] {
      JoinConcat(pre, tail, sep);
      JoinConcat(pre, split, sep);
      assert pre + [x + [sep] + y] + post == pre + tail;
      assert pre + [x, y] + post == pre + split;
    } else {
      assert pre + [x + [sep] + y] + post == tail;
      assert pre + [x, y] + post == split;
    }
  }

  /** Concatenation of all pieces, Python's `''.join(ws)`. */
  function Concat(ws: seq<string>): (r: string)
    ensures |r| >= (if ws == [] then 0 else |ws[0]|)
  {
    if ws == [] then [] else ws[0] + Concat(ws[1..])
  }
}
