/**
 * The placeholder syntax `{label.<name>}` and the guard `re.match(r'{\s*.*\s*}', s)`
 * that keeps the generator from relabelling text it already replaced
 * (lwc_label_generator.py lines 76, 97, 101 and 110).
 */
module Placeholders {
  import opened Chars

  /** The token written into the markup in place of the text of label `name`. */
  function Placeholder(name: string): (p: string)
    ensures |p| == |name| + 8
    ensures p[..7] == "{label." && p[7..|p| - 1] == name && p[|p| - 1] == '}'
  {
    "{label." + name + "}"
  }

  /** `m[..a]` is `\s*`, `m[a..b]` is `.*` (no newline) and `m[b..]` is `\s*`. */
  ghost predicate MiddleSplits(m: string, a: int, b: int) {
    0 <= a <= b <= |m| && AllSpace(m[..a]) && '\n' !in m[a..b] && AllSpace(m[b..])
  }

  /**
   * What the regex `{\s*.*\s*}` accepts under `re.match`: anchored at the start
   * but not at the end, a `{`, then a later `}` with text between them that
   * splits into whitespace, a newline-free run and whitespace.
   */
  ghost predicate MatchesPattern(s: string) {
    exists j, a, b :: 1 <= j < |s| && s[0] == '{' && s[j] == '}' && MiddleSplits(s[1..j], a, b)
  }

  /** Computable form of the middle part: only newlines inside the outer whitespace are allowed. */
  predicate MiddleFits(m: string) {
    var a := LeadingSpaces(m);
    var b := |m| - TrailingSpaces(m);
    a >= b || '\n' !in m[a..b]
  }

  /** The guard as the generator evaluates it. */
  predicate LooksLikePlaceholder(s: string) {
    s != [] && s[0] == '{' && exists j :: 1 <= j < |s| && s[j] == '}' && MiddleFits(s[1..j])
  }

  lemma MiddleFitsIff(m: string)
    ensures MiddleFits(m) <==> exists a, b :: MiddleSplits(m, a, b)
  {
    var a0 := LeadingSpaces(m);
    var t := TrailingSpaces(m);
    var b0 := |m| - t;
    if MiddleFits(m) {
      if a0 >= b0 {
        assert a0 == |m|;
        assert m[..|m|] == m;
        assert MiddleSplits(m, |m|, |m|);
      } else {
        assert MiddleSplits(m, a0, b0);
      }
    }
    if exists a, b :: MiddleSplits(m, a, b) {
      var a, b :| MiddleSplits(m, a, b);
      assert a <= a0 && b0 <= b;
      if a0 < b0 {
        forall i | a0 <= i < b0 ensures m[i] != '\n' {
          assert m[a..b][i - a] == m[i];
        }
        assert '\n' !in m[a0..b0];
      }
    }
  }

  /** The computed guard agrees with the regex on every string. */
  lemma {:induction false} GuardMatchesRegex(s: string)
    ensures LooksLikePlaceholder(s) <==> MatchesPattern(s)
  {
    if LooksLikePlaceholder(s) {
      var j :| 1 <= j < |s| && s[j] == '}' && MiddleFits(s[1..j]);
      MiddleFitsIff(s[1..j]);
      var a, b :| MiddleSplits(s[1..j], a, b);
    }
    if MatchesPattern(s) {
      var j, a, b :| 1 <= j < |s| && s[0] == '{' && s[j] == '}' && MiddleSplits(s[1..j], a, b);
      MiddleFitsIff(s[1..j]);
    }
  }

  /**
   * Every placeholder of a name without newlines is caught by the guard, and
   * has no surrounding whitespace to strip: the rewriting is stable.
   */
  lemma {:induction false} PlaceholderIsGuarded(name: string)
    requires '\n' !in name
    ensures LooksLikePlaceholder(Placeholder(name))
    ensures Strip(Placeholder(name)) == Placeholder(name)
  {
    var p := Placeholder(name);
    var m := p[1..|p| - 1];
    assert m == "label." + name;
    assert LeadingSpaces(m) == 0;
    assert '\n' !in m;
    assert MiddleFits(m);
    StripTrimmed(p);
  }
}
