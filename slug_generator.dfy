/**
 * The default slug generator (`defaultURLSlugGeneration`): lower-case the
 * text, turn every run of characters outside [a-z0-9-_] into one separator,
 * collapse runs of separators, and drop one trailing separator.
 *
 * The generator is a chain of two regular-expression replacements and a
 * trailing-character test. Each step is modelled as its own left-to-right
 * pass (ReplaceRuns, CollapseRuns, DropTrailing). Reference is an independent one-pass description of the
 * same normaliser, and GenerateMatchesReference proves that the chain and the
 * one-pass description agree. The properties of the output are proved on it.
 */
module SlugGenerator {

  /** The separator option. It is one character, and both choices lie in [a-z0-9-_]. */
  datatype Separator = Dash | Underscore {
    function Char(): char {
      if Dash? then '-' else '_'
    }
  }

  /** The characters the generator keeps: [a-z0-9-_]. */
  predicate IsSlugChar(c: char) {
    ('a' <= c <= 'z') || ('0' <= c <= '9') || c == '-' || c == '_'
  }

  /** A kept character other than the separator. */
  predicate IsWordChar(c: char, sep: char) {
    IsSlugChar(c) && c != sep
  }

  /** ASCII `toLowerCase` of one character. */
  function LowerChar(c: char): char {
    if 'A' <= c <= 'Z' then (c as int + 32) as char else c
  }

  function LowerCase(s: string): string {
    seq(|s|, i requires 0 <= i < |s| => LowerChar(s[i]))
  }

  /**
   * `replace(/([^a-z0-9\-\_]+)/g, separator)`: each maximal run of characters
   * outside [a-z0-9-_] becomes one separator. `inRun` is true when the
   * previous character was already inside such a run.
   */
  function ReplaceRuns(s: string, sep: char, inRun: bool): string
    decreases |s|
  {
    if s == [] then []
    else if IsSlugChar(s[0]) then [s[0]] + ReplaceRuns(s[1..], sep, false)
    else (if inRun then [] else [sep]) + ReplaceRuns(s[1..], sep, true)
  }

  /**
   * `replace(new RegExp(separator + '{2,}', 'g'), separator)`: each run of two or
   * more separators becomes one. `afterSep` is true when the previous character
   * was a separator.
   */
  function CollapseRuns(s: string, sep: char, afterSep: bool): string
    decreases |s|
  {
    if s == [] then []
    else if s[0] == sep then (if afterSep then [] else [sep]) + CollapseRuns(s[1..], sep, true)
    else [s[0]] + CollapseRuns(s[1..], sep, false)
  }

  /** Drops one trailing separator, if there is one. */
  function DropTrailing(s: string, sep: char): string {
    if |s| > 0 && s[|s| - 1] == sep then s[..|s| - 1] else s
  }

  /**
   * The one-pass normaliser. It reads lower-cased text, copies the word
   * characters, and writes one separator before a word character whenever
   * non-word characters came before it. `pending` records such characters.
   * A pending separator at the end of the text is never written.
   */
  function Reference(s: string, sep: char, pending: bool): string
    decreases |s|
  {
    if s == [] then []
    else if IsWordChar(s[0], sep) then (if pending then [sep, s[0]] else [s[0]]) + Reference(s[1..], sep, false)
    else Reference(s[1..], sep, true)
  }

  /**
   * A normalised slug: only [a-z0-9-_] characters, and every separator is
   * followed by a word character. So there are never two separators in a
   * row and never a trailing separator.
   */
  ghost predicate Normalized(r: string, sep: char) {
    forall i {:trigger r[i]} :: 0 <= i < |r| ==> IsSlugChar(r[i]) && (r[i] == sep ==> i + 1 < |r| && r[i + 1] != sep)
  }

  /** The word characters of `s`, in order. */
  function WordChars(s: string, sep: char): string
    decreases |s|
  {
    if s == [] then []
    else (if IsWordChar(s[0], sep) then [s[0]] else []) + WordChars(s[1..], sep)
  }

  /**
   * `defaultURLSlugGeneration(text, separator)`. Falsy text (empty, null or
   * undefined, all modelled as "") gives "".
   */
  function Generate(text: string, sep: Separator): (r: string)
    ensures text == "" ==> r == ""
    ensures forall i :: 0 <= i < |r| ==> IsSlugChar(r[i])
    ensures forall i :: 0 <= i < |r| - 1 ==> !(r[i] == sep.Char() && r[i + 1] == sep.Char())
    ensures r == "" || r[|r| - 1] != sep.Char()
  {
    if text == "" then ""
    else
      var c := sep.Char();
      var s := LowerCase(text);
      PipelineIsReference(s, c);
      ReferenceNormalized(s, c, false);
      DropTrailing(CollapseRuns(ReplaceRuns(s, c, false), c, false), c)
  }

  // ---------------------------------------------------------------------------
  // The three passes compute the one-pass normaliser

  /**
   * The first two passes together: every run of non-word characters gives one
   * separator, written as soon as the run starts. `afterSep` is true when a
   * separator was just written.
   */
  ghost function Eager(s: string, sep: char, afterSep: bool): string
    decreases |s|
  {
    if s == [] then []
    else if IsWordChar(s[0], sep) then [s[0]] + Eager(s[1..], sep, false)
    else (if afterSep then [] else [sep]) + Eager(s[1..], sep, true)
  }

  lemma {:induction false} CollapseAfterReplace(s: string, sep: char, inRun: bool, afterSep: bool)
    requires IsSlugChar(sep)
    requires inRun ==> afterSep
    ensures CollapseRuns(ReplaceRuns(s, sep, inRun), sep, afterSep) == Eager(s, sep, afterSep)
    decreases |s|
  {
    if s != [] {
      var rest := s[1..];
      if IsSlugChar(s[0]) {
        var y := ReplaceRuns(rest, sep, false);
        assert ReplaceRuns(s, sep, inRun) == [s[0]] + y;
        assert ([s[0]] + y)[1..] == y;
        if s[0] == sep {
          CollapseAfterReplace(rest, sep, false, true);
        } else {
          CollapseAfterReplace(rest, sep, false, false);
        }
      } else {
        var y := ReplaceRuns(rest, sep, true);
        CollapseAfterReplace(rest, sep, true, true);
        if inRun {
          assert ReplaceRuns(s, sep, inRun) == y;
        } else {
          assert ReplaceRuns(s, sep, inRun) == [sep] + y;
          assert ([sep] + y)[1..] == y;
          assert CollapseRuns([sep] + y, sep, afterSep)
              == (if afterSep then [] else [sep]) + CollapseRuns(y, sep, true);
        }
      }
    }
  }

  lemma DropTrailingAfterWord(p: string, x: string, sep: char)
    requires |p| > 0 && p[|p| - 1] != sep
    ensures DropTrailing(p + x, sep) == p + DropTrailing(x, sep)
  {
    if x == [] {
      assert p + x == p;
    } else {
      assert (p + x)[..|p + x| - 1] == p + x[..|x| - 1];
    }
  }

  lemma {:induction false} DropTrailingEager(s: string, sep: char)
    ensures DropTrailing(Eager(s, sep, false), sep) == Reference(s, sep, false)
    ensures DropTrailing([sep] + Eager(s, sep, true), sep) == Reference(s, sep, true)
    decreases |s|
  {
    if s == [] {
      assert [sep] + Eager(s, sep, true) == [sep];
    } else {
      var rest := s[1..];
      DropTrailingEager(rest, sep);
      if IsWordChar(s[0], sep) {
        var e := Eager(rest, sep, false);
        var tail := Reference(rest, sep, false);
        assert Eager(s, sep, false) == [s[0]] + e;
        assert Eager(s, sep, true) == [s[0]] + e;
        DropTrailingAfterWord([s[0]], e, sep);
        DropTrailingAfterWord([sep, s[0]], e, sep);
        assert [sep] + ([s[0]] + e) == [sep, s[0]] + e;
        assert Reference(s, sep, false) == [s[0]] + tail;
        assert Reference(s, sep, true) == [sep, s[0]] + tail;
      } else {
        var e := Eager(rest, sep, true);
        assert Eager(s, sep, false) == [sep] + e;
        assert Eager(s, sep, true) == [] + e;
        assert [] + e == e;
        assert Reference(s, sep, false) == Reference(rest, sep, true);
        assert Reference(s, sep, true) == Reference(rest, sep, true);
      }
    }
  }

  lemma PipelineIsReference(s: string, sep: char)
    requires IsSlugChar(sep)
    ensures DropTrailing(CollapseRuns(ReplaceRuns(s, sep, false), sep, false), sep) == Reference(s, sep, false)
  {
    CollapseAfterReplace(s, sep, false, false);
    DropTrailingEager(s, sep);
  }

  // ---------------------------------------------------------------------------
  // Properties of the one-pass normaliser

  lemma {:induction false} ReferenceNormalized(s: string, sep: char, pending: bool)
    requires IsSlugChar(sep)
    ensures Normalized(Reference(s, sep, pending), sep)
    decreases |s|
  {
    if s != [] {
      var rest := Reference(s[1..], sep, false);
      if IsWordChar(s[0], sep) {
        ReferenceNormalized(s[1..], sep, false);
        var p := if pending then [sep, s[0]] else [s[0]];
        var r := p + rest;
        forall i | 0 <= i < |r|
          ensures IsSlugChar(r[i]) && (r[i] == sep ==> i + 1 < |r| && r[i + 1] != sep)
        {
          if i >= |p| {
            assert r[i] == rest[i - |p|];
            if i + 1 < |r| {
              assert r[i + 1] == rest[i + 1 - |p|];
            }
          }
        }
      } else {
        ReferenceNormalized(s[1..], sep, true);
      }
    }
  }

  lemma WordCharsAppend(a: string, b: string, sep: char)
    ensures WordChars(a + b, sep) == WordChars(a, sep) + WordChars(b, sep)
    decreases |a|
  {
    if a != [] {
      assert (a + b)[1..] == a[1..] + b;
      WordCharsAppend(a[1..], b, sep);
    } else {
      assert a + b == b;
    }
  }

  lemma {:induction false} ReferenceKeepsWords(s: string, sep: char, pending: bool)
    ensures WordChars(Reference(s, sep, pending), sep) == WordChars(s, sep)
    decreases |s|
  {
    if s != [] {
      if IsWordChar(s[0], sep) {
        var p := if pending then [sep, s[0]] else [s[0]];
        ReferenceKeepsWords(s[1..], sep, false);
        WordCharsAppend(p, Reference(s[1..], sep, false), sep);
        if pending {
          assert WordChars(p, sep) == WordChars([s[0]], sep) by {
            assert p[1..] == [s[0]];
          }
        }
        assert [s[0]][1..] == [];
      } else {
        ReferenceKeepsWords(s[1..], sep, true);
      }
    }
  }

  lemma {:induction false} ReferenceEmpty(s: string, sep: char, pending: bool)
    ensures Reference(s, sep, pending) == [] <==> WordChars(s, sep) == []
    decreases |s|
  {
    if s != [] {
      ReferenceEmpty(s[1..], sep, !IsWordChar(s[0], sep));
    }
  }

  lemma {:induction false} ReferencePendingStartsWithSep(s: string, sep: char)
    requires Reference(s, sep, true) != []
    ensures Reference(s, sep, true)[0] == sep
    decreases |s|
  {
    if !IsWordChar(s[0], sep) {
      ReferencePendingStartsWithSep(s[1..], sep);
    }
  }

  lemma {:induction false} ReferenceFixesNormalized(r: string, sep: char)
    requires IsSlugChar(sep)
    requires Normalized(r, sep)
    ensures Reference(r, sep, false) == r
    decreases |r|
  {
    if r != [] {
      if r[0] == sep {
        assert r[1] != sep && IsSlugChar(r[1]);
        var rest := r[2..];
        assert Normalized(rest, sep) by {
          forall i | 0 <= i < |rest|
            ensures IsSlugChar(rest[i]) && (rest[i] == sep ==> i + 1 < |rest| && rest[i + 1] != sep)
          {
            assert rest[i] == r[i + 2];
            if i + 1 < |rest| {
              assert rest[i + 1] == r[i + 3];
            }
          }
        }
        ReferenceFixesNormalized(rest, sep);
        assert r[1..][1..] == rest;
        assert r == [sep, r[1]] + rest;
      } else {
        var rest := r[1..];
        assert Normalized(rest, sep) by {
          forall i | 0 <= i < |rest|
            ensures IsSlugChar(rest[i]) && (rest[i] == sep ==> i + 1 < |rest| && rest[i + 1] != sep)
          {
            assert rest[i] == r[i + 1];
            if i + 1 < |rest| {
              assert rest[i + 1] == r[i + 2];
            }
          }
        }
        ReferenceFixesNormalized(rest, sep);
        assert r == [r[0]] + rest;
      }
    }
  }

  // ---------------------------------------------------------------------------
  // Properties of the generator

  /** For non-empty text the generator is the one-pass normaliser of the lower-cased text. */
  lemma GenerateMatchesReference(text: string, sep: Separator)
    requires text != ""
    ensures Generate(text, sep) == Reference(LowerCase(text), sep.Char(), false)
  {
    PipelineIsReference(LowerCase(text), sep.Char());
  }

  /**
   * The generator keeps every word character of the lower-cased text, in
   * order, and nothing else but separators. It returns "" exactly when the
   * text has no word character.
   */
  lemma GenerateKeepsWords(text: string, sep: Separator)
    ensures WordChars(Generate(text, sep), sep.Char()) == WordChars(LowerCase(text), sep.Char())
    ensures Generate(text, sep) == "" <==> WordChars(LowerCase(text), sep.Char()) == []
  {
    if text != "" {
      GenerateMatchesReference(text, sep);
      ReferenceKeepsWords(LowerCase(text), sep.Char(), false);
      ReferenceEmpty(LowerCase(text), sep.Char(), false);
    }
  }

  /**
   * A leading separator is not removed. A non-empty slug starts with the
   * separator exactly when the text starts with a character that is not a
   * word character after lower-casing.
   */
  lemma GenerateLeadingSeparator(text: string, sep: Separator)
    requires Generate(text, sep) != ""
    ensures text != ""
    ensures Generate(text, sep)[0] == sep.Char() <==> !IsWordChar(LowerChar(text[0]), sep.Char())
  {
    var s := LowerCase(text);
    var c := sep.Char();
    GenerateMatchesReference(text, sep);
    assert s[0] == LowerChar(text[0]);
    if !IsWordChar(s[0], c) {
      ReferencePendingStartsWithSep(s[1..], c);
    }
  }

  lemma LowerCaseOfSlugChars(r: string)
    requires forall i :: 0 <= i < |r| ==> IsSlugChar(r[i])
    ensures LowerCase(r) == r
  {
  }

  /** Generating a slug from a generated slug gives it back. */
  lemma GenerateIdempotent(text: string, sep: Separator)
    ensures Generate(Generate(text, sep), sep) == Generate(text, sep)
  {
    var r := Generate(text, sep);
    var c := sep.Char();
    if r != "" {
      GenerateMatchesReference(text, sep);
      ReferenceNormalized(LowerCase(text), c, false);
      LowerCaseOfSlugChars(r);
      GenerateMatchesReference(r, sep);
      ReferenceFixesNormalized(r, c);
    }
  }

  /** A run of word characters is copied, after the separator when one is pending. */
  lemma {:induction false} ReferenceWord(w: string, rest: string, sep: char, pending: bool)
    requires w != [] && forall i :: 0 <= i < |w| ==> IsWordChar(w[i], sep)
    ensures Reference(w + rest, sep, pending) == (if pending then [sep] else []) + w + Reference(rest, sep, false)
    decreases |w|
  {
    var s := w + rest;
    assert s[0] == w[0] && s[1..] == w[1..] + rest;
    var tail := Reference(rest, sep, false);
    if |w| == 1 {
      assert w[1..] + rest == rest;
      assert w == [w[0]];
    } else {
      ReferenceWord(w[1..], rest, sep, false);
      assert Reference(s[1..], sep, false) == w[1..] + tail;
      assert w == [w[0]] + w[1..];
      if pending {
        assert [sep, w[0]] + (w[1..] + tail) == [sep] + w + tail;
      } else {
        assert [w[0]] + (w[1..] + tail) == w + tail;
      }
    }
  }

  /** A run of non-word characters writes nothing and leaves a separator pending. */
  lemma {:induction false} ReferenceGap(g: string, rest: string, sep: char, pending: bool)
    requires g != [] && forall i :: 0 <= i < |g| ==> !IsWordChar(g[i], sep)
    ensures Reference(g + rest, sep, pending) == Reference(rest, sep, true)
    decreases |g|
  {
    var s := g + rest;
    assert s[0] == g[0] && s[1..] == g[1..] + rest;
    if |g| == 1 {
      assert g[1..] + rest == rest;
    } else {
      ReferenceGap(g[1..], rest, sep, true);
    }
  }

  lemma LowerCaseAppend(a: string, b: string)
    ensures LowerCase(a + b) == LowerCase(a) + LowerCase(b)
  {
  }

  lemma {:induction false} ReferenceTwoWords(w1: string, g: string, w2: string, sep: char)
    requires w1 != [] && forall i :: 0 <= i < |w1| ==> IsWordChar(w1[i], sep)
    requires w2 != [] && forall i :: 0 <= i < |w2| ==> IsWordChar(w2[i], sep)
    requires g != [] && forall i :: 0 <= i < |g| ==> !IsWordChar(g[i], sep)
    ensures Reference(w1 + (g + w2), sep, false) == w1 + [sep] + w2
  {
    ReferenceWord(w1, g + w2, sep, false);
    ReferenceGap(g, w2, sep, false);
    ReferenceWord(w2, [], sep, true);
    assert w2 + [] == w2;
    assert Reference([], sep, false) == [];
    assert Reference(w2, sep, true) == [sep] + w2;
  }

  /**
   * Two words with a gap of other characters between them become the two
   * words joined by one separator, as "cool stuff" becomes "cool-stuff".
   */
  lemma GenerateTwoWords(w1: string, gap: string, w2: string, sep: Separator)
    requires w1 != [] && forall i :: 0 <= i < |w1| ==> IsWordChar(w1[i], sep.Char())
    requires w2 != [] && forall i :: 0 <= i < |w2| ==> IsWordChar(w2[i], sep.Char())
    requires gap != [] && forall i :: 0 <= i < |gap| ==> !IsWordChar(LowerChar(gap[i]), sep.Char())
    ensures Generate(w1 + gap + w2, sep) == w1 + [sep.Char()] + w2
  {
    var c := sep.Char();
    var lg := LowerCase(gap);
    GenerateMatchesReference(w1 + gap + w2, sep);
    assert LowerCase(w1 + gap + w2) == w1 + (lg + w2) by {
      LowerCaseAppend(w1 + gap, w2);
      LowerCaseAppend(w1, gap);
      LowerCaseOfSlugChars(w1);
      LowerCaseOfSlugChars(w2);
    }
    ReferenceTwoWords(w1, lg, w2, c);
  }
}
