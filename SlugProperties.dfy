/**
 * What `SlugHelper.ToSlug` guarantees: its output shape (stated on `ToSlug`
 * itself), idempotence, what happens to letters, to deleted characters and
 * to separators, and when the result is empty.
 */
module SlugProperties {
  import opened TextChars
  import opened SlugHelper

  // ---------------------------------------------------------------------------
  // Reference definitions

  /** One input character after lower-casing and the substitution table. */
  function Fold(c: char): char {
    Transliterate(ToLowerInvariant(c))
  }

  /** The input after lower-casing, substitution and deletion, without the initial `Trim()`. */
  function Filtered(text: string): string {
    StripDisallowed(ReplaceTurkishLetters(LowerInvariant(text)))
  }

  /** The letters and digits of `s`, in order. */
  function AlphaNumerics(s: string): string {
    Filter(s, IsAlphaNumeric)
  }

  /** The letters the substitution table knows, ASCII letters and digits, and the Kelvin sign. */
  predicate IsFoldable(c: char) {
    || IsAsciiLower(c) || IsAsciiUpper(c) || IsAsciiDigit(c)
    || c in "şŞıİğĞüÜöÖçÇ" || c == '\U{212A}'
  }

  /** Every character of `s` belongs to run `k`. */
  predicate AllIn(s: string, k: Run) {
    forall c :: c in s ==> InRun(c, k)
  }

  predicate IsWord(w: string) {
    w != [] && forall c :: c in w ==> IsAlphaNumeric(c)
  }

  /** A non-empty stretch of whitespace and hyphens between two words. */
  predicate IsGap(g: string) {
    g != [] && forall c :: c in g ==> IsWhiteSpace(c) || c == '-'
  }

  predicate IsDash(g: string) {
    g != [] && AllIn(g, Hyphens)
  }

  /** `words[0] + gaps[0] + words[1] + ... + words[n]`. */
  function Interleave(words: seq<string>, gaps: seq<string>): string
    requires |words| == |gaps| + 1
    decreases |gaps|
  {
    if gaps == [] then words[0]
    else words[0] + (gaps[0] + Interleave(words[1..], gaps[1..]))
  }

  /** `words[0] + "-" + words[1] + ... + words[n]`. */
  function JoinWithHyphen(words: seq<string>): string
    requires |words| >= 1
    decreases |words|
  {
    if |words| == 1 then words[0]
    else words[0] + ("-" + JoinWithHyphen(words[1..]))
  }

  lemma Assoc(a: string, b: string, c: string)
    ensures a + b + c == a + (b + c)
  {
  }

  // ---------------------------------------------------------------------------
  // Character-wise rewrites

  lemma {:induction false} MapCharsAppend(a: string, b: string, f: char -> char)
    ensures MapChars(a + b, f) == MapChars(a, f) + MapChars(b, f)
    decreases |a|
  {
    if a == [] {
      assert a + b == b;
    } else {
      assert (a + b)[1..] == a[1..] + b;
      MapCharsAppend(a[1..], b, f);
    }
  }

  lemma {:induction false} MapCharsFixed(s: string, f: char -> char)
    requires forall c :: c in s ==> f(c) == c
    ensures MapChars(s, f) == s
    decreases |s|
  {
    if s != [] {
      MapCharsFixed(s[1..], f);
    }
  }

  /** Lower-casing and then applying the table is `Fold`, character by character. */
  lemma {:induction false} LowerThenTable(text: string)
    ensures MapChars(LowerInvariant(text), Transliterate) == MapChars(text, Fold)
    decreases |text|
  {
    if text != [] {
      LowerThenTable(text[1..]);
    }
  }

  /** The twelve chained `Replace` calls act as the table `Transliterate`. */
  lemma ReplaceTurkishLettersIsTable(s: string)
    ensures ReplaceTurkishLetters(s) == MapChars(s, Transliterate)
  {
    var s0 := ReplaceChar(s, 'ş', 's');
    var s1 := ReplaceChar(s0, 'Ş', 's');
    var t0 := ReplaceChar(s1, 'ı', 'i');
    var s2 := ReplaceChar(t0, 'İ', 'i');
    var t1 := ReplaceChar(s2, 'ğ', 'g');
    var s3 := ReplaceChar(t1, 'Ğ', 'g');
    var t2 := ReplaceChar(s3, 'ü', 'u');
    var s4 := ReplaceChar(t2, 'Ü', 'u');
    var t3 := ReplaceChar(s4, 'ö', 'o');
    var s5 := ReplaceChar(t3, 'Ö', 'o');
    var t4 := ReplaceChar(s5, 'ç', 'c');
    var r := ReplaceChar(t4, 'Ç', 'c');
    ReplaceCharAt(s, 'ş', 's');
    ReplaceCharAt(s0, 'Ş', 's');
    ReplaceCharAt(s1, 'ı', 'i');
    ReplaceCharAt(t0, 'İ', 'i');
    ReplaceCharAt(s2, 'ğ', 'g');
    ReplaceCharAt(t1, 'Ğ', 'g');
    ReplaceCharAt(s3, 'ü', 'u');
    ReplaceCharAt(t2, 'Ü', 'u');
    ReplaceCharAt(s4, 'ö', 'o');
    ReplaceCharAt(t3, 'Ö', 'o');
    ReplaceCharAt(s5, 'ç', 'c');
    ReplaceCharAt(t4, 'Ç', 'c');
    MapCharsAt(s, Transliterate);
    assert r == MapChars(s, Transliterate);
  }

  lemma TableFixed(s: string)
    requires forall c :: c in s ==> Transliterate(c) == c
    ensures ReplaceTurkishLetters(s) == s
  {
    ReplaceTurkishLettersIsTable(s);
    MapCharsFixed(s, Transliterate);
  }

  lemma TableAppend(a: string, b: string)
    ensures ReplaceTurkishLetters(a + b) == ReplaceTurkishLetters(a) + ReplaceTurkishLetters(b)
  {
    ReplaceTurkishLettersIsTable(a + b);
    ReplaceTurkishLettersIsTable(a);
    ReplaceTurkishLettersIsTable(b);
    MapCharsAppend(a, b, Transliterate);
  }

  lemma FilteredIsPerChar(text: string)
    ensures Filtered(text) == Filter(MapChars(text, Fold), IsKept)
  {
    ReplaceTurkishLettersIsTable(LowerInvariant(text));
    LowerThenTable(text);
  }

  // ---------------------------------------------------------------------------
  // Deletion

  lemma {:induction false} FilterAppend(a: string, b: string, p: char -> bool)
    ensures Filter(a + b, p) == Filter(a, p) + Filter(b, p)
    decreases |a|
  {
    if a == [] {
      assert a + b == b;
    } else {
      var head: string := if p(a[0]) then [a[0]] else [];
      assert (a + b)[0] == a[0] && (a + b)[1..] == a[1..] + b;
      FilterAppend(a[1..], b, p);
      Assoc(head, Filter(a[1..], p), Filter(b, p));
    }
  }

  lemma {:induction false} FilterUnchanged(s: string, p: char -> bool)
    requires forall c :: c in s ==> p(c)
    ensures Filter(s, p) == s
    decreases |s|
  {
    if s != [] {
      FilterUnchanged(s[1..], p);
    }
  }

  lemma {:induction false} FilterNone(s: string, p: char -> bool)
    requires forall c :: c in s ==> !p(c)
    ensures Filter(s, p) == []
    decreases |s|
  {
    if s != [] {
      FilterNone(s[1..], p);
    }
  }

  /** Keeping `[a-z0-9]` after keeping `[a-z0-9\s-]` keeps `[a-z0-9]`. */
  lemma {:induction false} AlphaNumericsOfKept(s: string)
    ensures AlphaNumerics(Filter(s, IsKept)) == AlphaNumerics(s)
    decreases |s|
  {
    if s != [] {
      AlphaNumericsOfKept(s[1..]);
      FilterAppend(if IsKept(s[0]) then [s[0]] else [], Filter(s[1..], IsKept), IsAlphaNumeric);
    }
  }

  /** Deleting what `Fold` sends outside `[a-z0-9\s-]` is the same as never having had it. */
  lemma FoldDeletes(a: string, c: char, b: string)
    requires !IsKept(Fold(c))
    ensures Filter(MapChars(a + [c] + b, Fold), IsKept) == Filter(MapChars(a + b, Fold), IsKept)
  {
    MapCharsAppend(a + [c], b, Fold);
    MapCharsAppend(a, [c], Fold);
    MapCharsAppend(a, b, Fold);
    var fa, fb := MapChars(a, Fold), MapChars(b, Fold);
    assert MapChars([c], Fold) == [Fold(c)];
    FilterAppend(fa + [Fold(c)], fb, IsKept);
    FilterAppend(fa, [Fold(c)], IsKept);
    FilterAppend(fa, fb, IsKept);
    assert Filter([Fold(c)], IsKept) == [];
  }

  // ---------------------------------------------------------------------------
  // Trimming

  /** `DropPrefix` removes a prefix made of run characters only. */
  lemma {:induction false} DropPrefixSplit(s: string, k: Run) returns (p: string)
    ensures s == p + DropPrefix(s, k) && AllIn(p, k)
    decreases |s|
  {
    if s != [] && InRun(s[0], k) {
      var rest := DropPrefixSplit(s[1..], k);
      p := [s[0]] + rest;
      Assoc([s[0]], rest, DropPrefix(s, k));
      assert s == [s[0]] + s[1..];
    } else {
      p := [];
      assert s == p + s;
    }
  }

  /** `DropSuffix` removes a suffix made of run characters only. */
  lemma {:induction false} DropSuffixSplit(s: string, k: Run) returns (q: string)
    ensures s == DropSuffix(s, k) + q && AllIn(q, k)
    decreases |s|
  {
    if s != [] && InRun(s[|s| - 1], k) {
      var init := s[..|s| - 1];
      var rest := DropSuffixSplit(init, k);
      q := rest + [s[|s| - 1]];
      Assoc(DropSuffix(s, k), rest, [s[|s| - 1]]);
      assert s == init + [s[|s| - 1]];
    } else {
      q := [];
      assert s == s + q;
    }
  }

  /** Trimming removes a prefix and a suffix made of run characters only. */
  lemma TrimSplit(x: string, k: Run) returns (p: string, q: string)
    ensures x == p + Trim(x, k) + q && AllIn(p, k) && AllIn(q, k)
  {
    p := DropPrefixSplit(x, k);
    q := DropSuffixSplit(DropPrefix(x, k), k);
    Assoc(p, Trim(x, k), q);
  }

  lemma {:induction false} DropPrefixAppend(a: string, b: string, k: Run)
    ensures DropPrefix(a + b, k) ==
              if DropPrefix(a, k) != [] then DropPrefix(a, k) + b else DropPrefix(b, k)
    decreases |a|
  {
    if a == [] {
      assert a + b == b;
    } else {
      assert (a + b)[1..] == a[1..] + b;
      if InRun(a[0], k) {
        DropPrefixAppend(a[1..], b, k);
      }
    }
  }

  lemma TrimUnchanged(s: string, k: Run)
    requires s == [] || (!InRun(s[0], k) && !InRun(s[|s| - 1], k))
    ensures Trim(s, k) == s
  {
  }

  lemma TrimLeadingHyphen(z: string)
    ensures Trim("-" + z, Hyphens) == Trim(z, Hyphens)
  {
    assert ("-" + z)[1..] == z;
  }

  lemma TrimTrailingHyphen(z: string)
    ensures Trim(z + "-", Hyphens) == Trim(z, Hyphens)
  {
    DropPrefixAppend(z, "-", Hyphens);
    var d := DropPrefix(z, Hyphens);
    if d != [] {
      assert (d + "-")[..|d|] == d;
    } else {
      assert DropPrefix("-", Hyphens) == DropPrefix([], Hyphens);
    }
  }

  // ---------------------------------------------------------------------------
  // Runs

  /** Whether the scan is inside a run after reading `x`, having started in state `inRun`. */
  function After(x: string, k: Run, inRun: bool): bool {
    if x == [] then inRun else InRun(x[|x| - 1], k)
  }

  /** Rewriting a concatenation rewrites each part, the second starting where the first left off. */
  lemma {:induction false} RunsSplit(x: string, y: string, k: Run, inRun: bool)
    ensures ReplaceRunsAfter(x + y, k, inRun)
         == ReplaceRunsAfter(x, k, inRun) + ReplaceRunsAfter(y, k, After(x, k, inRun))
    decreases |x|
  {
    if x == [] {
      assert x + y == y;
    } else {
      assert (x + y)[1..] == x[1..] + y;
      RunsSplit(x[1..], y, k, InRun(x[0], k));
    }
  }

  /** The starting state only matters when `s` itself starts with a run character. */
  lemma RunsStart(s: string, k: Run)
    ensures s == [] || !InRun(s[0], k) ==> ReplaceRunsAfter(s, k, true) == ReplaceRunsAfter(s, k, false)
    ensures s != [] && InRun(s[0], k) ==> ReplaceRunsAfter(s, k, false) == "-" + ReplaceRunsAfter(s, k, true)
  {
  }

  lemma {:induction false} RunsUnchanged(s: string, k: Run, inRun: bool)
    requires forall c :: c in s ==> !InRun(c, k)
    ensures ReplaceRunsAfter(s, k, inRun) == s
    decreases |s|
  {
    if s != [] {
      RunsUnchanged(s[1..], k, false);
    }
  }

  /** A non-empty string made only of run characters becomes one hyphen, or nothing inside a run. */
  lemma {:induction false} WholeRunCollapses(g: string, k: Run, inRun: bool)
    requires g != [] && AllIn(g, k)
    ensures ReplaceRunsAfter(g, k, inRun) == if inRun then [] else "-"
    decreases |g|
  {
    if |g| > 1 {
      WholeRunCollapses(g[1..], k, true);
    }
  }

  /** With no `--` present, `-+` to `-` changes nothing. */
  lemma {:induction false} CollapseUnchanged(s: string, inRun: bool)
    requires NoDoubleHyphen(s)
    requires inRun && s != [] ==> s[0] != '-'
    ensures ReplaceRunsAfter(s, Hyphens, inRun) == s
    decreases |s|
  {
    if s != [] {
      var t := s[1..];
      assert NoDoubleHyphen(t) by {
        assert forall i :: 0 <= i < |t| ==> t[i] == s[i + 1];
      }
      CollapseUnchanged(t, s[0] == '-');
    }
  }

  /** Trailing whitespace adds at most a trailing hyphen, which `Trim('-')` removes. */
  lemma TrailingSpaces(s: string, q: string)
    requires AllIn(q, Spaces)
    ensures Trim(ReplaceRuns(s + q, Spaces), Hyphens) == Trim(ReplaceRuns(s, Spaces), Hyphens)
  {
    RunsSplit(s, q, Spaces, false);
    if q == [] {
      assert s + q == s;
    } else {
      var core := ReplaceRuns(s, Spaces);
      WholeRunCollapses(q, Spaces, After(s, Spaces, false));
      assert core + [] == core;
      TrimTrailingHyphen(core);
    }
  }

  /** Leading whitespace adds at most a leading hyphen, which `Trim('-')` removes. */
  lemma LeadingSpaces(p: string, t: string)
    requires AllIn(p, Spaces)
    ensures Trim(ReplaceRuns(p + t, Spaces), Hyphens) == Trim(ReplaceRuns(t, Spaces), Hyphens)
  {
    RunsSplit(p, t, Spaces, false);
    if p == [] {
      assert p + t == t;
    } else {
      WholeRunCollapses(p, Spaces, false);
      RunsStart(t, Spaces);
      TrimLeadingHyphen(ReplaceRunsAfter(t, Spaces, true));
    }
  }

  /** Whitespace at either end of the filtered text does not reach the slug. */
  lemma HyphenateIgnoresOuterSpaces(p: string, s: string, q: string)
    requires AllIn(p, Spaces) && AllIn(q, Spaces)
    ensures Hyphenate(p + s + q) == Hyphenate(s)
  {
    Assoc(p, s, q);
    LeadingSpaces(p, s + q);
    TrailingSpaces(s, q);
  }

  /** Text made of letters and digits only passes both run rewrites unchanged. */
  lemma HyphenateAlphaNumerics(s: string)
    requires forall c :: c in s ==> IsAlphaNumeric(c)
    ensures Hyphenate(s) == s
  {
    assert s != [] ==> s[0] in s && s[|s| - 1] in s;
    RunsUnchanged(s, Spaces, false);
    TrimUnchanged(s, Hyphens);
    RunsUnchanged(s, Hyphens, false);
  }

  // ---------------------------------------------------------------------------
  // Consequences for ToSlug

  lemma TableOuterSpaces(p: string, m: string, q: string)
    requires AllIn(p, Spaces) && AllIn(q, Spaces)
    ensures ReplaceTurkishLetters(p + m + q) == p + ReplaceTurkishLetters(m) + q
  {
    TableAppend(p + m, q);
    TableAppend(p, m);
    TableFixed(p);
    TableFixed(q);
  }

  lemma StripOuterSpaces(p: string, m: string, q: string)
    requires AllIn(p, Spaces) && AllIn(q, Spaces)
    ensures StripDisallowed(p + m + q) == p + StripDisallowed(m) + q
  {
    FilterAppend(p + m, q, IsKept);
    FilterAppend(p, m, IsKept);
    FilterUnchanged(p, IsKept);
    FilterUnchanged(q, IsKept);
  }

  /** Deletion and the table leave whitespace around the text where it is. */
  lemma FilterOuterSpaces(p: string, m: string, q: string)
    requires AllIn(p, Spaces) && AllIn(q, Spaces)
    ensures StripDisallowed(ReplaceTurkishLetters(p + m + q))
         == p + StripDisallowed(ReplaceTurkishLetters(m)) + q
  {
    TableOuterSpaces(p, m, q);
    StripOuterSpaces(p, ReplaceTurkishLetters(m), q);
  }

  /** The initial `Trim()` of the source has no effect on the result. */
  lemma InitialTrimIsRedundant(text: string)
    ensures ToSlug(text) == Hyphenate(Filtered(text))
  {
    var lowered := LowerInvariant(text);
    var p, q := TrimSplit(lowered, Spaces);
    var m := Trim(lowered, Spaces);
    FilterOuterSpaces(p, m, q);
    HyphenateIgnoresOuterSpaces(p, StripDisallowed(ReplaceTurkishLetters(m)), q);
  }

  /** Lower-case kept characters are outside the substitution table. */
  lemma KeptIsLatin(s: string)
    requires forall c :: c in s ==> IsKept(c) && ToLowerInvariant(c) == c
    ensures forall c :: c in s ==> Transliterate(c) == c
  {
  }

  /** Text already made of kept, lower-case characters, with no whitespace at either end, goes straight to the run rewrites. */
  lemma KeptTextSkipsToRuns(s: string)
    requires forall c :: c in s ==> IsKept(c) && ToLowerInvariant(c) == c
    requires s == [] || (!IsWhiteSpace(s[0]) && !IsWhiteSpace(s[|s| - 1]))
    ensures ToSlug(s) == Hyphenate(s)
  {
    MapCharsFixed(s, ToLowerInvariant);
    TrimUnchanged(s, Spaces);
    KeptIsLatin(s);
    TableFixed(s);
    FilterUnchanged(s, IsKept);
  }

  lemma SlugChars(s: string)
    requires IsSlug(s)
    ensures forall c :: c in s ==> IsKept(c) && ToLowerInvariant(c) == c && !IsWhiteSpace(c)
  {
  }

  /** Every slug is left unchanged by `ToSlug`. */
  lemma SlugIsFixedPoint(s: string)
    requires IsSlug(s)
    ensures ToSlug(s) == s
  {
    SlugChars(s);
    KeptTextSkipsToRuns(s);
    RunsUnchanged(s, Spaces, false);
    TrimUnchanged(s, Hyphens);
    CollapseUnchanged(s, false);
  }

  lemma ToSlugIsIdempotent(text: string)
    ensures ToSlug(ToSlug(text)) == ToSlug(text)
  {
    SlugIsFixedPoint(ToSlug(text));
  }

  /** A character that lower-casing and the table send outside `[a-z0-9\s-]` is deleted, not replaced. */
  lemma DisallowedCharIsDeleted(a: string, c: char, b: string)
    requires !IsKept(Fold(c))
    ensures ToSlug(a + [c] + b) == ToSlug(a + b)
  {
    InitialTrimIsRedundant(a + [c] + b);
    InitialTrimIsRedundant(a + b);
    FilteredIsPerChar(a + [c] + b);
    FilteredIsPerChar(a + b);
    FoldDeletes(a, c, b);
  }

  lemma WordIsSlug(w: string)
    requires forall c :: c in w ==> IsAlphaNumeric(c)
    ensures IsSlug(w)
  {
    assert forall i :: 0 <= i < |w| ==> w[i] in w;
  }

  /** The "a!b" gives "ab" shape: an exclamation mark between two words is deleted and the words join. */
  lemma PunctuationJoinsWords(a: string, b: string)
    requires IsWord(a) && IsWord(b)
    ensures ToSlug(a + "!" + b) == a + b
  {
    assert a + "!" + b == a + ['!'] + b;
    DisallowedCharIsDeleted(a, '!', b);
    WordIsSlug(a + b);
    SlugIsFixedPoint(a + b);
  }

  // ---------------------------------------------------------------------------
  // Words and gaps

  lemma {:induction false} InterleaveEnds(words: seq<string>, gaps: seq<string>)
    requires |words| == |gaps| + 1
    requires forall i :: 0 <= i < |words| ==> IsWord(words[i])
    ensures var s := Interleave(words, gaps);
      s != [] && IsAlphaNumeric(s[0]) && IsAlphaNumeric(s[|s| - 1])
    decreases |gaps|
  {
    assert IsWord(words[0]);
    if gaps != [] {
      InterleaveEnds(words[1..], gaps[1..]);
    }
  }

  lemma {:induction false} InterleaveChars(words: seq<string>, gaps: seq<string>)
    requires |words| == |gaps| + 1
    requires forall i :: 0 <= i < |words| ==> IsWord(words[i])
    requires forall i :: 0 <= i < |gaps| ==> IsGap(gaps[i])
    ensures forall c :: c in Interleave(words, gaps) ==> IsAlphaNumeric(c) || IsWhiteSpace(c) || c == '-'
    decreases |gaps|
  {
    assert IsWord(words[0]);
    if gaps != [] {
      assert IsGap(gaps[0]);
      InterleaveChars(words[1..], gaps[1..]);
    }
  }

  /** Whitespace-and-hyphen gaps turn into non-empty runs of hyphens. */
  lemma GapToDash(g: string)
    requires IsGap(g)
    ensures IsDash(ReplaceRuns(g, Spaces))
  {
    RunsChars(g, Spaces, false);
  }

  /** The whitespace pass turns each gap into hyphens and leaves the words alone. */
  lemma {:induction false} SpacesPass(words: seq<string>, gaps: seq<string>) returns (dashes: seq<string>)
    requires |words| == |gaps| + 1
    requires forall i :: 0 <= i < |words| ==> IsWord(words[i])
    requires forall i :: 0 <= i < |gaps| ==> IsGap(gaps[i])
    ensures |dashes| == |gaps| && forall i :: 0 <= i < |dashes| ==> IsDash(dashes[i])
    ensures ReplaceRuns(Interleave(words, gaps), Spaces) == Interleave(words, dashes)
    decreases |gaps|
  {
    var w := words[0];
    assert IsWord(w);
    RunsUnchanged(w, Spaces, false);
    if gaps == [] {
      dashes := [];
    } else {
      var g, rest := gaps[0], Interleave(words[1..], gaps[1..]);
      var more := SpacesPass(words[1..], gaps[1..]);
      InterleaveEnds(words[1..], gaps[1..]);
      RunsSplit(w, g + rest, Spaces, false);
      RunsSplit(g, rest, Spaces, false);
      RunsStart(rest, Spaces);
      assert IsGap(g);
      GapToDash(g);
      dashes := [ReplaceRuns(g, Spaces)] + more;
      assert dashes[1..] == more;
    }
  }

  /** The hyphen pass turns each all-hyphen gap into a single hyphen. */
  lemma {:induction false} HyphensPass(words: seq<string>, dashes: seq<string>)
    requires |words| == |dashes| + 1
    requires forall i :: 0 <= i < |words| ==> IsWord(words[i])
    requires forall i :: 0 <= i < |dashes| ==> IsDash(dashes[i])
    ensures ReplaceRuns(Interleave(words, dashes), Hyphens) == JoinWithHyphen(words)
    decreases |dashes|
  {
    var w := words[0];
    assert IsWord(w);
    RunsUnchanged(w, Hyphens, false);
    if dashes != [] {
      var g, rest := dashes[0], Interleave(words[1..], dashes[1..]);
      HyphensPass(words[1..], dashes[1..]);
      InterleaveEnds(words[1..], dashes[1..]);
      assert IsDash(g);
      WholeRunCollapses(g, Hyphens, false);
      RunsSplit(w, g + rest, Hyphens, false);
      RunsSplit(g, rest, Hyphens, false);
      RunsStart(rest, Hyphens);
    }
  }

  lemma SeparatedWordsAreKept(s: string)
    requires forall c :: c in s ==> IsAlphaNumeric(c) || IsWhiteSpace(c) || c == '-'
    ensures forall c :: c in s ==> IsKept(c) && ToLowerInvariant(c) == c
  {
  }

  /** Words of letters and digits keep their text; each stretch of whitespace and hyphens between them becomes one `-`. */
  lemma WordsJoinedByOneHyphen(words: seq<string>, gaps: seq<string>)
    requires |words| == |gaps| + 1
    requires forall i :: 0 <= i < |words| ==> IsWord(words[i])
    requires forall i :: 0 <= i < |gaps| ==> IsGap(gaps[i])
    ensures ToSlug(Interleave(words, gaps)) == JoinWithHyphen(words)
  {
    var s := Interleave(words, gaps);
    InterleaveChars(words, gaps);
    InterleaveEnds(words, gaps);
    SeparatedWordsAreKept(s);
    KeptTextSkipsToRuns(s);
    var dashes := SpacesPass(words, gaps);
    InterleaveEnds(words, dashes);
    TrimUnchanged(Interleave(words, dashes), Hyphens);
    HyphensPass(words, dashes);
  }

  /** The worked example at the end of the source file. */
  lemma CommentExample()
    ensures ToSlug("ben ahmet - kaya") == "ben-ahmet-kaya"
  {
    var words, gaps := ["ben", "ahmet", "kaya"], [" ", " - "];
    assert Interleave(words, gaps) == "ben ahmet - kaya" by {
      assert Interleave(words[2..], gaps[2..]) == "kaya";
      assert Interleave(words[1..], gaps[1..]) == "ahmet - kaya";
    }
    assert JoinWithHyphen(words) == "ben-ahmet-kaya" by {
      assert JoinWithHyphen(words[2..]) == "kaya";
      assert JoinWithHyphen(words[1..]) == "ahmet-kaya";
    }
    WordsJoinedByOneHyphen(words, gaps);
  }

  /** Table letters, ASCII letters and digits fold into `[a-z0-9]`. */
  lemma FoldedAlphaNumeric(s: string)
    requires forall c :: c in s ==> IsFoldable(c)
    ensures forall c :: c in MapChars(s, Fold) ==> IsAlphaNumeric(c)
  {
    MapCharsAt(s, Fold);
    var f := MapChars(s, Fold);
    assert forall i :: 0 <= i < |f| ==> IsFoldable(s[i]) && f[i] == Fold(s[i]);
  }

  /** Letters of the table, ASCII letters and digits come out lower-cased and transliterated, one for one. */
  lemma LettersAreFolded(s: string)
    requires forall c :: c in s ==> IsFoldable(c)
    ensures ToSlug(s) == MapChars(s, Fold)
    ensures forall c :: c in ToSlug(s) ==> IsAlphaNumeric(c)
  {
    InitialTrimIsRedundant(s);
    FilteredIsPerChar(s);
    FoldedAlphaNumeric(s);
    FilterUnchanged(MapChars(s, Fold), IsKept);
    HyphenateAlphaNumerics(MapChars(s, Fold));
  }

  // ---------------------------------------------------------------------------
  // Letters and digits survive; emptiness

  lemma RunHasNoAlphaNumerics(p: string, k: Run)
    requires AllIn(p, k)
    ensures AlphaNumerics(p) == []
  {
    FilterNone(p, IsAlphaNumeric);
  }

  lemma DropPrefixKeepsAlphaNumerics(s: string, k: Run)
    ensures AlphaNumerics(DropPrefix(s, k)) == AlphaNumerics(s)
  {
    var pre := DropPrefixSplit(s, k);
    FilterAppend(pre, DropPrefix(s, k), IsAlphaNumeric);
    RunHasNoAlphaNumerics(pre, k);
  }

  lemma DropSuffixKeepsAlphaNumerics(s: string, k: Run)
    ensures AlphaNumerics(DropSuffix(s, k)) == AlphaNumerics(s)
  {
    var post := DropSuffixSplit(s, k);
    FilterAppend(DropSuffix(s, k), post, IsAlphaNumeric);
    RunHasNoAlphaNumerics(post, k);
  }

  lemma {:induction false} RunsKeepAlphaNumerics(s: string, k: Run, inRun: bool)
    ensures AlphaNumerics(ReplaceRunsAfter(s, k, inRun)) == AlphaNumerics(s)
    decreases |s|
  {
    if s != [] {
      var head: string := if InRun(s[0], k) then (if inRun then [] else "-") else [s[0]];
      RunsKeepAlphaNumerics(s[1..], k, InRun(s[0], k));
      FilterAppend(head, ReplaceRunsAfter(s[1..], k, InRun(s[0], k)), IsAlphaNumeric);
      FilterAppend([s[0]], s[1..], IsAlphaNumeric);
      assert s == [s[0]] + s[1..];
    }
  }

  lemma HyphenateKeepsAlphaNumerics(s: string)
    ensures AlphaNumerics(Hyphenate(s)) == AlphaNumerics(s)
  {
    var spaced := ReplaceRuns(s, Spaces);
    RunsKeepAlphaNumerics(s, Spaces, false);
    DropPrefixKeepsAlphaNumerics(spaced, Hyphens);
    DropSuffixKeepsAlphaNumerics(DropPrefix(spaced, Hyphens), Hyphens);
    RunsKeepAlphaNumerics(Trim(spaced, Hyphens), Hyphens, false);
  }

  /** No letter or digit of the lower-cased, transliterated input is lost, added or reordered. */
  lemma AlphaNumericsSurvive(text: string)
    ensures AlphaNumerics(ToSlug(text)) == AlphaNumerics(MapChars(text, Fold))
  {
    InitialTrimIsRedundant(text);
    HyphenateKeepsAlphaNumerics(Filtered(text));
    FilteredIsPerChar(text);
    AlphaNumericsOfKept(MapChars(text, Fold));
  }

  /** The slug is empty exactly when the input has no letter or digit that survives lower-casing and the table. */
  lemma SlugEmptyIff(text: string)
    ensures ToSlug(text) == [] <==> AlphaNumerics(MapChars(text, Fold)) == []
  {
    AlphaNumericsSurvive(text);
    var slug := ToSlug(text);
    if slug != [] {
      assert slug == [slug[0]] + slug[1..];
      FilterAppend([slug[0]], slug[1..], IsAlphaNumeric);
    }
  }
}
