/**
 * `SlugHelper.ToSlug`: turns a blog title into the URL fragment stored as a
 * post's slug. The source is a fixed chain of whole-string rewrites; each
 * rewrite is a function here, and `ToSlug` chains them in the source's order.
 */
module SlugHelper {
  import opened TextChars

  // ---------------------------------------------------------------------------
  // Character classes

  /** What `[a-z0-9\s-]` matches: the characters the deletion step keeps. */
  predicate IsKept(c: char) {
    IsAsciiLower(c) || IsAsciiDigit(c) || IsWhiteSpace(c) || c == '-'
  }

  predicate IsAlphaNumeric(c: char) {
    IsAsciiLower(c) || IsAsciiDigit(c)
  }

  predicate IsSlugChar(c: char) {
    IsAlphaNumeric(c) || c == '-'
  }

  predicate NoDoubleHyphen(s: string) {
    forall i :: 0 <= i < |s| - 1 ==> !(s[i] == '-' && s[i + 1] == '-')
  }

  /**
   * The shape of every slug: only `a`-`z`, `0`-`9` and `-`, no hyphen at
   * either end and never two hyphens in a row.
   */
  predicate IsSlug(s: string) {
    && (forall i :: 0 <= i < |s| ==> IsSlugChar(s[i]))
    && (s != [] ==> s[0] != '-' && s[|s| - 1] != '-')
    && NoDoubleHyphen(s)
  }

  /** The two kinds of run the source rewrites: `\s+` and `-+`. */
  datatype Run = Spaces | Hyphens

  predicate InRun(c: char, k: Run) {
    match k
    case Spaces => IsWhiteSpace(c)
    case Hyphens => c == '-'
  }

  // ---------------------------------------------------------------------------
  // Character-wise rewrites

  function MapChars(s: string, f: char -> char): (r: string)
    ensures |r| == |s|
  {
    if s == [] then [] else [f(s[0])] + MapChars(s[1..], f)
  }

  lemma {:induction false} MapCharsAt(s: string, f: char -> char)
    ensures forall i :: 0 <= i < |s| ==> MapChars(s, f)[i] == f(s[i])
    decreases |s|
  {
    if s != [] {
      MapCharsAt(s[1..], f);
    }
  }

  /**
   * `char.ToLowerInvariant` on the characters whose lower-case form can
   * survive the rest of the pipeline. Invariant casing leaves U+0130 (capital
   * I with dot) unchanged, and maps the Kelvin sign U+212A to `k`. Every other
   * capital outside ASCII lowers to a character the deletion step removes
   * just as it removes the capital, so it is left unchanged here.
   */
  function ToLowerInvariant(c: char): char {
    if IsAsciiUpper(c) then (c as int + 32) as char
    else if c == 'Ş' then 'ş'
    else if c == 'Ğ' then 'ğ'
    else if c == 'Ü' then 'ü'
    else if c == 'Ö' then 'ö'
    else if c == 'Ç' then 'ç'
    else if c == '\U{212A}' then 'k'
    else c
  }

  function LowerInvariant(s: string): string {
    MapChars(s, ToLowerInvariant)
  }

  /** `string.Replace(from, to)` for one-character arguments. */
  function ReplaceChar(s: string, from: char, to: char): (r: string)
    ensures |r| == |s|
  {
    if s == [] then [] else [if s[0] == from then to else s[0]] + ReplaceChar(s[1..], from, to)
  }

  lemma {:induction false} ReplaceCharAt(s: string, from: char, to: char)
    ensures forall i :: 0 <= i < |s| ==> ReplaceChar(s, from, to)[i] == if s[i] == from then to else s[i]
    decreases |s|
  {
    if s != [] {
      ReplaceCharAt(s[1..], from, to);
    }
  }

  /** The chain of twelve `Replace` calls, in the source's order. */
  function ReplaceTurkishLetters(s: string): string {
    var s1 := ReplaceChar(ReplaceChar(s, 'ş', 's'), 'Ş', 's');
    var s2 := ReplaceChar(ReplaceChar(s1, 'ı', 'i'), 'İ', 'i');
    var s3 := ReplaceChar(ReplaceChar(s2, 'ğ', 'g'), 'Ğ', 'g');
    var s4 := ReplaceChar(ReplaceChar(s3, 'ü', 'u'), 'Ü', 'u');
    var s5 := ReplaceChar(ReplaceChar(s4, 'ö', 'o'), 'Ö', 'o');
    ReplaceChar(ReplaceChar(s5, 'ç', 'c'), 'Ç', 'c')
  }

  /** The substitution table the chain applies, one character at a time. */
  function Transliterate(c: char): char {
    if c == 'ş' || c == 'Ş' then 's'
    else if c == 'ı' || c == 'İ' then 'i'
    else if c == 'ğ' || c == 'Ğ' then 'g'
    else if c == 'ü' || c == 'Ü' then 'u'
    else if c == 'ö' || c == 'Ö' then 'o'
    else if c == 'ç' || c == 'Ç' then 'c'
    else c
  }

  // ---------------------------------------------------------------------------
  // Deletion

  /** The characters of `s` that satisfy `p`, in order. */
  function Filter(s: string, p: char -> bool): (r: string)
    ensures |r| <= |s|
  {
    if s == [] then [] else (if p(s[0]) then [s[0]] else []) + Filter(s[1..], p)
  }

  /** `Regex.Replace(s, @"[^a-z0-9\s-]", "")`. */
  function StripDisallowed(s: string): string {
    Filter(s, IsKept)
  }

  lemma {:induction false} FilterChars(s: string, p: char -> bool)
    ensures forall c :: c in Filter(s, p) ==> c in s && p(c)
    decreases |s|
  {
    if s != [] {
      FilterChars(s[1..], p);
    }
  }

  // ---------------------------------------------------------------------------
  // Trimming

  /** Removes the longest prefix of `s` made of characters of run `k`. */
  function DropPrefix(s: string, k: Run): (r: string)
    ensures |r| <= |s| && r == s[|s| - |r|..]
  {
    if s != [] && InRun(s[0], k) then DropPrefix(s[1..], k) else s
  }

  /** Removes the longest suffix of `s` made of characters of run `k`. */
  function DropSuffix(s: string, k: Run): (r: string)
    ensures |r| <= |s| && r == s[..|r|]
  {
    if s != [] && InRun(s[|s| - 1], k) then DropSuffix(s[..|s| - 1], k) else s
  }

  /** `Trim()` for `Spaces`, `Trim('-')` for `Hyphens`. */
  function Trim(s: string, k: Run): string {
    DropSuffix(DropPrefix(s, k), k)
  }

  lemma {:induction false} DropPrefixFirst(s: string, k: Run)
    ensures DropPrefix(s, k) != [] ==> !InRun(DropPrefix(s, k)[0], k)
    decreases |s|
  {
    if s != [] && InRun(s[0], k) {
      DropPrefixFirst(s[1..], k);
    }
  }

  lemma {:induction false} DropSuffixLast(s: string, k: Run)
    ensures var r := DropSuffix(s, k); r != [] ==> !InRun(r[|r| - 1], k)
    decreases |s|
  {
    if s != [] && InRun(s[|s| - 1], k) {
      DropSuffixLast(s[..|s| - 1], k);
    }
  }

  /** A trimmed string is a piece of the original with no run character at either end. */
  lemma TrimEnds(s: string, k: Run)
    ensures var r := Trim(s, k); r != [] ==> !InRun(r[0], k) && !InRun(r[|r| - 1], k)
    ensures forall c :: c in Trim(s, k) ==> c in s
  {
    var d := DropPrefix(s, k);
    var r := DropSuffix(d, k);
    DropPrefixFirst(s, k);
    DropSuffixLast(d, k);
    assert forall i :: 0 <= i < |r| ==> r[i] == s[|s| - |d| + i];
  }

  // ---------------------------------------------------------------------------
  // Runs

  /**
   * `Regex.Replace(s, @"\s+", "-")` for `Spaces` and
   * `Regex.Replace(s, @"-+", "-")` for `Hyphens`: every maximal run of
   * characters of the class becomes one hyphen.
   */
  function ReplaceRuns(s: string, k: Run): string {
    ReplaceRunsAfter(s, k, false)
  }

  /**
   * The same rewrite scanning from left to right; `inRun` says whether the
   * character before `s` belonged to a run, whose hyphen is then already out.
   */
  function ReplaceRunsAfter(s: string, k: Run, inRun: bool): string
    decreases |s|
  {
    if s == [] then []
    else if InRun(s[0], k) then (if inRun then [] else "-") + ReplaceRunsAfter(s[1..], k, true)
    else [s[0]] + ReplaceRunsAfter(s[1..], k, false)
  }

  lemma {:induction false} RunsChars(s: string, k: Run, inRun: bool)
    ensures forall c :: c in ReplaceRunsAfter(s, k, inRun) ==> c == '-' || (c in s && !InRun(c, k))
    decreases |s|
  {
    if s != [] {
      RunsChars(s[1..], k, InRun(s[0], k));
    }
  }

  /** A character outside the run at either end of `s` stays at that end. */
  lemma {:induction false} RunsKeepEnds(s: string, k: Run, inRun: bool)
    ensures var r := ReplaceRunsAfter(s, k, inRun);
      && (s != [] && !InRun(s[0], k) ==> r != [] && r[0] == s[0])
      && (s != [] && !InRun(s[|s| - 1], k) ==> r != [] && r[|r| - 1] == s[|s| - 1])
    decreases |s|
  {
    if |s| > 1 {
      RunsKeepEnds(s[1..], k, InRun(s[0], k));
    }
  }

  /** After `-+` is replaced by `-`, no two hyphens are adjacent. */
  lemma {:induction false} HyphenRunsCollapse(s: string, inRun: bool)
    ensures var r := ReplaceRunsAfter(s, Hyphens, inRun);
      NoDoubleHyphen(r) && (inRun && r != [] ==> r[0] != '-')
    decreases |s|
  {
    if s != [] {
      HyphenRunsCollapse(s[1..], s[0] == '-');
    }
  }

  // ---------------------------------------------------------------------------
  // The pipeline

  /** Whitespace runs become `-`, hyphens are trimmed from both ends, then `-` runs collapse. */
  function Hyphenate(kept: string): string {
    var dashed := Trim(ReplaceRuns(kept, Spaces), Hyphens);
    ReplaceRuns(dashed, Hyphens)
  }

  lemma HyphenateIsSlug(kept: string)
    requires forall c :: c in kept ==> IsKept(c)
    ensures IsSlug(Hyphenate(kept))
  {
    var spaced := ReplaceRuns(kept, Spaces);
    var dashed := Trim(spaced, Hyphens);
    var slug := ReplaceRuns(dashed, Hyphens);
    RunsChars(kept, Spaces, false);
    TrimEnds(spaced, Hyphens);
    RunsChars(dashed, Hyphens, false);
    RunsKeepEnds(dashed, Hyphens, false);
    HyphenRunsCollapse(dashed, false);
    assert forall i :: 0 <= i < |slug| ==> slug[i] in slug;
  }

  function ToSlug(text: string): (slug: string)
    ensures IsSlug(slug)
  {
    var lowered := Trim(LowerInvariant(text), Spaces);
    var latin := ReplaceTurkishLetters(lowered);
    var kept := StripDisallowed(latin);
    FilterChars(latin, IsKept);
    HyphenateIsSlug(kept);
    Hyphenate(kept)
  }
}
