/**
 `ArabicPostProcessor.process`, the page-text cleaning pipeline, and
 `validate_arabic_text`. The two regex-heavy stages (`fix_spacing` and
 `correct_common_errors`) are opaque functions passed in by the caller.
 */
module ArabicPostProcessor {
  import opened PyText
  import opened ArabicChars
  import opened Whitespace
  import opened Wrappers

  /** The config switches `process` consults. */
  datatype PostConfig = PostConfig(
    fixSpacing: bool,
    normalizeNumbers: bool,
    fixLigatures: bool,
    correctCommonErrors: bool,
    removeDiacritics: bool)

  /** FIX_SPACING, NORMALIZE_NUMBERS, FIX_ARABIC_LIGATURES, CORRECT_COMMON_ERRORS, REMOVE_DIACRITICS. */
  const DefaultPostConfig := PostConfig(true, true, true, true, false)

  /** The stages of `process` before the final strip, in their fixed order,
      each gated by its switch; whitespace normalisation always runs. */
  function Stages(text: string, cfg: PostConfig, fixSpacing: string -> string, correctErrors: string -> string): string {
    var t1 := if cfg.fixSpacing then fixSpacing(text) else text;
    var t2 := if cfg.normalizeNumbers then NormalizeNumbers(t1) else t1;
    var t3 := if cfg.fixLigatures then FixLigatures(t2) else t2;
    var t4 := if cfg.correctCommonErrors then correctErrors(t3) else t3;
    var t5 := NormalizeWhitespace(t4);
    if cfg.removeDiacritics then RemoveDiacritics(t5) else t5
  }

  /** `process`: empty text stays empty; otherwise the stages, then `strip()`. */
  function Process(text: string, cfg: PostConfig, fixSpacing: string -> string, correctErrors: string -> string): (r: string)
    ensures text == [] ==> r == []
    ensures r == [] || (!IsSpace(r[0]) && !IsSpace(r[|r| - 1]))
  {
    if text == [] then [] else Strip(Stages(text, cfg, fixSpacing, correctErrors))
  }

  lemma RStripClean(s: string)
    requires NoDoubleSpace(s) && NoSpaceBeforeLineEnd(s)
    ensures NoDoubleSpace(RStrip(s)) && NoSpaceBeforeLineEnd(RStrip(s))
  {
    var r := RStrip(s);
    PrefixNoDoubleSpace(r, s);
    forall i | 0 <= i < |r| && IsSpace(r[i]) && r[i] != '\n' ensures i + 1 < |r| && r[i + 1] != '\n' {
      assert r[i] == s[i];
      if i + 1 < |r| {
        assert r[i + 1] == s[i + 1];
      }
    }
  }

  lemma LStripClean(s: string)
    requires NoDoubleSpace(s) && NoSpaceBeforeLineEnd(s)
    ensures NoDoubleSpace(LStrip(s)) && NoSpaceBeforeLineEnd(LStrip(s))
  {
    var r := LStrip(s);
    var k := |s| - |r|;
    SuffixNoDoubleSpace(s, k);
    assert r == s[k..];
    forall i | 0 <= i < |r| && IsSpace(r[i]) && r[i] != '\n' ensures i + 1 < |r| && r[i + 1] != '\n' {
      assert r[i] == s[k + i];
      assert k + i + 1 < |s|;
      assert r[i + 1] == s[k + i + 1];
    }
  }

  lemma StripClean(s: string)
    requires NoDoubleSpace(s) && NoSpaceBeforeLineEnd(s)
    ensures NoDoubleSpace(Strip(s)) && NoSpaceBeforeLineEnd(Strip(s))
  {
    LStripClean(s);
    RStripClean(LStrip(s));
  }

  /** Without diacritic removal, processed text has no two consecutive spaces
      and no line of it ends in whitespace. */
  lemma ProcessCleanWhitespace(text: string, cfg: PostConfig, fixSpacing: string -> string, correctErrors: string -> string)
    requires !cfg.removeDiacritics
    ensures NoDoubleSpace(Process(text, cfg, fixSpacing, correctErrors))
    ensures NoSpaceBeforeLineEnd(Process(text, cfg, fixSpacing, correctErrors))
  {
    if text != [] {
      var t1 := if cfg.fixSpacing then fixSpacing(text) else text;
      var t2 := if cfg.normalizeNumbers then NormalizeNumbers(t1) else t1;
      var t3 := if cfg.fixLigatures then FixLigatures(t2) else t2;
      var t4 := if cfg.correctCommonErrors then correctErrors(t3) else t3;
      NormalizeWhitespaceClean(t4);
      assert Stages(text, cfg, fixSpacing, correctErrors) == NormalizeWhitespace(t4);
      StripClean(NormalizeWhitespace(t4));
    }
  }

  /** With diacritic removal switched on, the stage runs after whitespace
      normalisation, so deleting a mark that sat between two spaces leaves a
      double space in the output. */
  lemma DiacriticRemovalCanJoinSpaces()
    ensures !NoDoubleSpace(Process("a \U{064E} b", PostConfig(false, false, false, false, true), t => t, t => t))
  {
    var s := "a \U{064E} b";
    SampleWhitespace();
    SampleDiacritics();
    var r := "a  b";
    assert Stages(s, PostConfig(false, false, false, false, true), t => t, t => t) == r;
    SampleStrip();
    assert Process(s, PostConfig(false, false, false, false, true), t => t, t => t) == r;
    assert r[1] == ' ' && r[2] == ' ';
  }

  lemma SampleWhitespace()
    ensures NormalizeWhitespace("a \U{064E} b") == "a \U{064E} b"
  {
    var s := "a \U{064E} b";
    assert s[1..] == " \U{064E} b" && s[2..] == "\U{064E} b" && s[3..] == " b" && s[4..] == "b";
    assert CollapseSpaces(s[4..]) == s[4..];
    assert CollapseSpaces(s[3..]) == s[3..];
    assert CollapseSpaces(s[2..]) == s[2..];
    assert CollapseSpaces(s[1..]) == s[1..];
    assert CollapseSpaces(s) == s;
    assert CollapseNewlines(s[4..]) == s[4..];
    assert CollapseNewlines(s[3..]) == s[3..];
    assert CollapseNewlines(s[2..]) == s[2..];
    assert CollapseNewlines(s[1..]) == s[1..];
    assert CollapseNewlines(s) == s;
    SplitNoSep(s, '\n');
    assert RStrip(s) == s;
    assert RStripAll([s]) == [s];
  }

  lemma SampleDiacritics()
    ensures RemoveDiacritics("a \U{064E} b") == "a  b"
  {
    var s := "a \U{064E} b";
    assert s[1..] == " \U{064E} b" && s[2..] == "\U{064E} b" && s[3..] == " b" && s[4..] == "b";
  }

  lemma SampleStrip()
    ensures Strip("a  b") == "a  b"
  {
    assert LStrip("a  b") == "a  b";
    assert RStrip("a  b") == "a  b";
  }

  /** Digit- and ligature-free text. */
  predicate Normalised(s: string) {
    NoEasternDigits(s) && NoLigatures(s)
  }

  /** Text built only from characters of normalised text is normalised. */
  lemma NormalisedSubset(r: string, s: string)
    requires Normalised(s)
    requires forall c :: c in r ==> c in s
    ensures Normalised(r)
  {
    forall i | 0 <= i < |r| ensures !IsEasternDigit(r[i]) && !IsLigature(r[i]) {
      assert r[i] in s;
    }
  }

  /** With number normalisation and ligature fixing on, and a
      `correct_common_errors` that does not introduce Eastern digits or
      ligatures, processed text holds neither. */
  lemma ProcessNormalisesDigitsAndLigatures(text: string, cfg: PostConfig, fixSpacing: string -> string, correctErrors: string -> string)
    requires cfg.normalizeNumbers && cfg.fixLigatures
    requires forall t :: Normalised(t) ==> Normalised(correctErrors(t))
    ensures Normalised(Process(text, cfg, fixSpacing, correctErrors))
  {
    if text != [] {
      var t1 := if cfg.fixSpacing then fixSpacing(text) else text;
      var t2 := NormalizeNumbers(t1);
      NormalizeNumbersIdempotent(t1);
      var t3 := FixLigatures(t2);
      FixLigaturesKeepsDigitsOut(t2);
      FixLigaturesIdempotent(t2);
      assert Normalised(t3);
      var t4 := if cfg.correctCommonErrors then correctErrors(t3) else t3;
      assert Normalised(t4);
      var t5 := NormalizeWhitespace(t4);
      NormalizeWhitespaceClean(t4);
      NormalisedSubset(t5, t4);
      var t6 := if cfg.removeDiacritics then RemoveDiacritics(t5) else t5;
      RemoveDiacriticsKeepsOthers(t5);
      NormalisedSubset(t6, t5);
      assert Stages(text, cfg, fixSpacing, correctErrors) == t6;
      StripRemovesSpaces(t6);
      NormalisedSubset(Strip(t6), t6);
    }
  }

  /** The separator `process_single_file` puts between processed pages. */
  const PageBreak: string := "\n\n--- Page Break ---\n\n"

  /** The document text written to the TXT output: every page's text run
      through `process`, joined with PageBreak. */
  function DocumentText(pageTexts: seq<string>, cfg: PostConfig, fixSpacing: string -> string, correctErrors: string -> string): (r: string)
    ensures pageTexts == [] ==> r == []
    ensures pageTexts != [] ==> Process(pageTexts[0], cfg, fixSpacing, correctErrors) <= r
  {
    var processed := seq(|pageTexts|, i requires 0 <= i < |pageTexts| => Process(pageTexts[i], cfg, fixSpacing, correctErrors));
    Join(processed, PageBreak)
  }

  // ---------------------------------------------------------------------------
  // validate_arabic_text
  // ---------------------------------------------------------------------------

  /** The regex class `[؀-ۿ]`, the Arabic block. */
  predicate IsArabicBlock(c: char) { '\U{0600}' <= c <= '\U{06FF}' }

  function ArabicCount(s: string): nat {
    if s == [] then 0 else (if IsArabicBlock(s[0]) then 1 else 0) + ArabicCount(s[1..])
  }

  /** Matches of `\S`. */
  function NonSpaceCount(s: string): nat {
    if s == [] then 0 else (if IsSpace(s[0]) then 0 else 1) + NonSpaceCount(s[1..])
  }

  /** No character of the Arabic block is whitespace, so the Arabic count never
      exceeds the non-whitespace count. */
  lemma {:induction false} ArabicAtMostNonSpace(s: string)
    ensures ArabicCount(s) <= NonSpaceCount(s)
  {
    if s != [] {
      ArabicAtMostNonSpace(s[1..]);
    }
  }

  /** Number of maximal runs of non-whitespace: `len(text.split())`. */
  function WordCount(s: string, inWord: bool): nat {
    if s == [] then 0
    else if IsSpace(s[0]) then WordCount(s[1..], false)
    else (if inWord then 0 else 1) + WordCount(s[1..], true)
  }

  predicate OccursAt(s: string, w: string, i: nat) {
    i + |w| <= |s| && s[i..i + |w|] == w
  }

  /** `re.search(w, s)` for a literal word `w`. */
  predicate ContainsWord(s: string, w: string) {
    exists i: nat :: i <= |s| && OccursAt(s, w, i)
  }

  /** The alternatives of the legal-marker regex. */
  const LegalMarkers: seq<string> := [
    "\U{0627}\U{0644}\U{0645}\U{0627}\U{062F}\U{0629}",
    "\U{0627}\U{0644}\U{0628}\U{0646}\U{062F}",
    "\U{0627}\U{0644}\U{0641}\U{0642}\U{0631}\U{0629}",
    "\U{0627}\U{0644}\U{0642}\U{0627}\U{0646}\U{0648}\U{0646}",
    "\U{0627}\U{0644}\U{0639}\U{0642}\U{062F}",
    "\U{0627}\U{0644}\U{0627}\U{062A}\U{0641}\U{0627}\U{0642}\U{064A}\U{0629}"
  ]

  /** The dict `validate_arabic_text` returns; the keys the empty-input branch
      omits are None there. */
  datatype Validation = Validation(
    isValid: bool,
    hasArabic: bool,
    arabicRatio: real,
    hasNumbers: bool,
    hasDates: bool,
    hasLegalMarkers: Option<bool>,
    wordCount: Option<nat>)

  /** Share of Arabic-block characters that makes a text count as valid. */
  const ValidArabicRatio: real := 0.3

  /** `arabic / total`, or 0 when there is nothing to count. */
  function Ratio(part: nat, total: nat): (r: real)
    requires part <= total
    ensures 0.0 <= r <= 1.0
    ensures total == 0 ==> r == 0.0
    ensures total > 0 ==> r * (total as real) == part as real
  {
    if total == 0 then 0.0
    else
      var r := (part as real) / (total as real);
      assert r * (total as real) == part as real;
      assert (1.0 - r) * (total as real) == (total - part) as real;
      r
  }

  /** `validate_arabic_text`; `extractDates` stands for `extract_dates`. */
  function ValidateArabicText(text: string, extractDates: string -> seq<string>): (v: Validation)
    ensures text == [] ==> v == Validation(false, false, 0.0, false, false, None, None)
    ensures text != [] ==> v.hasLegalMarkers.Some? && v.wordCount.Some?
    ensures 0.0 <= v.arabicRatio <= 1.0
    ensures v.isValid <==> v.arabicRatio > ValidArabicRatio
    ensures v.hasArabic <==> ArabicCount(text) > 0
    ensures NonSpaceCount(text) == 0 ==> v.arabicRatio == 0.0
    ensures NonSpaceCount(text) > 0 ==> v.arabicRatio * (NonSpaceCount(text) as real) == ArabicCount(text) as real
    ensures v.hasNumbers <==> exists i :: 0 <= i < |text| && IsDigit(text[i])
  {
    if text == [] then Validation(false, false, 0.0, false, false, None, None)
    else
      var arabic := ArabicCount(text);
      var total := NonSpaceCount(text);
      ArabicAtMostNonSpace(text);
      var ratio := Ratio(arabic, total);
      Validation(
        ratio > ValidArabicRatio,
        arabic > 0,
        ratio,
        exists i :: 0 <= i < |text| && IsDigit(text[i]),
        |extractDates(text)| > 0,
        Some(exists k :: 0 <= k < |LegalMarkers| && ContainsWord(text, LegalMarkers[k])),
        Some(WordCount(text, false)))
  }

  /** A valid text always contains Arabic. */
  lemma ValidImpliesArabic(text: string, extractDates: string -> seq<string>)
    ensures ValidateArabicText(text, extractDates).isValid ==> ValidateArabicText(text, extractDates).hasArabic
  {
    var v := ValidateArabicText(text, extractDates);
    if v.isValid {
      var t := NonSpaceCount(text) as real;
      assert NonSpaceCount(text) > 0;
      assert v.arabicRatio > 0.0 && t > 0.0;
      assert v.arabicRatio * t > 0.0;
    }
  }
}
