/**
 The character-level normalisers of the Arabic post-processor: digit
 transliteration, ligature expansion and diacritic removal. Each is a pure
 function over `seq<char>`; Unicode code points are written out explicitly.
 */
module ArabicChars {

  // ---------------------------------------------------------------------------
  // Digits
  // ---------------------------------------------------------------------------

  predicate IsAsciiDigit(c: char) { '0' <= c <= '9' }

  /** U+0660..U+0669, ARABIC-INDIC DIGIT ZERO..NINE. */
  predicate IsArabicIndicDigit(c: char) { '\U{0660}' <= c <= '\U{0669}' }

  /** U+06F0..U+06F9, EXTENDED ARABIC-INDIC (Persian/Urdu) DIGIT ZERO..NINE. */
  predicate IsPersianDigit(c: char) { '\U{06F0}' <= c <= '\U{06F9}' }

  predicate IsEasternDigit(c: char) { IsArabicIndicDigit(c) || IsPersianDigit(c) }

  predicate IsDigit(c: char) { IsAsciiDigit(c) || IsEasternDigit(c) }

  /** The numeric value a digit character stands for, in any of the three scripts. */
  function DigitValue(c: char): (v: int)
    requires IsDigit(c)
    ensures 0 <= v <= 9
  {
    if IsAsciiDigit(c) then c as int - '0' as int
    else if IsArabicIndicDigit(c) then c as int - 0x0660
    else c as int - 0x06F0
  }

  /** `s.translate(str.maketrans(<ten digits from zero>, '0123456789'))`. */
  function TranslateDigits(s: string, zero: int): (r: string)
    ensures |r| == |s|
    ensures forall i :: 0 <= i < |s| ==>
              r[i] == (if zero <= s[i] as int <= zero + 9 then ('0' as int + (s[i] as int - zero)) as char else s[i])
  {
    if s == [] then []
    else
      var c := s[0];
      var d := if zero <= c as int <= zero + 9 then ('0' as int + (c as int - zero)) as char else c;
      [d] + TranslateDigits(s[1..], zero)
  }

  /** `normalize_numbers`: Arabic-Indic digits, then Persian digits, become ASCII digits. */
  function NormalizeNumbers(s: string): (r: string)
    ensures |r| == |s|
    ensures forall i :: 0 <= i < |s| && IsEasternDigit(s[i]) ==>
              IsAsciiDigit(r[i]) && DigitValue(r[i]) == DigitValue(s[i])
    ensures forall i :: 0 <= i < |s| && !IsEasternDigit(s[i]) ==> r[i] == s[i]
  {
    TranslateDigits(TranslateDigits(s, 0x0660), 0x06F0)
  }

  predicate NoEasternDigits(s: string) {
    forall i :: 0 <= i < |s| ==> !IsEasternDigit(s[i])
  }

  /** After normalisation no Arabic-Indic or Persian digit is left, and a
      second normalisation changes nothing. */
  lemma NormalizeNumbersIdempotent(s: string)
    ensures NoEasternDigits(NormalizeNumbers(s))
    ensures NormalizeNumbers(NormalizeNumbers(s)) == NormalizeNumbers(s)
  {
    var r := NormalizeNumbers(s);
    assert NoEasternDigits(r);
    NormalizeNumbersIdentity(r);
  }

  /** Text without Eastern digits is left unchanged. */
  lemma NormalizeNumbersIdentity(s: string)
    requires NoEasternDigits(s)
    ensures NormalizeNumbers(s) == s
  {
  }

  // ---------------------------------------------------------------------------
  // Ligatures
  // ---------------------------------------------------------------------------

  /** The replacement table of `fix_ligatures`, in the dict's insertion order. */
  const Ligatures: seq<(char, string)> := [
    ('\U{FEFB}', "\U{0644}\U{0627}"),
    ('\U{FEF7}', "\U{0644}\U{0623}"),
    ('\U{FEF9}', "\U{0644}\U{0625}"),
    ('\U{FEF5}', "\U{0644}\U{0622}"),
    ('\U{FDF2}', "\U{0627}\U{0644}\U{0644}\U{0647}"),
    ('\U{FDFA}', "\U{0635}\U{0644}\U{0649} \U{0627}\U{0644}\U{0644}\U{0647} \U{0639}\U{0644}\U{064A}\U{0647} \U{0648}\U{0633}\U{0644}\U{0645}")
  ]

  predicate IsLigature(c: char) {
    c == '\U{FEFB}' || c == '\U{FEF7}' || c == '\U{FEF9}' || c == '\U{FEF5}' || c == '\U{FDF2}' || c == '\U{FDFA}'
  }

  predicate NoLigatures(s: string) {
    forall i :: 0 <= i < |s| ==> !IsLigature(s[i])
  }

  /** `s.replace(c, rep)` for a one-character pattern. */
  function ReplaceChar(s: string, c: char, rep: string): string {
    if s == [] then [] else (if s[0] == c then rep else [s[0]]) + ReplaceChar(s[1..], c, rep)
  }

  /** The `for ligature, replacement in replacements.items()` loop. */
  function ApplyReplacements(s: string, table: seq<(char, string)>): string
    decreases |table|
  {
    if table == [] then s else ApplyReplacements(ReplaceChar(s, table[0].0, table[0].1), table[1..])
  }

  /** `fix_ligatures`. */
  function FixLigatures(s: string): string {
    ApplyReplacements(s, Ligatures)
  }

  /** What one character becomes under `fix_ligatures`, read off the table directly. */
  function Expansion(c: char): string {
    if c == '\U{FEFB}' then Ligatures[0].1
    else if c == '\U{FEF7}' then Ligatures[1].1
    else if c == '\U{FEF9}' then Ligatures[2].1
    else if c == '\U{FEF5}' then Ligatures[3].1
    else if c == '\U{FDF2}' then Ligatures[4].1
    else if c == '\U{FDFA}' then Ligatures[5].1
    else [c]
  }

  /** The single-pass reference: every character replaced by its expansion. */
  function ExpandAll(s: string): string {
    if s == [] then [] else Expansion(s[0]) + ExpandAll(s[1..])
  }

  lemma {:induction false} ReplaceCharAppend(a: string, b: string, c: char, rep: string)
    ensures ReplaceChar(a + b, c, rep) == ReplaceChar(a, c, rep) + ReplaceChar(b, c, rep)
  {
    if a == [] {
      assert a + b == b;
    } else {
      assert (a + b)[1..] == a[1..] + b;
      ReplaceCharAppend(a[1..], b, c, rep);
    }
  }

  lemma {:induction false} ReplaceCharAbsent(s: string, c: char, rep: string)
    requires c !in s
    ensures ReplaceChar(s, c, rep) == s
  {
    if s != [] {
      assert c !in s[1..];
      ReplaceCharAbsent(s[1..], c, rep);
    }
  }

  lemma {:induction false} ApplyReplacementsAppend(a: string, b: string, table: seq<(char, string)>)
    ensures ApplyReplacements(a + b, table) == ApplyReplacements(a, table) + ApplyReplacements(b, table)
    decreases |table|
  {
    if table != [] {
      ReplaceCharAppend(a, b, table[0].0, table[0].1);
      ApplyReplacementsAppend(ReplaceChar(a, table[0].0, table[0].1), ReplaceChar(b, table[0].0, table[0].1), table[1..]);
    }
  }

  lemma {:induction false} ApplyReplacementsAbsent(s: string, table: seq<(char, string)>)
    requires forall k :: 0 <= k < |table| ==> table[k].0 !in s
    ensures ApplyReplacements(s, table) == s
  {
    if table != [] {
      ReplaceCharAbsent(s, table[0].0, table[0].1);
      ApplyReplacementsAbsent(s, table[1..]);
    }
  }

  /** Each replacement text is free of ligatures. */
  lemma ReplacementsFree()
    ensures forall k, j :: 0 <= k < |Ligatures| && 0 <= j < |Ligatures| ==> Ligatures[j].0 !in Ligatures[k].1
    ensures forall k :: 0 <= k < |Ligatures| ==> NoLigatures(Ligatures[k].1)
  {
  }

  /** The first replacement the table holds for `c`, or `c` itself. */
  function Lookup(c: char, table: seq<(char, string)>): string {
    if table == [] then [c] else if table[0].0 == c then table[0].1 else Lookup(c, table[1..])
  }

  /** When no replacement text contains a pattern of the table, walking the
      table over one character yields the first matching replacement. */
  lemma {:induction false} ApplyReplacementsChar(c: char, table: seq<(char, string)>)
    requires forall k, j :: 0 <= k < |table| && 0 <= j < |table| ==> table[j].0 !in table[k].1
    ensures ApplyReplacements([c], table) == Lookup(c, table)
  {
    if table != [] {
      if table[0].0 == c {
        assert ReplaceChar([c], c, table[0].1) == table[0].1;
        ApplyReplacementsAbsent(table[0].1, table[1..]);
      } else {
        assert ReplaceChar([c], table[0].0, table[0].1) == [c];
        ApplyReplacementsChar(c, table[1..]);
      }
    }
  }

  /** On one character, the table walk equals the single-pass expansion. */
  lemma FixLigaturesChar(c: char)
    ensures FixLigatures([c]) == Expansion(c)
  {
    ReplacementsFree();
    ApplyReplacementsChar(c, Ligatures);
    assert Lookup(c, Ligatures[6..]) == [c];
    assert Lookup(c, Ligatures[5..]) == if c == '\U{FDFA}' then Ligatures[5].1 else [c] by {
      assert Ligatures[5..][1..] == Ligatures[6..];
    }
    assert Lookup(c, Ligatures[4..]) == if c == '\U{FDF2}' then Ligatures[4].1 else Lookup(c, Ligatures[5..]) by {
      assert Ligatures[4..][1..] == Ligatures[5..];
    }
    assert Lookup(c, Ligatures[3..]) == if c == '\U{FEF5}' then Ligatures[3].1 else Lookup(c, Ligatures[4..]) by {
      assert Ligatures[3..][1..] == Ligatures[4..];
    }
    assert Lookup(c, Ligatures[2..]) == if c == '\U{FEF9}' then Ligatures[2].1 else Lookup(c, Ligatures[3..]) by {
      assert Ligatures[2..][1..] == Ligatures[3..];
    }
    assert Lookup(c, Ligatures[1..]) == if c == '\U{FEF7}' then Ligatures[1].1 else Lookup(c, Ligatures[2..]) by {
      assert Ligatures[1..][1..] == Ligatures[2..];
    }
    assert Lookup(c, Ligatures) == Expansion(c);
  }

  /** Walking `table` is walking its first `k` entries and then the rest. */
  lemma {:induction false} SplitTable(s: string, table: seq<(char, string)>, k: nat)
    requires k <= |table|
    ensures ApplyReplacements(s, table) == ApplyReplacements(ApplyReplacements(s, table[..k]), table[k..])
    decreases k
  {
    if k > 0 {
      assert table[..k][1..] == table[1..][..k - 1];
      assert table[k..] == table[1..][k - 1..];
      SplitTable(ReplaceChar(s, table[0].0, table[0].1), table[1..], k - 1);
    } else {
      assert table[..0] == [] && table[0..] == table;
    }
  }

  /** `fix_ligatures` equals the single-pass expansion of every character. */
  lemma {:induction false} FixLigaturesIsExpansion(s: string)
    ensures FixLigatures(s) == ExpandAll(s)
  {
    if s != [] {
      assert s == [s[0]] + s[1..];
      ApplyReplacementsAppend([s[0]], s[1..], Ligatures);
      FixLigaturesChar(s[0]);
      FixLigaturesIsExpansion(s[1..]);
    }
  }

  lemma {:induction false} ExpandAllNoLigatures(s: string)
    ensures NoLigatures(ExpandAll(s))
  {
    if s != [] {
      ReplacementsFree();
      ExpandAllNoLigatures(s[1..]);
      var e := Expansion(s[0]);
      assert NoLigatures(e);
      var r := e + ExpandAll(s[1..]);
      forall i | 0 <= i < |r| ensures !IsLigature(r[i]) {
        if i >= |e| {
          assert r[i] == ExpandAll(s[1..])[i - |e|];
        }
      }
    }
  }

  lemma {:induction false} ExpandAllIdentity(s: string)
    requires NoLigatures(s)
    ensures ExpandAll(s) == s
  {
    if s != [] {
      ExpandAllIdentity(s[1..]);
      assert [s[0]] + s[1..] == s;
    }
  }

  /** After `fix_ligatures` none of the six ligatures remains, and a second
      application changes nothing. */
  lemma FixLigaturesIdempotent(s: string)
    ensures NoLigatures(FixLigatures(s))
    ensures FixLigatures(FixLigatures(s)) == FixLigatures(s)
  {
    FixLigaturesIsExpansion(s);
    ExpandAllNoLigatures(s);
    FixLigaturesIsExpansion(FixLigatures(s));
    ExpandAllIdentity(FixLigatures(s));
  }

  /** Text without ligatures passes through unchanged. */
  lemma FixLigaturesIdentity(s: string)
    requires NoLigatures(s)
    ensures FixLigatures(s) == s
  {
    FixLigaturesIsExpansion(s);
    ExpandAllIdentity(s);
  }

  /** Expansion adds no Eastern digits: the replacement texts hold none. */
  lemma {:induction false} FixLigaturesKeepsDigitsOut(s: string)
    requires NoEasternDigits(s)
    ensures NoEasternDigits(FixLigatures(s))
  {
    FixLigaturesIsExpansion(s);
    ExpandAllNoDigits(s);
  }

  lemma {:induction false} ExpandAllNoDigits(s: string)
    requires NoEasternDigits(s)
    ensures NoEasternDigits(ExpandAll(s))
  {
    if s != [] {
      ExpandAllNoDigits(s[1..]);
      var e := Expansion(s[0]);
      assert NoEasternDigits(e);
      var r := e + ExpandAll(s[1..]);
      forall i | 0 <= i < |r| ensures !IsEasternDigit(r[i]) {
        if i >= |e| {
          assert r[i] == ExpandAll(s[1..])[i - |e|];
        }
      }
    }
  }

  // ---------------------------------------------------------------------------
  // Diacritics
  // ---------------------------------------------------------------------------

  /** The class `[ً-ٰٟ]`: tanween, harakat, shadda, sukun and
      the other combining marks of the block, plus the superscript alef. */
  predicate IsDiacritic(c: char) {
    ('\U{064B}' <= c <= '\U{065F}') || c == '\U{0670}'
  }

  /** `remove_diacritics`. */
  function RemoveDiacritics(s: string): (r: string)
    ensures forall i :: 0 <= i < |r| ==> !IsDiacritic(r[i])
  {
    if s == [] then []
    else
      (if IsDiacritic(s[0]) then [] else [s[0]]) + RemoveDiacritics(s[1..])
  }

  /** Exactly the diacritics are deleted: every other character keeps its
      number of occurrences, and a diacritic has none left. */
  lemma {:induction false} RemoveDiacriticsKeepsOthers(s: string)
    ensures forall c :: !IsDiacritic(c) ==> multiset(RemoveDiacritics(s))[c] == multiset(s)[c]
    ensures forall c :: IsDiacritic(c) ==> multiset(RemoveDiacritics(s))[c] == 0
    ensures forall c :: c in RemoveDiacritics(s) ==> c in s
  {
    if s != [] {
      assert s == [s[0]] + s[1..];
      RemoveDiacriticsKeepsOthers(s[1..]);
    }
  }

  /** `a` can be obtained from `b` by deleting characters. */
  predicate IsSubsequence(a: string, b: string) {
    if a == [] then true
    else if b == [] then false
    else if a[0] == b[0] then IsSubsequence(a[1..], b[1..])
    else IsSubsequence(a, b[1..])
  }

  /** Removing diacritics only deletes: the result is a subsequence of the input. */
  lemma {:induction false} RemoveDiacriticsSubsequence(s: string)
    ensures IsSubsequence(RemoveDiacritics(s), s)
  {
    if s != [] {
      RemoveDiacriticsSubsequence(s[1..]);
      var r := RemoveDiacritics(s);
      assert r != [] ==> !IsDiacritic(r[0]);
      if !IsDiacritic(s[0]) {
        assert r[0] == s[0] && r[1..] == RemoveDiacritics(s[1..]);
      } else {
        assert r == RemoveDiacritics(s[1..]);
        assert r == [] || r[0] != s[0];
      }
    }
  }

  /** Text without diacritics is left unchanged, so removal is idempotent. */
  lemma {:induction false} RemoveDiacriticsIdentity(s: string)
    requires forall i :: 0 <= i < |s| ==> !IsDiacritic(s[i])
    ensures RemoveDiacritics(s) == s
  {
    if s != [] {
      RemoveDiacriticsIdentity(s[1..]);
      assert [s[0]] + s[1..] == s;
    }
  }

  lemma RemoveDiacriticsIdempotent(s: string)
    ensures RemoveDiacritics(RemoveDiacritics(s)) == RemoveDiacritics(s)
  {
    RemoveDiacriticsIdentity(RemoveDiacritics(s));
  }
}
