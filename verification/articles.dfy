/**
 Splitting a legal document into articles. An article begins at every match
 of the pattern "article marker, optional whitespace, optional word for
 'number', optional whitespace, a run of digits", found left to right without
 overlap as `re.finditer` does; it runs up to the next article's start, or to
 the end of the text for the last one.
 */
module Articles {
  import opened Wrappers
  import opened PyText
  import opened ArabicChars

  /** The marker "al-madda" (the article). */
  const Madda: string := "\U{0627}\U{0644}\U{0645}\U{0627}\U{062F}\U{0629}"
  /** The marker "madda", spelt with a final heh. */
  const Mada: string := "\U{0645}\U{0627}\U{062F}\U{0647}"
  /** The optional word "raqm" (number). */
  const Raqm: string := "\U{0631}\U{0642}\U{0645}"

  /** `w` occurs in `s` at position `p`. */
  predicate At(s: string, p: nat, w: string) {
    p + |w| <= |s| && s[p..p + |w|] == w
  }

  /** The first position at or after `p` that is not whitespace (`\s*`). */
  function SkipSpaces(s: string, p: nat): (q: nat)
    requires p <= |s|
    ensures p <= q <= |s|
    decreases |s| - p
  {
    if p == |s| || !IsSpace(s[p]) then p else SkipSpaces(s, p + 1)
  }

  /** `SkipSpaces` passes exactly a maximal run of whitespace. */
  lemma {:induction false} SkipSpacesRun(s: string, p: nat)
    requires p <= |s|
    ensures forall i :: p <= i < SkipSpaces(s, p) ==> IsSpace(s[i])
    ensures SkipSpaces(s, p) == |s| || !IsSpace(s[SkipSpaces(s, p)])
    decreases |s| - p
  {
    if p < |s| && IsSpace(s[p]) {
      SkipSpacesRun(s, p + 1);
    }
  }

  /** Started before a run of whitespace that ends at `q`, `SkipSpaces` stops at `q`. */
  lemma {:induction false} SkipSpacesLands(s: string, p: nat, q: nat)
    requires p <= q <= |s|
    requires forall i :: p <= i < q ==> IsSpace(s[i])
    requires q == |s| || !IsSpace(s[q])
    ensures SkipSpaces(s, p) == q
    decreases q - p
  {
    if p < q {
      SkipSpacesLands(s, p + 1, q);
    }
  }

  /** The first position at or after `p` that is not a digit (`\d*`). */
  function SkipDigits(s: string, p: nat): (q: nat)
    requires p <= |s|
    ensures p <= q <= |s|
    decreases |s| - p
  {
    if p == |s| || !IsDigit(s[p]) then p else SkipDigits(s, p + 1)
  }

  /** `SkipDigits` passes exactly a maximal run of digits. */
  lemma {:induction false} SkipDigitsRun(s: string, p: nat)
    requires p <= |s|
    ensures forall i :: p <= i < SkipDigits(s, p) ==> IsDigit(s[i])
    ensures SkipDigits(s, p) == |s| || !IsDigit(s[SkipDigits(s, p)])
    decreases |s| - p
  {
    if p < |s| && IsDigit(s[p]) {
      SkipDigitsRun(s, p + 1);
    }
  }

  /** Started before a run of digits that ends at `q`, `SkipDigits` stops at `q`. */
  lemma {:induction false} SkipDigitsLands(s: string, p: nat, q: nat)
    requires p <= q <= |s|
    requires forall i :: p <= i < q ==> IsDigit(s[i])
    requires q == |s| || !IsDigit(s[q])
    ensures SkipDigits(s, p) == q
    decreases q - p
  {
    if p < q {
      SkipDigitsLands(s, p + 1, q);
    }
  }

  /** One match of the article pattern: it spans `start..stop`, and the
      captured article number is `s[digits..stop]`. */
  datatype Match = Match(start: nat, digits: nat, stop: nat)

  /** The number the match captured (`match.group(1)`). */
  function Number(s: string, m: Match): string
    requires m.digits <= m.stop <= |s|
  {
    s[m.digits..m.stop]
  }

  /** The gap between the marker and the digits: whitespace, optionally with
      the word for "number" somewhere after the first run of it. */
  predicate Filler(s: string, from: nat, to: nat)
    requires from <= to <= |s|
  {
    || (forall i :: from <= i < to ==> IsSpace(s[i]))
    || exists k: nat {:trigger At(s, k, Raqm)} :: from <= k && k + |Raqm| <= to && At(s, k, Raqm)
         && (forall i :: from <= i < k ==> IsSpace(s[i]))
         && (forall i :: k + |Raqm| <= i < to ==> IsSpace(s[i]))
  }

  /** A well-formed match at `p`: a marker at `p`, filler, then a maximal run
      of at least one digit. */
  predicate IsMatch(s: string, p: nat, m: Match) {
    && m.start == p
    && p < m.digits < m.stop <= |s|
    && (|| (At(s, p, Madda) && p + |Madda| <= m.digits && Filler(s, p + |Madda|, m.digits))
        || (At(s, p, Mada) && p + |Mada| <= m.digits && Filler(s, p + |Mada|, m.digits)))
    && (forall i :: m.digits <= i < m.stop ==> IsDigit(s[i]))
    && (m.stop == |s| || !IsDigit(s[m.stop]))
  }

  /** Where the marker alternative `(?:MADDA|MADA)` ends when it matches at `p`. */
  function MarkerEnd(s: string, p: nat): (e: Option<nat>)
    ensures e.Some? ==> e.value <= |s|
  {
    if At(s, p, Madda) then Some(p + |Madda|)
    else if At(s, p, Mada) then Some(p + |Mada|)
    else None
  }

  /** Where `\s*(?:RAQM)?\s*` ends when started at `a`: the spaces are
      consumed greedily and the optional word is taken when present. */
  function DigitsStart(s: string, a: nat): (d: nat)
    requires a <= |s|
    ensures a <= d <= |s|
  {
    var q := SkipSpaces(s, a);
    if At(s, q, Raqm) then SkipSpaces(s, q + |Raqm|) else q
  }

  /** The pattern `(?:MADDA|MADA)\s*(?:RAQM)?\s*(\d+)` anchored at `p`. The
      regex engine's backtracking cannot find another way to reach a digit
      than the greedy path, so trying that single path is enough. */
  function MatchAt(s: string, p: nat): (m: Option<Match>)
    ensures m.Some? ==> m.value.start == p < m.value.digits < m.value.stop <= |s|
  {
    match MarkerEnd(s, p)
    case None => None
    case Some(a) =>
      var d := DigitsStart(s, a);
      if d < |s| && IsDigit(s[d]) then Some(Match(p, d, SkipDigits(s, d)))
      else None
  }

  /** What `DigitsStart` passes over is a filler. */
  lemma DigitsStartFiller(s: string, a: nat)
    requires a <= |s|
    ensures Filler(s, a, DigitsStart(s, a))
  {
    var q := SkipSpaces(s, a);
    SkipSpacesRun(s, a);
    if At(s, q, Raqm) {
      SkipSpacesRun(s, q + |Raqm|);
      FillerWithRaqm(s, a, q, DigitsStart(s, a));
    }
  }

  /** What the pattern finds is a well-formed match. */
  lemma MatchAtIsMatch(s: string, p: nat)
    requires MatchAt(s, p).Some?
    ensures IsMatch(s, p, MatchAt(s, p).value)
  {
    var m := MatchAt(s, p).value;
    var a := MarkerEnd(s, p).value;
    DigitsStartFiller(s, a);
    SkipDigitsRun(s, m.digits);
  }

  /** A filler that ends just before a digit is exactly what `DigitsStart` passes. */
  lemma DigitsStartLands(s: string, a: nat, d: nat)
    requires a <= d < |s| && Filler(s, a, d) && IsDigit(s[d])
    ensures DigitsStart(s, a) == d
  {
    if forall i :: a <= i < d ==> IsSpace(s[i]) {
      SkipSpacesLands(s, a, d);
      assert !At(s, d, Raqm);
    } else {
      var k: nat :| a <= k && k + |Raqm| <= d && At(s, k, Raqm)
        && (forall i :: a <= i < k ==> IsSpace(s[i]))
        && (forall i :: k + |Raqm| <= i < d ==> IsSpace(s[i]));
      assert s[k] == s[k..k + |Raqm|][0];
      SkipSpacesLands(s, a, k);
      SkipSpacesLands(s, k + |Raqm|, d);
    }
  }

  /** The two spellings of the marker begin with different letters, so at
      most one of them occurs at a position. */
  lemma MarkersDiffer(s: string, p: nat)
    ensures !(At(s, p, Madda) && At(s, p, Mada))
  {
    if At(s, p, Madda) {
      assert s[p] == s[p..p + |Madda|][0];
    }
  }

  /** The converse: every well-formed match at `p` is the one the pattern
      finds there, so `IsMatch` and `MatchAt` describe the same matches. */
  lemma IsMatchIsMatchAt(s: string, p: nat, m: Match)
    requires IsMatch(s, p, m)
    ensures MatchAt(s, p) == Some(m)
  {
    if At(s, p, Madda) {
      assert MarkerEnd(s, p) == Some(p + |Madda|);
      MarkersDiffer(s, p);
      DigitsStartLands(s, p + |Madda|, m.digits);
    } else {
      assert MarkerEnd(s, p) == Some(p + |Mada|);
      DigitsStartLands(s, p + |Mada|, m.digits);
    }
    SkipDigitsLands(s, m.digits, m.stop);
  }

  /** Whitespace, the word for "number", and whitespace again form a filler. */
  lemma FillerWithRaqm(s: string, a: nat, q: nat, d: nat)
    requires a <= q && q + |Raqm| <= d <= |s| && At(s, q, Raqm)
    requires forall i :: a <= i < q ==> IsSpace(s[i])
    requires forall i :: q + |Raqm| <= i < d ==> IsSpace(s[i])
    ensures Filler(s, a, d)
  {
  }

  /** A match can only begin on the first letter of a marker. */
  lemma MatchStartsWithMarker(s: string, p: nat)
    requires MatchAt(s, p).Some?
    ensures At(s, p, Madda) || At(s, p, Mada)
    ensures !IsSpace(s[p]) && !IsDigit(s[p])
  {
    if At(s, p, Madda) {
      assert s[p] == s[p..p + |Madda|][0] == Madda[0];
    } else {
      assert s[p] == s[p..p + |Mada|][0] == Mada[0];
    }
  }

  /** Whatever `f` matches at a position `q` starts there and ends after it,
      within the first `n` characters. */
  predicate Advances(n: nat, f: nat -> Option<Match>) {
    forall q: nat :: q < n && f(q).Some? ==> f(q).value.start == q < f(q).value.digits < f(q).value.stop <= n
  }

  /** The scanning loop of `re.finditer` over a text of length `n` for an
      anchored matcher `f`: try each position in turn and, after a match,
      resume where it ended. */
  function Scan(n: nat, p: nat, f: nat -> Option<Match>): (ms: seq<Match>)
    requires p <= n && Advances(n, f)
    decreases n - p
  {
    if p == n then []
    else
      match f(p)
      case Some(m) => [m] + Scan(n, m.stop, f)
      case None => Scan(n, p + 1, f)
  }

  /** Every reported match is what `f` finds at its start, and the matches
      come in text order without overlapping. */
  lemma {:induction false} ScanSound(n: nat, p: nat, f: nat -> Option<Match>)
    requires p <= n && Advances(n, f)
    ensures forall i :: 0 <= i < |Scan(n, p, f)| ==>
      p <= Scan(n, p, f)[i].start < Scan(n, p, f)[i].digits < Scan(n, p, f)[i].stop <= n && f(Scan(n, p, f)[i].start) == Some(Scan(n, p, f)[i])
    ensures forall i :: 0 <= i < |Scan(n, p, f)| - 1 ==> Scan(n, p, f)[i].stop <= Scan(n, p, f)[i + 1].start
    decreases n - p
  {
    if p < n {
      if f(p).Some? {
        var m := f(p).value;
        ScanSound(n, m.stop, f);
        var rest := Scan(n, m.stop, f);
        var ms := [m] + rest;
        assert Scan(n, p, f) == ms;
        forall i | 0 <= i < |ms|
          ensures p <= ms[i].start < ms[i].digits < ms[i].stop <= n && f(ms[i].start) == Some(ms[i])
        {
          if i > 0 {
            assert ms[i] == rest[i - 1];
          }
        }
        forall i | 0 <= i < |ms| - 1
          ensures ms[i].stop <= ms[i + 1].start
        {
          assert ms[i + 1] == rest[i];
          if i > 0 {
            assert ms[i] == rest[i - 1];
          }
        }
      } else {
        ScanSound(n, p + 1, f);
      }
    }
  }

  /** No match is skipped: every position from `p` on where `f` matches lies
      inside one of the reported matches. */
  lemma {:induction false} ScanComplete(n: nat, p: nat, f: nat -> Option<Match>, q: nat)
    requires p <= q < n && Advances(n, f)
    requires f(q).Some?
    ensures exists i :: 0 <= i < |Scan(n, p, f)| && Scan(n, p, f)[i].start <= q < Scan(n, p, f)[i].stop
    decreases n - p
  {
    if f(p).Some? {
      var m := f(p).value;
      var rest := Scan(n, m.stop, f);
      var ms := [m] + rest;
      assert Scan(n, p, f) == ms;
      if q < m.stop {
        assert ms[0].start <= q < ms[0].stop;
      } else {
        ScanComplete(n, m.stop, f, q);
        var i :| 0 <= i < |rest| && rest[i].start <= q < rest[i].stop;
        assert ms[i + 1] == rest[i];
      }
    } else {
      assert q != p;
      assert Scan(n, p, f) == Scan(n, p + 1, f);
      ScanComplete(n, p + 1, f, q);
    }
  }

  /** Matches inside a text of length `n`, in order and not overlapping. */
  predicate Ordered(ms: seq<Match>, n: nat) {
    && (forall i :: 0 <= i < |ms| ==> ms[i].start < ms[i].digits < ms[i].stop <= n)
    && (forall i :: 0 <= i < |ms| - 1 ==> ms[i].stop <= ms[i + 1].start)
  }

  /** The article pattern as an anchored matcher over `s`. */
  function Matcher(s: string): (f: nat -> Option<Match>)
    ensures Advances(|s|, f)
  {
    (q: nat) => MatchAt(s, q)
  }

  /** The matches `re.finditer` reports for the article pattern. */
  function FindMatches(s: string): (ms: seq<Match>)
    ensures Ordered(ms, |s|)
  {
    ScanSound(|s|, 0, Matcher(s));
    Scan(|s|, 0, Matcher(s))
  }

  /** Every reported match is exactly what the pattern finds at its start. */
  lemma FindMatchesSound(s: string, i: nat)
    requires i < |FindMatches(s)|
    ensures MatchAt(s, FindMatches(s)[i].start) == Some(FindMatches(s)[i])
  {
    ScanSound(|s|, 0, Matcher(s));
    assert FindMatches(s) == Scan(|s|, 0, Matcher(s));
    assert Matcher(s)(FindMatches(s)[i].start) == MatchAt(s, FindMatches(s)[i].start);
  }

  /** Every position where the article pattern matches lies inside one of
      the reported matches. */
  lemma FindMatchesComplete(s: string, q: nat)
    requires q < |s| && MatchAt(s, q).Some?
    ensures exists i :: 0 <= i < |FindMatches(s)| && FindMatches(s)[i].start <= q < FindMatches(s)[i].stop
  {
    assert Matcher(s)(q) == MatchAt(s, q);
    ScanComplete(|s|, 0, Matcher(s), q);
    assert FindMatches(s) == Scan(|s|, 0, Matcher(s));
  }

  /** Every position where a well-formed match begins lies inside one of
      the reported matches. */
  lemma FindMatchesCompleteForMatches(s: string, q: nat, m: Match)
    requires IsMatch(s, q, m)
    ensures exists i :: 0 <= i < |FindMatches(s)| && FindMatches(s)[i].start <= q < FindMatches(s)[i].stop
  {
    IsMatchIsMatchAt(s, q, m);
    FindMatchesComplete(s, q);
  }

  /** One article: its number as written, its stripped text and its span. */
  datatype Article = Article(number: string, text: string, start: nat, end: nat)

  /** The articles cut at the given matches: article `i` spans from match `i`
      to match `i + 1` (or to the end of the text) and is stripped of
      surrounding whitespace. */
  function Cut(s: string, ms: seq<Match>): (arts: seq<Article>)
    requires Ordered(ms, |s|)
    ensures |arts| == |ms|
  {
    seq(|ms|, i requires 0 <= i < |ms| => MakeArticle(s, ms, i))
  }

  /** Where article `i` ends: at the next match, or at the end of the text. */
  function End(s: string, ms: seq<Match>, i: nat): (e: nat)
    requires Ordered(ms, |s|) && i < |ms|
    ensures ms[i].stop <= e <= |s|
  {
    if i + 1 < |ms| then ms[i + 1].start else |s|
  }

  /** Article `i`: the number its match captured and its stripped span. */
  function MakeArticle(s: string, ms: seq<Match>, i: nat): (a: Article)
    requires Ordered(ms, |s|) && i < |ms|
    ensures a.start == ms[i].start && a.end == End(s, ms, i)
  {
    Article(Number(s, ms[i]), Strip(s[ms[i].start..End(s, ms, i)]), ms[i].start, End(s, ms, i))
  }

  /** `split_into_articles`. */
  function SplitIntoArticles(s: string): (arts: seq<Article>)
    ensures |arts| == |FindMatches(s)|
  {
    Cut(s, FindMatches(s))
  }

  /** `rstrip` never cuts into a prefix that ends in a non-space character. */
  lemma {:induction false} RStripKeeps(x: string, k: nat)
    requires 0 < k <= |x| && !IsSpace(x[k - 1])
    ensures x[..k] <= RStrip(x)
    decreases |x|
  {
    if IsSpace(x[|x| - 1]) {
      var y := x[..|x| - 1];
      assert y[..k] == x[..k];
      RStripKeeps(y, k);
    }
  }

  /** Starts of ordered matches never decrease. */
  lemma {:induction false} StartsIncrease(ms: seq<Match>, n: nat, i: nat, j: nat)
    requires Ordered(ms, n) && i <= j < |ms|
    ensures ms[i].start <= ms[j].start
    decreases j - i
  {
    if i < j {
      StartsIncrease(ms, n, i + 1, j);
    }
  }

  /** Cutting at ordered matches tiles the text from the first match on. */
  lemma CutTiles(s: string, ms: seq<Match>)
    requires Ordered(ms, |s|)
    ensures var arts := Cut(s, ms);
      && (forall i :: 0 <= i < |arts| ==> arts[i].start == ms[i].start < arts[i].end <= |s|)
      && (forall i :: 0 <= i < |arts| - 1 ==> arts[i].end == arts[i + 1].start)
      && (|arts| > 0 ==> arts[|arts| - 1].end == |s|)
  {
    var arts := Cut(s, ms);
    forall i | 0 <= i < |arts|
      ensures arts[i].start == ms[i].start && arts[i].end == (if i + 1 < |ms| then ms[i + 1].start else |s|)
    {
    }
  }

  /** The articles tile the text from the first article on: each one is
      non-empty, ends where the next begins, and the last ends with the text. */
  lemma ArticlesTileText(s: string)
    ensures var arts := SplitIntoArticles(s);
      && (forall i :: 0 <= i < |arts| ==> arts[i].start < arts[i].end <= |s|)
      && (forall i :: 0 <= i < |arts| - 1 ==> arts[i].end == arts[i + 1].start)
      && (|arts| > 0 ==> arts[|arts| - 1].end == |s|)
  {
    CutTiles(s, FindMatches(s));
  }

  /** Each article starts where the pattern matches, and nothing before the
      first article matches it: no article marker is lost. */
  lemma ArticlesStartAtMatches(s: string)
    ensures var arts := SplitIntoArticles(s);
      && (forall i :: 0 <= i < |arts| ==> MatchAt(s, arts[i].start).Some?)
      && (forall q :: 0 <= q < |s| && MatchAt(s, q).Some? ==> |arts| > 0 && arts[0].start <= q)
  {
    var arts := SplitIntoArticles(s);
    var ms := FindMatches(s);
    CutTiles(s, ms);
    forall i | 0 <= i < |arts|
      ensures MatchAt(s, arts[i].start).Some?
    {
      FindMatchesSound(s, i);
    }
    forall q | 0 <= q < |s| && MatchAt(s, q).Some?
      ensures |arts| > 0 && arts[0].start <= q
    {
      FindMatchesComplete(s, q);
      var i :| 0 <= i < |ms| && ms[i].start <= q < ms[i].stop;
      StartsIncrease(ms, |s|, 0, i);
    }
  }

  /** A match whose text opens with a marker and closes with its digits. */
  predicate Headed(s: string, m: Match)
    requires m.start < m.digits < m.stop <= |s|
  {
    && ((At(s, m.start, Madda) && m.start + |Madda| <= m.digits)
        || (At(s, m.start, Mada) && m.start + |Mada| <= m.digits))
    && !IsSpace(s[m.start])
    && (forall k :: m.digits <= k < m.stop ==> IsDigit(s[k]))
  }

  /** `strip` keeps a prefix that starts and ends with non-space characters. */
  lemma StripKeepsPrefix(x: string, k: nat)
    requires 0 < k <= |x| && !IsSpace(x[0]) && !IsSpace(x[k - 1])
    ensures x[..k] <= Strip(x)
  {
    assert LStrip(x) == x;
    RStripKeeps(x, k);
  }

  /** Text that begins with one of the two article markers. */
  predicate OpensWithMarker(t: string) {
    Madda <= t || Mada <= t
  }

  /** Stripping a span that starts with a headed match keeps the marker at
      its front. */
  lemma SpanKeepsMarker(s: string, m: Match, e: nat)
    requires m.start < m.digits < m.stop <= e <= |s| && Headed(s, m)
    ensures OpensWithMarker(Strip(s[m.start..e]))
  {
    var x := s[m.start..e];
    var k := m.stop - m.start;
    assert x[0] == s[m.start] && x[k - 1] == s[m.stop - 1];
    var w := if At(s, m.start, Madda) && m.start + |Madda| <= m.digits then Madda else Mada;
    MarkerInSpan(s, m.start, w, m.stop, e);
    StripKeepsOpening(x, k, w);
  }

  /** What opens a prefix with non-space ends still opens the stripped text. */
  lemma StripKeepsOpening(x: string, k: nat, w: string)
    requires 0 < k <= |x| && !IsSpace(x[0]) && !IsSpace(x[k - 1]) && w <= x[..k]
    ensures w <= Strip(x)
  {
    StripKeepsPrefix(x, k);
    var t := Strip(x);
    assert forall j :: 0 <= j < |w| ==> t[j] == x[..k][j] == w[j];
  }

  /** Article `i` of a cut is the one built from match `i`. */
  lemma CutAt(s: string, ms: seq<Match>, i: nat)
    requires Ordered(ms, |s|) && i < |ms|
    ensures Cut(s, ms)[i] == MakeArticle(s, ms, i)
  {
  }

  /** Stripping keeps the whole matched heading at the front of an article,
      and the number is the run of digits the match captured. */
  lemma ArticleKeepsHeading(s: string, ms: seq<Match>, i: nat)
    requires Ordered(ms, |s|) && i < |ms| && Headed(s, ms[i])
    ensures OpensWithMarker(MakeArticle(s, ms, i).text)
    ensures var n := MakeArticle(s, ms, i).number;
      n != [] && forall k :: 0 <= k < |n| ==> IsDigit(n[k])
  {
    SpanKeepsMarker(s, ms[i], End(s, ms, i));
    NumberIsDigits(s, ms[i]);
  }

  /** The captured number of a headed match is a non-empty run of digits. */
  lemma NumberIsDigits(s: string, m: Match)
    requires m.start < m.digits < m.stop <= |s| && Headed(s, m)
    ensures var n := Number(s, m); n != [] && forall k :: 0 <= k < |n| ==> IsDigit(n[k])
  {
    var n := Number(s, m);
    assert forall k :: 0 <= k < |n| ==> n[k] == s[m.digits + k];
  }

  /** A word found at `p` opens every span from `p` that covers it. */
  lemma MarkerInSpan(s: string, p: nat, w: string, k: nat, e: nat)
    requires At(s, p, w) && p + |w| <= k <= e <= |s|
    ensures w <= s[p..e][..k - p]
  {
    var x := s[p..e][..k - p];
    assert forall j :: 0 <= j < |w| ==> x[j] == s[p + j] == w[j];
  }

  /** What the pattern finds opens with a marker and ends in its digits. */
  lemma MatchAtHeaded(s: string, p: nat)
    requires MatchAt(s, p).Some?
    ensures Headed(s, MatchAt(s, p).value)
  {
    var m := MatchAt(s, p).value;
    SkipDigitsRun(s, m.digits);
    MatchStartsWithMarker(s, p);
    assert At(s, p, Madda) ==> m.digits >= p + |Madda|;
  }

  /** Every reported match is headed. */
  lemma FindMatchesHeaded(s: string, i: nat)
    requires i < |FindMatches(s)|
    ensures Headed(s, FindMatches(s)[i])
  {
    FindMatchesSound(s, i);
    MatchAtHeaded(s, FindMatches(s)[i].start);
  }

  /** Each article's text opens with its marker, and its number is a
      non-empty run of digits, as stripping only removes whitespace around
      the heading. */
  lemma ArticleTextKeepsHeading(s: string, i: nat)
    requires i < |SplitIntoArticles(s)|
    ensures var a := SplitIntoArticles(s)[i];
      && OpensWithMarker(a.text)
      && a.number != [] && (forall k :: 0 <= k < |a.number| ==> IsDigit(a.number[k]))
  {
    var ms := FindMatches(s);
    assert SplitIntoArticles(s) == Cut(s, ms);
    CutAt(s, ms, i);
    FindMatchesHeaded(s, i);
    ArticleKeepsHeading(s, ms, i);
  }

  /** A short document with two articles, the second introduced with the
      word for "number" and Arabic-Indic digits. */
  function TwoArticleText(): string {
    Madda + " 1 x " + Mada + " " + Raqm + "\U{0661}\U{0662}"
  }

  lemma FirstArticleMatch()
    ensures MatchAt(TwoArticleText(), 0) == Some(Match(0, 7, 8))
  {
    var s := TwoArticleText();
    assert |s| == 21;
    assert s[0..6] == Madda;
    assert s[6] == ' ' && s[7] == '1' && s[8] == ' ';
    assert SkipSpaces(s, 7) == 7;
    assert SkipSpaces(s, 6) == 7;
    assert !At(s, 7, Raqm) by { assert s[7..10][0] == s[7]; }
    assert SkipDigits(s, 8) == 8;
    assert SkipDigits(s, 7) == 8;
  }

  lemma NoMatchBetweenArticles()
    ensures forall p :: 8 <= p < 11 ==> MatchAt(TwoArticleText(), p).None?
  {
    var s := TwoArticleText();
    assert |s| == 21;
    assert s[8] == ' ' && s[9] == 'x' && s[10] == ' ';
    forall p | 8 <= p < 11 ensures MatchAt(s, p).None? {
      assert !At(s, p, Madda) by { if p + 6 <= 21 { assert s[p..p + 6][0] == s[p]; } }
      assert !At(s, p, Mada) by { assert s[p..p + 4][0] == s[p]; }
    }
  }

  lemma SecondArticleMatch()
    ensures MatchAt(TwoArticleText(), 11) == Some(Match(11, 19, 21))
  {
    var s := TwoArticleText();
    assert |s| == 21;
    assert s[11..15] == Mada;
    assert !At(s, 11, Madda) by { assert s[11..17][0] == s[11]; }
    assert s[15] == ' ' && s[16..19] == Raqm && s[19] == '\U{0661}' && s[20] == '\U{0662}';
    assert SkipSpaces(s, 16) == 16;
    assert SkipSpaces(s, 15) == 16;
    assert SkipSpaces(s, 19) == 19;
    assert SkipDigits(s, 21) == 21;
    assert SkipDigits(s, 20) == 21;
    assert SkipDigits(s, 19) == 21;
  }

  lemma TwoArticleScan()
    ensures FindMatches(TwoArticleText()) == [Match(0, 7, 8), Match(11, 19, 21)]
  {
    var s := TwoArticleText();
    FirstArticleMatch();
    NoMatchBetweenArticles();
    SecondArticleMatch();
    var f := Matcher(s);
    assert f(0) == MatchAt(s, 0) && f(8) == MatchAt(s, 8) && f(9) == MatchAt(s, 9);
    assert f(10) == MatchAt(s, 10) && f(11) == MatchAt(s, 11);
    assert Scan(21, 21, f) == [];
    assert Scan(21, 11, f) == [Match(11, 19, 21)];
    assert Scan(21, 10, f) == Scan(21, 11, f);
    assert Scan(21, 9, f) == Scan(21, 10, f);
    assert Scan(21, 8, f) == Scan(21, 9, f);
    assert Scan(21, 0, f) == [Match(0, 7, 8), Match(11, 19, 21)];
  }

  /** The sample splits into two articles numbered "1" and "12" (in
      Arabic-Indic digits), the first ending where the second marker starts. */
  lemma TwoArticles()
    ensures var s := TwoArticleText();
      && |FindMatches(s)| == 2
      && Number(s, FindMatches(s)[0]) == "1"
      && Number(s, FindMatches(s)[1]) == "\U{0661}\U{0662}"
      && FindMatches(s)[1].start == 11
  {
    TwoArticleDigits();
    TwoArticleScan();
  }

  lemma TwoArticleDigits()
    ensures |TwoArticleText()| == 21
    ensures TwoArticleText()[7..8] == "1" && TwoArticleText()[19..21] == "\U{0661}\U{0662}"
  {
    var s := TwoArticleText();
    assert |s| == 21 && s[7] == '1' && s[19] == '\U{0661}' && s[20] == '\U{0662}';
  }
}
