/**
 `normalize_whitespace` of the Arabic post-processor: three regex/str stages
 written as recursive functions over characters, and the guarantees the
 composition gives.
 */
module Whitespace {
  import opened PyText

  /** No two consecutive ASCII spaces. */
  predicate NoDoubleSpace(s: string) {
    forall i :: 0 <= i < |s| - 1 ==> !(s[i] == ' ' && s[i + 1] == ' ')
  }

  /** No line ends in whitespace: every whitespace character other than a
      newline is followed by a character that is not a newline. */
  predicate NoSpaceBeforeLineEnd(s: string) {
    forall i :: 0 <= i < |s| && IsSpace(s[i]) && s[i] != '\n' ==> i + 1 < |s| && s[i + 1] != '\n'
  }

  /** `re.sub(r' +', ' ', s)`: every run of spaces becomes one space. */
  function CollapseSpaces(s: string): (r: string)
    ensures NoDoubleSpace(r)
    ensures s != [] ==> r != [] && r[0] == s[0]
  {
    if s == [] then []
    else if |s| >= 2 && s[0] == ' ' && s[1] == ' ' then CollapseSpaces(s[1..])
    else
      var rest := CollapseSpaces(s[1..]);
      assert forall i :: 1 <= i < |[s[0]] + rest| ==> ([s[0]] + rest)[i] == rest[i - 1];
      [s[0]] + rest
  }

  /** Collapsing spaces removes spaces and nothing else. */
  lemma {:induction false} CollapseSpacesKeepsOthers(s: string)
    ensures forall c :: c != ' ' ==> multiset(CollapseSpaces(s))[c] == multiset(s)[c]
    ensures multiset(CollapseSpaces(s))[' '] <= multiset(s)[' ']
  {
    if s != [] {
      assert s == [s[0]] + s[1..];
      CollapseSpacesKeepsOthers(s[1..]);
    }
  }

  /** Text that already has no double space is left as it is. */
  lemma {:induction false} CollapseSpacesIdentity(s: string)
    requires NoDoubleSpace(s)
    ensures CollapseSpaces(s) == s
  {
    if s != [] {
      SuffixNoDoubleSpace(s, 1);
      CollapseSpacesIdentity(s[1..]);
      assert s == [s[0]] + s[1..];
    }
  }

  /** A run of spaces collapses like a run one shorter: two spaces anywhere
      give the same result as one space there. */
  lemma {:induction false} CollapseSpacesRun(a: string, b: string)
    ensures CollapseSpaces(a + "  " + b) == CollapseSpaces(a + " " + b)
  {
    var x, y := a + "  " + b, a + " " + b;
    if a == [] {
      assert x[1..] == y;
    } else {
      CollapseSpacesRun(a[1..], b);
      assert x[1..] == a[1..] + "  " + b;
      assert y[1..] == a[1..] + " " + b;
      assert x[0] == y[0] && x[1] == y[1];
    }
  }

  /** `re.sub(r'\n\n+', '\n\n', s)`: every run of two or more newlines becomes exactly two. */
  function CollapseNewlines(s: string): (r: string)
    ensures s != [] ==> r != [] && r[0] == s[0]
  {
    if s == [] then []
    else
      if |s| >= 3 && s[0] == '\n' && s[1] == '\n' && s[2] == '\n' then CollapseNewlines(s[1..])
      else [s[0]] + CollapseNewlines(s[1..])
  }

  /** Collapsing newline runs removes newlines and nothing else. */
  lemma {:induction false} CollapseNewlinesKeepsOthers(s: string)
    ensures forall c :: c != '\n' ==> multiset(CollapseNewlines(s))[c] == multiset(s)[c]
    ensures multiset(CollapseNewlines(s))['\n'] <= multiset(s)['\n']
  {
    if s != [] {
      assert s == [s[0]] + s[1..];
      CollapseNewlinesKeepsOthers(s[1..]);
    }
  }

  /** No three consecutive newlines. */
  predicate NoTripleNewline(s: string) {
    forall i :: 0 <= i < |s| - 2 ==> !(s[i] == '\n' && s[i + 1] == '\n' && s[i + 2] == '\n')
  }

  /** Collapsing never lengthens the text and keeps its second character. */
  lemma {:induction false} CollapseNewlinesHead(s: string)
    ensures |CollapseNewlines(s)| <= |s|
    ensures |s| >= 2 ==> |CollapseNewlines(s)| >= 2 && CollapseNewlines(s)[1] == s[1]
  {
    if s != [] {
      CollapseNewlinesHead(s[1..]);
    }
  }

  /** After collapsing, no run of three or more newlines is left. */
  lemma {:induction false} CollapseNewlinesNoTriple(s: string)
    ensures NoTripleNewline(CollapseNewlines(s))
  {
    if s != [] {
      CollapseNewlinesNoTriple(s[1..]);
      CollapseNewlinesHead(s[1..]);
      if !(|s| >= 3 && s[0] == '\n' && s[1] == '\n' && s[2] == '\n') {
        var rest := CollapseNewlines(s[1..]);
        var r := [s[0]] + rest;
        assert forall i :: 1 <= i < |r| ==> r[i] == rest[i - 1];
      }
    }
  }

  /** Text without a run of three newlines is left as it is. */
  lemma {:induction false} CollapseNewlinesIdentity(s: string)
    requires NoTripleNewline(s)
    ensures CollapseNewlines(s) == s
  {
    if s != [] {
      assert NoTripleNewline(s[1..]) by {
        assert forall i :: 0 <= i < |s| - 1 ==> s[1..][i] == s[i + 1];
      }
      CollapseNewlinesIdentity(s[1..]);
      assert s == [s[0]] + s[1..];
    }
  }

  /** Three newlines anywhere give the same result as two newlines there. */
  lemma {:induction false} CollapseNewlinesRun(a: string, b: string)
    ensures CollapseNewlines(a + "\n\n\n" + b) == CollapseNewlines(a + "\n\n" + b)
  {
    var x, y := a + "\n\n\n" + b, a + "\n\n" + b;
    if a == [] {
      assert x[1..] == y;
    } else {
      CollapseNewlinesRun(a[1..], b);
      assert x[1..] == a[1..] + "\n\n\n" + b;
      assert y[1..] == a[1..] + "\n\n" + b;
      assert x[0] == y[0] && x[1] == y[1] && x[2] == y[2];
    }
  }

  /** Dropping newlines cannot bring two spaces together. */
  lemma {:induction false} CollapseNewlinesNoDoubleSpace(s: string)
    requires NoDoubleSpace(s)
    ensures NoDoubleSpace(CollapseNewlines(s))
  {
    if s != [] {
      SuffixNoDoubleSpace(s, 1);
      CollapseNewlinesNoDoubleSpace(s[1..]);
      if !(|s| >= 3 && s[0] == '\n' && s[1] == '\n' && s[2] == '\n') {
        var rest := CollapseNewlines(s[1..]);
        var r := [s[0]] + rest;
        assert forall i :: 1 <= i < |r| ==> r[i] == rest[i - 1];
        if s[0] == ' ' && |s| > 1 {
          assert s[1] != ' ';
          assert r[1] == s[1];
        }
      }
    }
  }

  lemma MultisetSubset(r: string, s: string)
    requires forall c :: multiset(r)[c] <= multiset(s)[c]
    ensures forall c :: c in r ==> c in s
  {
    forall c | c in r ensures c in s {
      assert c in multiset(r);
    }
  }

  /** `[line.rstrip() for line in lines]`. */
  function RStripAll(lines: seq<string>): (r: seq<string>)
    ensures |r| == |lines| && forall i :: 0 <= i < |lines| ==> r[i] == RStrip(lines[i])
  {
    seq(|lines|, i requires 0 <= i < |lines| => RStrip(lines[i]))
  }

  /** `'\n'.join(line.rstrip() for line in s.split('\n'))`. */
  function RStripLines(s: string): string {
    Join(RStripAll(Split(s, '\n')), "\n")
  }

  /** `normalize_whitespace`. */
  function NormalizeWhitespace(s: string): string {
    RStripLines(CollapseNewlines(CollapseSpaces(s)))
  }

  lemma PrefixNoDoubleSpace(p: string, s: string)
    requires p <= s && NoDoubleSpace(s)
    ensures NoDoubleSpace(p)
  {
    assert forall i :: 0 <= i < |p| ==> p[i] == s[i];
  }

  lemma SuffixNoDoubleSpace(s: string, k: nat)
    requires k <= |s| && NoDoubleSpace(s)
    ensures NoDoubleSpace(s[k..])
  {
    assert forall i :: 0 <= i < |s[k..]| ==> s[k..][i] == s[k + i];
  }

  /** Every part of a split inherits the absence of double spaces. */
  lemma {:induction false} SplitNoDoubleSpace(s: string, sep: char)
    requires NoDoubleSpace(s)
    ensures forall i :: 0 <= i < |Split(s, sep)| ==> NoDoubleSpace(Split(s, sep)[i])
  {
    if s != [] {
      SuffixNoDoubleSpace(s, 1);
      SplitNoDoubleSpace(s[1..], sep);
      var rest := Split(s[1..], sep);
      if s[0] != sep {
        var first := [s[0]] + rest[0];
        assert rest[0] <= s[1..];
        assert forall i :: 1 <= i < |first| ==> first[i] == rest[0][i - 1] == s[i];
        assert NoDoubleSpace(first);
        assert Split(s, sep) == [first] + rest[1..];
      }
    }
  }

  /** One line glued before a newline and the rest keeps both guarantees. */
  lemma GlueLine(a: string, b: string)
    requires '\n' !in a
    requires NoDoubleSpace(a) && NoDoubleSpace(b)
    requires a == [] || !IsSpace(a[|a| - 1])
    requires NoSpaceBeforeLineEnd(b)
    ensures NoDoubleSpace(a + "\n" + b)
    ensures NoSpaceBeforeLineEnd(a + "\n" + b)
  {
    var r := a + "\n" + b;
    assert forall i :: 0 <= i < |a| ==> r[i] == a[i];
    assert r[|a|] == '\n';
    assert forall i :: |a| < i < |r| ==> r[i] == b[i - |a| - 1];
  }

  /** Joining clean lines with newlines gives text without double spaces or
      trailing whitespace on any line, with one newline per line break. */
  lemma {:induction false} JoinCleanLines(lines: seq<string>)
    requires |lines| >= 1
    requires forall i :: 0 <= i < |lines| ==> '\n' !in lines[i]
    requires forall i :: 0 <= i < |lines| ==> NoDoubleSpace(lines[i])
    requires forall i :: 0 <= i < |lines| ==> lines[i] == [] || !IsSpace(lines[i][|lines[i]| - 1])
    ensures NoDoubleSpace(Join(lines, "\n"))
    ensures NoSpaceBeforeLineEnd(Join(lines, "\n"))
    ensures CountChar(Join(lines, "\n"), '\n') == |lines| - 1
  {
    if |lines| == 1 {
      CountCharAbsent(lines[0], '\n');
    } else {
      JoinCleanLines(lines[1..]);
      var rest := Join(lines[1..], "\n");
      GlueLine(lines[0], rest);
      CountCharAbsent(lines[0], '\n');
      CountCharAppend(lines[0], "\n", '\n');
      CountCharAppend(lines[0] + "\n", rest, '\n');
    }
  }

  /** The three stages together: no double spaces, no line ending in
      whitespace, no more newlines than the input, and no new characters. */
  lemma NormalizeWhitespaceClean(s: string)
    ensures NoDoubleSpace(NormalizeWhitespace(s))
    ensures NoSpaceBeforeLineEnd(NormalizeWhitespace(s))
    ensures CountChar(NormalizeWhitespace(s), '\n') <= CountChar(s, '\n')
    ensures forall c :: c in NormalizeWhitespace(s) ==> c in s
  {
    var t := CollapseNewlines(CollapseSpaces(s));
    CollapseNewlinesNoDoubleSpace(CollapseSpaces(s));
    CollapseSpacesKeepsOthers(s);
    CollapseNewlinesKeepsOthers(CollapseSpaces(s));
    MultisetSubset(t, s);
    var parts := Split(t, '\n');
    var lines := RStripAll(parts);
    SplitNoDoubleSpace(t, '\n');
    forall i | 0 <= i < |lines|
      ensures '\n' !in lines[i] && NoDoubleSpace(lines[i])
    {
      PrefixNoDoubleSpace(lines[i], parts[i]);
    }
    JoinCleanLines(lines);
    SplitCount(t, '\n');
    CountCharMultiset(t, '\n');
    CountCharMultiset(s, '\n');
    forall c | c in NormalizeWhitespace(s) ensures c in s {
      JoinChars(lines, "\n", c);
      if c == '\n' {
        assert CountChar(s, '\n') >= 1;
        CountCharPositive(s, '\n');
      } else {
        var i :| 0 <= i < |lines| && c in lines[i];
        RStripRemovesSpaces(parts[i]);
      }
    }
  }

  lemma {:induction false} CountCharMultiset(s: string, c: char)
    ensures CountChar(s, c) == multiset(s)[c]
  {
    if s != [] {
      assert s == [s[0]] + s[1..];
      CountCharMultiset(s[1..], c);
    }
  }

  lemma CountCharPositive(s: string, c: char)
    requires CountChar(s, c) > 0
    ensures c in s
  {
    CountCharMultiset(s, c);
  }
}
