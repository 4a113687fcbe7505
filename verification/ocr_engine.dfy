/**
 Recognition-result shaping and selection. The OCR libraries themselves are
 not modelled: what a backend reports for one page image is an input value
 (its raw line detections, or the fact that the call raised), and this module
 models how the engine turns that into one `{text, confidence}` result, how
 the ensemble picks between two backends, how a batch of pages is processed,
 and how per-page confidences are rolled up into document metrics.
 */
module OcrEngine {
  import opened Wrappers
  import opened PyText
  import opened Numeric

  /** One line detection from PaddleOCR or EasyOCR: its text, the y coordinate
      of the first corner of its bounding box, and its confidence. */
  datatype Detection = Detection(text: string, y: real, confidence: real)

  /** What a line-detecting backend reported for one image. */
  datatype BackendOutput = Raised | Detections(lines: seq<Detection>)

  /** One entry of Tesseract's `image_to_data` table. */
  datatype TesseractWord = TesseractWord(text: string, conf: real)

  /** What Tesseract reported for one image: the word table and the separate
      `image_to_string` text, or the fact that a call raised. */
  datatype TesseractOutput = TesseractRaised | TesseractData(words: seq<TesseractWord>, fullText: string)

  /** The `{text, confidence}` part of a recognition result dict. */
  datatype OcrResult = OcrResult(text: string, confidence: real)

  /** The result every shaper returns when nothing was recognised or the backend raised. */
  const EmptyResult := OcrResult("", 0.0)

  /** Confidence above which the ensemble keeps the primary result without consulting the secondary. */
  const HighConfidence: real := 0.9

  /** config.MIN_CONFIDENCE_THRESHOLD: pages scoring below it are low-confidence. */
  const MinConfidenceThreshold: real := 0.7

  /** config.BATCH_SIZE, the grouping used when recognising a list of pages. */
  const BatchSize: nat := 16

  // ---------------------------------------------------------------------------
  // Ordering detections top to bottom
  // ---------------------------------------------------------------------------

  predicate SortedByY(ds: seq<Detection>) {
    forall i, j :: 0 <= i < j < |ds| ==> ds[i].y <= ds[j].y
  }

  /** The detections whose y equals `k`, in their order in `ds`. */
  function WithY(ds: seq<Detection>, k: real): seq<Detection> {
    if ds == [] then []
    else WithY(ds[..|ds| - 1], k) + (if ds[|ds| - 1].y == k then [ds[|ds| - 1]] else [])
  }

  /** Inserts `d` after the trailing detections whose y is greater than d's. */
  function InsertByY(sorted: seq<Detection>, d: Detection): seq<Detection> {
    if sorted == [] || sorted[|sorted| - 1].y <= d.y then sorted + [d]
    else InsertByY(sorted[..|sorted| - 1], d) + [sorted[|sorted| - 1]]
  }

  /** Inserting adds exactly `d`. */
  lemma {:induction false} InsertByYPerm(sorted: seq<Detection>, d: Detection)
    ensures multiset(InsertByY(sorted, d)) == multiset(sorted) + multiset{d}
  {
    if sorted != [] && sorted[|sorted| - 1].y > d.y {
      var pre := sorted[..|sorted| - 1];
      assert sorted == pre + [sorted[|sorted| - 1]];
      InsertByYPerm(pre, d);
    }
  }

  /** Inserting into a sorted list keeps it sorted. */
  lemma {:induction false} InsertByYSorted(sorted: seq<Detection>, d: Detection)
    requires SortedByY(sorted)
    ensures SortedByY(InsertByY(sorted, d))
  {
    if sorted == [] || sorted[|sorted| - 1].y <= d.y {
      var r := sorted + [d];
      forall i, j | 0 <= i < j < |r| ensures r[i].y <= r[j].y {
        if j == |r| - 1 {
          assert r[i] == sorted[i] && sorted[i].y <= sorted[|sorted| - 1].y;
        } else {
          assert r[i] == sorted[i] && r[j] == sorted[j];
        }
      }
    } else {
      var last := sorted[|sorted| - 1];
      var pre := sorted[..|sorted| - 1];
      assert SortedByY(pre) by {
        forall i, j | 0 <= i < j < |pre| ensures pre[i].y <= pre[j].y {
          assert pre[i] == sorted[i] && pre[j] == sorted[j];
        }
      }
      InsertByYSorted(pre, d);
      InsertByYBelow(pre, d, last.y);
      var ins := InsertByY(pre, d);
      var r := ins + [last];
      forall i, j | 0 <= i < j < |r| ensures r[i].y <= r[j].y {
        assert r[i] == ins[i];
        if j < |r| - 1 {
          assert r[j] == ins[j];
        }
      }
    }
  }

  /** Every element of an insertion lies at or below a common bound. */
  lemma InsertByYBelow(pre: seq<Detection>, d: Detection, bound: real)
    requires forall i :: 0 <= i < |pre| ==> pre[i].y <= bound
    requires d.y <= bound
    ensures forall i :: 0 <= i < |InsertByY(pre, d)| ==> InsertByY(pre, d)[i].y <= bound
  {
    InsertByYPerm(pre, d);
    var ins := InsertByY(pre, d);
    forall i | 0 <= i < |ins| ensures ins[i].y <= bound {
      var x := ins[i];
      assert x in multiset(ins);
      assert x in multiset(pre) || x == d;
      if x in multiset(pre) {
        assert x in pre;
      }
    }
  }

  /** Python's stable `lines.sort(key=y)`, as an insertion sort. */
  function SortByY(ds: seq<Detection>): (r: seq<Detection>)
    ensures SortedByY(r)
    ensures multiset(r) == multiset(ds)
  {
    if ds == [] then []
    else
      assert ds == ds[..|ds| - 1] + [ds[|ds| - 1]];
      InsertByYSorted(SortByY(ds[..|ds| - 1]), ds[|ds| - 1]);
      InsertByYPerm(SortByY(ds[..|ds| - 1]), ds[|ds| - 1]);
      InsertByY(SortByY(ds[..|ds| - 1]), ds[|ds| - 1])
  }

  /** Filtering by y distributes over appending one detection. */
  lemma WithYSnoc(ds: seq<Detection>, x: Detection, k: real)
    ensures WithY(ds + [x], k) == WithY(ds, k) + (if x.y == k then [x] else [])
  {
    assert (ds + [x])[..|ds|] == ds;
  }

  lemma {:induction false} InsertByYStable(sorted: seq<Detection>, d: Detection, k: real)
    ensures WithY(InsertByY(sorted, d), k) == WithY(sorted, k) + (if d.y == k then [d] else [])
  {
    if sorted == [] || sorted[|sorted| - 1].y <= d.y {
      WithYSnoc(sorted, d, k);
    } else {
      var last := sorted[|sorted| - 1];
      var pre := sorted[..|sorted| - 1];
      assert sorted == pre + [last];
      InsertByYStable(pre, d, k);
      WithYSnoc(InsertByY(pre, d), last, k);
      WithYSnoc(pre, last, k);
      assert InsertByY(sorted, d) == InsertByY(pre, d) + [last];
      var base := WithY(pre, k);
      if d.y == k {
        assert last.y != k;
        assert WithY(InsertByY(sorted, d), k) == base + [d] + [];
        assert WithY(sorted, k) + [d] == base + [] + [d];
      } else {
        assert WithY(sorted, k) + [] == WithY(sorted, k);
      }
    }
  }

  /** The sort is stable: detections with equal y keep their detection order. */
  lemma {:induction false} SortByYStable(ds: seq<Detection>, k: real)
    ensures WithY(SortByY(ds), k) == WithY(ds, k)
  {
    if ds != [] {
      var pre := ds[..|ds| - 1];
      SortByYStable(pre, k);
      InsertByYStable(SortByY(pre), ds[|ds| - 1], k);
    }
  }

  function Texts(ds: seq<Detection>): (r: seq<string>)
    ensures |r| == |ds| && forall i :: 0 <= i < |ds| ==> r[i] == ds[i].text
  {
    seq(|ds|, i requires 0 <= i < |ds| => ds[i].text)
  }

  function Confidences(ds: seq<Detection>): (r: seq<real>)
    ensures |r| == |ds| && forall i :: 0 <= i < |ds| ==> r[i] == ds[i].confidence
  {
    seq(|ds|, i requires 0 <= i < |ds| => ds[i].confidence)
  }

  // ---------------------------------------------------------------------------
  // Backend result shaping
  // ---------------------------------------------------------------------------

  /** `_process_paddleocr` / `_process_easyocr` after the library call: lines
      sorted top to bottom and joined with newlines, confidence the mean of the
      line confidences; no detections or an exception give the empty result. */
  function ShapeDetections(out: BackendOutput): (r: OcrResult)
    ensures out.Raised? || out.lines == [] ==> r == EmptyResult
    ensures out.Detections? && out.lines != [] ==>
              Min(Confidences(out.lines)) <= r.confidence <= Max(Confidences(out.lines))
  {
    match out
    case Raised => EmptyResult
    case Detections(lines) =>
      if lines == [] then EmptyResult
      else
        MeanBetweenMinMax(Confidences(lines));
        OcrResult(Join(Texts(SortByY(lines)), "\n"), Mean(Confidences(lines)))
  }

  /** Splitting the shaped text at newlines gives back the line texts in
      top-to-bottom order, when no single line text holds a newline. */
  lemma ShapedTextIsSortedLines(lines: seq<Detection>)
    requires lines != []
    requires forall i :: 0 <= i < |lines| ==> '\n' !in lines[i].text
    ensures SortedByY(SortByY(lines))
    ensures Split(ShapeDetections(Detections(lines)).text, '\n') == Texts(SortByY(lines))
  {
    SortedTextsKeepNoNewline(lines);
    ShapedTextIsJoin(lines);
    SplitJoin(Texts(SortByY(lines)), '\n');
  }

  lemma SortedTextsKeepNoNewline(lines: seq<Detection>)
    requires forall i :: 0 <= i < |lines| ==> '\n' !in lines[i].text
    ensures forall i :: 0 <= i < |Texts(SortByY(lines))| ==> '\n' !in Texts(SortByY(lines))[i]
  {
    var sorted := SortByY(lines);
    forall i | 0 <= i < |sorted| ensures '\n' !in sorted[i].text {
      assert sorted[i] in multiset(lines);
      var k :| 0 <= k < |lines| && lines[k] == sorted[i];
    }
  }

  lemma ShapedTextIsJoin(lines: seq<Detection>)
    requires lines != []
    ensures ShapeDetections(Detections(lines)).text == Join(Texts(SortByY(lines)), ['\n'])
  {
    assert |multiset(SortByY(lines))| == |multiset(lines)|;
  }

  /** A Tesseract word contributes when `text.strip()` is non-empty, that is
      when the text is not blank (`StripRemovesSpaces`), and its conf is positive. */
  predicate Contributes(w: TesseractWord) {
    !IsBlank(w.text) && w.conf > 0.0
  }

  /** The contributing words' confidences, scaled from percent to [0, 1]. */
  function KeptConfidences(words: seq<TesseractWord>): seq<real> {
    if words == [] then []
    else (if Contributes(words[0]) then [words[0].conf / 100.0] else []) + KeptConfidences(words[1..])
  }

  /** `_process_tesseract` after the library calls: the text is
      `image_to_string`'s, the confidence the mean over contributing words. */
  function ShapeTesseract(out: TesseractOutput): (r: OcrResult)
    ensures out.TesseractRaised? ==> r == EmptyResult
    ensures out.TesseractData? ==> r.text == out.fullText
    ensures out.TesseractData? && KeptConfidences(out.words) == [] ==> r.confidence == 0.0
    ensures out.TesseractData? && KeptConfidences(out.words) != [] ==> r.confidence > 0.0
  {
    match out
    case TesseractRaised => EmptyResult
    case TesseractData(words, fullText) =>
      var kept := KeptConfidences(words);
      if kept == [] then OcrResult(fullText, 0.0)
      else
        KeptWithin(words, 100.0 + MaxConf(words));
        MeanWithin(kept, 0.0, (100.0 + MaxConf(words)) / 100.0);
        KeptPositive(words);
        assert Min(kept) > 0.0;
        MeanBetweenMinMax(kept);
        OcrResult(fullText, Mean(kept))
  }

  /** An upper bound on every conf in the table. */
  function MaxConf(words: seq<TesseractWord>): (m: real)
    ensures m >= 0.0
    ensures forall i :: 0 <= i < |words| ==> words[i].conf <= m
  {
    if words == [] then 0.0
    else
      var rest := MaxConf(words[1..]);
      assert forall i :: 1 <= i < |words| ==> words[i] == words[1..][i - 1];
      if words[0].conf > rest then words[0].conf else rest
  }

  lemma {:induction false} KeptPositive(words: seq<TesseractWord>)
    ensures forall i :: 0 <= i < |KeptConfidences(words)| ==> KeptConfidences(words)[i] > 0.0
  {
    if words != [] {
      KeptPositive(words[1..]);
      var head := if Contributes(words[0]) then [words[0].conf / 100.0] else [];
      var rest := KeptConfidences(words[1..]);
      var all := head + rest;
      assert KeptConfidences(words) == all;
      forall i | 0 <= i < |all| ensures all[i] > 0.0 {
        if i < |head| {
          assert all[i] == words[0].conf / 100.0 && words[0].conf > 0.0;
        } else {
          assert all[i] == rest[i - |head|];
        }
      }
    }
  }

  /** When every conf is at most `hi`, every kept confidence lies in [0, hi/100]. */
  lemma {:induction false} KeptWithin(words: seq<TesseractWord>, hi: real)
    requires forall i :: 0 <= i < |words| ==> words[i].conf <= hi
    ensures AllWithin(KeptConfidences(words), 0.0, hi / 100.0)
  {
    if words != [] {
      assert forall i :: 0 <= i < |words[1..]| ==> words[1..][i] == words[i + 1];
      KeptWithin(words[1..], hi);
    }
  }

  /** Tesseract reports conf as a percentage; when every conf is at most 100,
      the shaped confidence lies in [0, 1]. */
  lemma TesseractConfidenceWithinUnit(out: TesseractOutput)
    requires out.TesseractData?
    requires forall i :: 0 <= i < |out.words| ==> out.words[i].conf <= 100.0
    ensures 0.0 <= ShapeTesseract(out).confidence <= 1.0
  {
    var kept := KeptConfidences(out.words);
    if kept != [] {
      KeptWithin(out.words, 100.0);
      MeanWithin(kept, 0.0, 1.0);
    }
  }

  // ---------------------------------------------------------------------------
  // Ensemble selection and engine dispatch
  // ---------------------------------------------------------------------------

  /** The chosen result, and whether the secondary backend had to be run. */
  datatype EnsembleChoice = EnsembleChoice(result: OcrResult, secondaryRun: bool)

  /** `_process_ensemble`: `secondary` is None when no secondary engine could be
      initialised, and otherwise what it would report for the page. */
  function Ensemble(primary: OcrResult, secondary: Option<OcrResult>): (c: EnsembleChoice)
    ensures primary.confidence > HighConfidence ==> c == EnsembleChoice(primary, false)
    ensures c.secondaryRun <==> primary.confidence <= HighConfidence && secondary.Some?
    ensures c.result == primary || (c.secondaryRun && c.result == secondary.value)
    ensures c.result != primary ==> c.result.confidence > primary.confidence
    ensures c.secondaryRun ==>
              c.result.confidence == (if secondary.value.confidence > primary.confidence
                                      then secondary.value.confidence else primary.confidence)
    ensures c.secondaryRun && secondary.value.confidence <= primary.confidence ==> c.result == primary
  {
    if primary.confidence > HighConfidence then EnsembleChoice(primary, false)
    else if secondary.Some? then
      if secondary.value.confidence > primary.confidence then EnsembleChoice(secondary.value, true)
      else EnsembleChoice(primary, true)
    else EnsembleChoice(primary, false)
  }

  /** The configured engine; an unknown name is rejected when the engine is built. */
  datatype Engine = PaddleEngine | EasyEngine | TesseractEngine | EnsembleEngine(hasSecondary: bool)

  /** What each backend would report for one page image. */
  datatype PageImage = PageImage(paddle: BackendOutput, easy: BackendOutput, tesseract: TesseractOutput)

  /** `process_image`: dispatch on the configured engine. In ensemble mode the
      secondary call `_process_easyocr` asks `self.ocr` for `readtext`, but
      `_init_ensemble` left the PaddleOCR instance there and kept the EasyOCR
      reader in `ocr_secondary`; the call raises, the exception is caught,
      and the secondary result is always the empty one. So the ensemble keeps
      the PaddleOCR result whenever its confidence is not negative. */
  function ProcessImage(engine: Engine, image: PageImage): (r: OcrResult)
    ensures engine.EnsembleEngine? && ShapeDetections(image.paddle).confidence >= 0.0 ==>
              r == ShapeDetections(image.paddle)
  {
    match engine
    case PaddleEngine => ShapeDetections(image.paddle)
    case EasyEngine => ShapeDetections(image.easy)
    case TesseractEngine => ShapeTesseract(image.tesseract)
    case EnsembleEngine(hasSecondary) =>
      Ensemble(ShapeDetections(image.paddle),
               if hasSecondary then Some(ShapeDetections(Raised)) else None).result
  }

  /** The ensemble as evidently intended: the secondary is what the EasyOCR
      reader reports for the page. The other engines are unchanged. */
  function ProcessImageIntended(engine: Engine, image: PageImage): OcrResult {
    match engine
    case EnsembleEngine(hasSecondary) =>
      Ensemble(ShapeDetections(image.paddle),
               if hasSecondary then Some(ShapeDetections(image.easy)) else None).result
    case _ => ProcessImage(engine, image)
  }

  /** As written, the ensemble never returns the EasyOCR result: with line
      confidences in [0, 1] it always returns the PaddleOCR result. */
  lemma EnsembleIgnoresSecondary(hasSecondary: bool, image: PageImage)
    requires UnitConfidences(image.paddle)
    ensures ProcessImage(EnsembleEngine(hasSecondary), image) == ShapeDetections(image.paddle)
  {
  }

  /** A page where the two differ: PaddleOCR reads "a" at 0.4, EasyOCR reads
      "b" at 0.8. As written the ensemble returns "a"; as intended, "b". */
  lemma EnsembleSecondaryExample()
    ensures var image := PageImage(Detections([Detection("a", 0.0, 0.4)]),
                                   Detections([Detection("b", 0.0, 0.8)]), TesseractRaised);
            ProcessImage(EnsembleEngine(true), image) == OcrResult("a", 0.4)
            && ProcessImageIntended(EnsembleEngine(true), image) == OcrResult("b", 0.8)
  {
  }

  /** The intended ensemble: above 0.9 the PaddleOCR result is kept; otherwise,
      with a secondary reader, the better of the two results is returned, ties
      going to PaddleOCR. */
  lemma EnsembleIntendedPicksBetter(image: PageImage)
    ensures var p := ShapeDetections(image.paddle);
            var e := ShapeDetections(image.easy);
            var r := ProcessImageIntended(EnsembleEngine(true), image);
            (p.confidence > HighConfidence ==> r == p)
            && (p.confidence <= HighConfidence ==>
                  r == (if e.confidence > p.confidence then e else p))
  {
  }

  /** Every detection confidence of a line backend lies in [0, 1]. */
  predicate UnitConfidences(out: BackendOutput) {
    out.Detections? ==> forall i :: 0 <= i < |out.lines| ==> 0.0 <= out.lines[i].confidence <= 1.0
  }

  lemma ShapeDetectionsWithinUnit(out: BackendOutput)
    requires UnitConfidences(out)
    ensures 0.0 <= ShapeDetections(out).confidence <= 1.0
  {
    if out.Detections? && out.lines != [] {
      var cs := Confidences(out.lines);
      assert 0.0 <= Min(cs) && Max(cs) <= 1.0;
    }
  }

  /** When the backends report confidences in their documented ranges, every
      engine configuration yields a page confidence in [0, 1]. */
  lemma ProcessImageWithinUnit(engine: Engine, image: PageImage)
    requires UnitConfidences(image.paddle) && UnitConfidences(image.easy)
    requires image.tesseract.TesseractData? ==>
               forall i :: 0 <= i < |image.tesseract.words| ==> image.tesseract.words[i].conf <= 100.0
    ensures 0.0 <= ProcessImage(engine, image).confidence <= 1.0
  {
    ShapeDetectionsWithinUnit(image.paddle);
    ShapeDetectionsWithinUnit(image.easy);
    if image.tesseract.TesseractData? {
      TesseractConfidenceWithinUnit(image.tesseract);
    }
  }

  /** Applies `f` to every element, walking the list in consecutive groups of
      `size` as `for i in range(0, len(xs), size)` does: each element is
      visited exactly once, and its result lands at its own position. */
  method MapInGroups<T, U>(f: T -> U, xs: seq<T>, size: nat) returns (ys: seq<U>)
    requires size > 0
    ensures |ys| == |xs|
    ensures forall i :: 0 <= i < |xs| ==> ys[i] == f(xs[i])
  {
    ys := [];
    var i := 0;
    while i < |xs|
      invariant 0 <= i
      invariant |ys| == (if i < |xs| then i else |xs|)
      invariant forall k :: 0 <= k < |ys| ==> ys[k] == f(xs[k])
    {
      var end := if i + size < |xs| then i + size else |xs|;
      var group := xs[i..end];
      var j := 0;
      while j < |group|
        invariant 0 <= j <= |group|
        invariant |ys| == i + j
        invariant forall k :: 0 <= k < |ys| ==> ys[k] == f(xs[k])
      {
        ys := ys + [f(group[j])];
        j := j + 1;
      }
      i := i + size;
    }
  }

  /** `process_batch`: pages are taken in groups of BatchSize, but every page
      gets exactly one result, in input order. */
  method RecogniseBatch(engine: Engine, images: seq<PageImage>) returns (results: seq<OcrResult>)
    ensures |results| == |images|
    ensures forall i :: 0 <= i < |images| ==> results[i] == ProcessImage(engine, images[i])
  {
    results := MapInGroups(image => ProcessImage(engine, image), images, BatchSize);
  }

  // ---------------------------------------------------------------------------
  // Document confidence metrics
  // ---------------------------------------------------------------------------

  /** The dict `extract_confidence_metrics` returns; `needsReview` is None when
      the key is absent, which is the case for an empty page list. */
  datatype ConfidenceMetrics =
    ConfidenceMetrics(avg: real, min: real, max: real, lowPages: seq<nat>, needsReview: Option<bool>)

  function PageConfidences(results: seq<OcrResult>): (r: seq<real>)
    ensures |r| == |results| && forall i :: 0 <= i < |results| ==> r[i] == results[i].confidence
  {
    seq(|results|, i requires 0 <= i < |results| => results[i].confidence)
  }

  predicate StrictlyIncreasing(xs: seq<nat>) {
    forall i, j :: 0 <= i < j < |xs| ==> xs[i] < xs[j]
  }

  /** The 1-based page numbers (counted from `offset`) of confidences below
      the threshold, in page order. */
  function LowPagesFrom(cs: seq<real>, offset: nat): (r: seq<nat>)
    ensures forall k :: 0 <= k < |r| ==> offset + 1 <= r[k] <= offset + |cs|
    ensures StrictlyIncreasing(r)
  {
    if cs == [] then []
    else (if cs[0] < MinConfidenceThreshold then [offset + 1] else []) + LowPagesFrom(cs[1..], offset + 1)
  }

  /** A page is listed exactly when its confidence is below the threshold. */
  lemma {:induction false} LowPagesFromExact(cs: seq<real>, offset: nat)
    ensures forall p :: p in LowPagesFrom(cs, offset) <==>
              offset + 1 <= p <= offset + |cs| && cs[p - offset - 1] < MinConfidenceThreshold
  {
    if cs != [] {
      LowPagesFromExact(cs[1..], offset + 1);
      assert forall k :: 0 <= k < |cs[1..]| ==> cs[1..][k] == cs[k + 1];
    }
  }

  /** `extract_confidence_metrics`. */
  function ExtractConfidenceMetrics(results: seq<OcrResult>): (m: ConfidenceMetrics)
    ensures results == [] ==> m == ConfidenceMetrics(0.0, 0.0, 0.0, [], None)
    ensures results != [] ==> m.needsReview == Some(m.lowPages != [])
    ensures results != [] ==> m.min <= m.avg <= m.max
    ensures forall i :: 0 <= i < |results| ==> m.min <= results[i].confidence <= m.max
    ensures StrictlyIncreasing(m.lowPages)
  {
    if results == [] then ConfidenceMetrics(0.0, 0.0, 0.0, [], None)
    else
      var cs := PageConfidences(results);
      var low := LowPagesFrom(cs, 0);
      MeanBetweenMinMax(cs);
      ConfidenceMetrics(Mean(cs), Min(cs), Max(cs), low, Some(|low| > 0))
  }

  /** The page confidences below the threshold, by 1-based page number. */
  lemma {:induction false} LowPagesOfPages(results: seq<OcrResult>)
    ensures forall p :: p in LowPagesFrom(PageConfidences(results), 0) <==>
              1 <= p <= |results| && results[p - 1].confidence < MinConfidenceThreshold
  {
    var cs := PageConfidences(results);
    LowPagesFromExact(cs, 0);
    forall p
      ensures p in LowPagesFrom(cs, 0) <==> 1 <= p <= |results| && results[p - 1].confidence < MinConfidenceThreshold
    {
      if 1 <= p <= |results| {
        assert cs[p - 1] == results[p - 1].confidence;
      }
    }
  }

  /** The low pages are exactly the 1-based numbers of the pages scoring
      below the threshold. */
  lemma LowPagesExact(results: seq<OcrResult>)
    ensures forall p :: p in ExtractConfidenceMetrics(results).lowPages <==>
              1 <= p <= |results| && results[p - 1].confidence < MinConfidenceThreshold
  {
    if results != [] {
      assert ExtractConfidenceMetrics(results).lowPages == LowPagesFrom(PageConfidences(results), 0);
      LowPagesOfPages(results);
    }
  }

  /** The reported minimum and maximum are the scores of actual pages. */
  lemma MetricsExtremesAttained(results: seq<OcrResult>)
    requires results != []
    ensures var m := ExtractConfidenceMetrics(results);
            (exists i :: 0 <= i < |results| && results[i].confidence == m.min)
            && (exists i :: 0 <= i < |results| && results[i].confidence == m.max)
  {
    var cs := PageConfidences(results);
    var lo :| 0 <= lo < |cs| && cs[lo] == Min(cs);
    var hi :| 0 <= hi < |cs| && cs[hi] == Max(cs);
    assert results[lo].confidence == ExtractConfidenceMetrics(results).min;
    assert results[hi].confidence == ExtractConfidenceMetrics(results).max;
  }

  /** A non-empty document needs review exactly when some page scores below the threshold. */
  lemma NeedsReviewIffLowPage(results: seq<OcrResult>)
    requires results != []
    ensures ExtractConfidenceMetrics(results).needsReview == Some(true) <==>
              exists i :: 0 <= i < |results| && results[i].confidence < MinConfidenceThreshold
  {
    var m := ExtractConfidenceMetrics(results);
    LowPagesExact(results);
    if exists i :: 0 <= i < |results| && results[i].confidence < MinConfidenceThreshold {
      var i :| 0 <= i < |results| && results[i].confidence < MinConfidenceThreshold;
      assert i + 1 in m.lowPages;
    } else if m.lowPages != [] {
      assert m.lowPages[0] in m.lowPages;
    }
  }

  /** Pages scoring 0.95, 0.60 and 0.85: only page 2 is low, review is needed, the mean is 0.8. */
  lemma LowPagesExample()
    ensures LowPagesFrom([0.95, 0.60, 0.85], 0) == [2]
  {
    var cs := [0.95, 0.60, 0.85];
    assert cs[1..] == [0.60, 0.85] && cs[1..][1..] == [0.85] && cs[1..][1..][1..] == [];
    assert LowPagesFrom([], 3) == [];
    assert LowPagesFrom([0.85], 2) == [];
    assert LowPagesFrom([0.60, 0.85], 1) == [2];
  }

  lemma ExampleSum()
    ensures Sum([0.95, 0.60, 0.85]) == 2.4
  {
    var cs := [0.95, 0.60, 0.85];
    assert cs[1..] == [0.60, 0.85] && cs[1..][1..] == [0.85];
  }

  lemma ExampleMinMax()
    ensures Min([0.95, 0.60, 0.85]) == 0.60 && Max([0.95, 0.60, 0.85]) == 0.95
  {
    var cs := [0.95, 0.60, 0.85];
    assert cs[1..] == [0.60, 0.85] && cs[1..][1..] == [0.85];
  }

  lemma MetricsExample()
    ensures var m := ExtractConfidenceMetrics([OcrResult("a", 0.95), OcrResult("b", 0.60), OcrResult("c", 0.85)]);
            m.lowPages == [2] && m.needsReview == Some(true) && m.avg == 0.8
            && m.min == 0.60 && m.max == 0.95
  {
    var rs := [OcrResult("a", 0.95), OcrResult("b", 0.60), OcrResult("c", 0.85)];
    assert PageConfidences(rs) == [0.95, 0.60, 0.85];
    LowPagesExample();
    ExampleSum();
    ExampleMinMax();
  }
}
