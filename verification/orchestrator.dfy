/**
 The `OCRProcessor` driver: processing one ledger row end to end, the batch
 run over pending rows, and the retry of failed rows. What the outside world
 does for a file (the download, the rasterisation, the output writes and the
 temp-file removal) is a `FileOutcome` supplied per file id.
 */
module Orchestrator {
  import opened Wrappers
  import opened Ledger
  import opened OcrEngine

  /** What happens to one file outside the model's control. `FetchFailed`
      is a download or rasterisation error; `Fetched` carries the page images,
      the error (if any) raised while writing the text output, the error (if
      any) raised while deleting the temp copy, and the elapsed seconds. */
  datatype FileOutcome =
    | FetchFailed(message: string)
    | Fetched(pages: seq<PageImage>, writeError: Option<string>, cleanupError: Option<string>, elapsed: real)

  /** `str(KeyError('needs_review'))`, raised for a document with no pages. */
  const NeedsReviewKeyError: string := "'needs_review'"

  /** The dict `process_single_file` returns. */
  datatype FileReport =
    | Succeeded(filename: string, pages: nat, confidence: real, processingTime: real)
    | FileFailed(filename: string, error: string)

  datatype FileStep = FileStep(record: PdfFile, report: FileReport)

  /** The `except` branch: whatever was already set on the row stays, the
      row is marked failed with the message and one more retry. */
  function Fail(r: PdfFile, message: string): FileStep {
    FileStep(r.(status := Failed, errorMessage := Some(message), retryCount := r.retryCount + 1),
             FileFailed(r.filename, message))
  }

  /** The OCR result of every page, as the engine's `process_batch` gives them. */
  function PageResults(engine: Engine, pages: seq<PageImage>): seq<OcrResult> {
    seq(|pages|, i requires 0 <= i < |pages| => ProcessImage(engine, pages[i]))
  }

  /** The outcomes that let a file reach the end of the `try` block. */
  predicate Succeeds(outcome: FileOutcome) {
    outcome.Fetched? && outcome.pages != [] && outcome.writeError.None? && outcome.cleanupError.None?
  }

  /** `process_single_file`: the row goes to processing, then its fields are
      filled step by step; the first step that raises ends in `Fail` with the
      row as far as it got. A document with no pages raises at the review
      flag, a failed text write before completion, and a failed temp-file
      removal after the row was already marked completed. */
  function ProcessFile(r: PdfFile, engine: Engine, outcome: FileOutcome): (step: FileStep)
    ensures step.record.fileId == r.fileId && step.record.filename == r.filename
    ensures step.record.drivePath == r.drivePath && step.record.fileSize == r.fileSize
    ensures step.record.status == Completed <==> Succeeds(outcome)
    ensures step.record.status == Failed <==> !Succeeds(outcome)
    ensures step.report.Succeeded? <==> Succeeds(outcome)
    ensures !Succeeds(outcome) ==>
              step.record.retryCount == r.retryCount + 1 && step.record.errorMessage == Some(step.report.error)
    ensures Succeeds(outcome) ==>
              step.record.retryCount == r.retryCount && step.record.errorMessage == r.errorMessage
  {
    var started := r.(status := Processing);
    match outcome
    case FetchFailed(message) => Fail(started, message)
    case Fetched(pages, writeError, cleanupError, elapsed) =>
      var m := ExtractConfidenceMetrics(PageResults(engine, pages));
      var scored := started.(numPages := Some(|pages|), confidenceScore := Some(m.avg),
                             avgPageConfidence := Some(m.avg), lowConfidencePages := Some(m.lowPages));
      if m.needsReview.None? then Fail(scored, NeedsReviewKeyError)
      else
        var reviewed := scored.(needsManualReview := m.needsReview.value);
        if writeError.Some? then Fail(reviewed, writeError.value)
        else
          var done := reviewed.(status := Completed, processingTime := Some(elapsed));
          if cleanupError.Some? then Fail(done, cleanupError.value)
          else FileStep(done, Succeeded(r.filename, |pages|, m.avg, elapsed))
  }

  /** The row of a successful file: completed, with its page count, timing
      and the document metrics. */
  lemma ProcessFileSuccessRecord(r: PdfFile, engine: Engine, outcome: FileOutcome)
    requires Succeeds(outcome)
    ensures var rec := ProcessFile(r, engine, outcome).record;
            var m := ExtractConfidenceMetrics(PageResults(engine, outcome.pages));
            rec.numPages == Some(|outcome.pages|)
            && rec.processingTime == Some(outcome.elapsed)
            && rec.confidenceScore == Some(m.avg) && rec.avgPageConfidence == Some(m.avg)
            && rec.lowConfidencePages == Some(m.lowPages)
            && m.needsReview == Some(rec.needsManualReview)
  {
    assert |PageResults(engine, outcome.pages)| == |outcome.pages|;
  }

  /** A successful file's confidence lies between its weakest and strongest page. */
  lemma ProcessFileSuccessConfidence(r: PdfFile, engine: Engine, outcome: FileOutcome)
    requires Succeeds(outcome)
    ensures var rec := ProcessFile(r, engine, outcome).record;
            var rs := PageResults(engine, outcome.pages);
            rec.confidenceScore.Some?
            && (exists i :: 0 <= i < |rs| && rs[i].confidence <= rec.confidenceScore.value)
            && (exists i :: 0 <= i < |rs| && rec.confidenceScore.value <= rs[i].confidence)
  {
    var rs := PageResults(engine, outcome.pages);
    var m := ExtractConfidenceMetrics(rs);
    ProcessFileSuccessRecord(r, engine, outcome);
    MetricsExtremesAttained(rs);
    var lo :| 0 <= lo < |rs| && rs[lo].confidence == m.min;
    var hi :| 0 <= hi < |rs| && rs[hi].confidence == m.max;
  }

  /** A successful file records exactly its pages below the threshold. */
  lemma ProcessFileSuccessLowPages(r: PdfFile, engine: Engine, outcome: FileOutcome)
    requires Succeeds(outcome)
    ensures var rec := ProcessFile(r, engine, outcome).record;
            var rs := PageResults(engine, outcome.pages);
            rec.lowConfidencePages.Some?
            && forall p :: p in rec.lowConfidencePages.value <==>
                 1 <= p <= |rs| && rs[p - 1].confidence < MinConfidenceThreshold
  {
    ProcessFileSuccessRecord(r, engine, outcome);
    LowPagesExact(PageResults(engine, outcome.pages));
  }

  /** A successful file is flagged for review exactly when one of its pages
      scores below the threshold. */
  lemma ProcessFileSuccessReview(r: PdfFile, engine: Engine, outcome: FileOutcome)
    requires Succeeds(outcome)
    ensures var rec := ProcessFile(r, engine, outcome).record;
            var rs := PageResults(engine, outcome.pages);
            rec.needsManualReview <==> exists i :: 0 <= i < |rs| && rs[i].confidence < MinConfidenceThreshold
  {
    ProcessFileSuccessRecord(r, engine, outcome);
    NeedsReviewIffLowPage(PageResults(engine, outcome.pages));
  }

  /** A document without pages fails at the review flag, after its page count
      (zero) and its empty metrics were already written to the row. */
  lemma ZeroPageDocumentFails(r: PdfFile, engine: Engine, writeError: Option<string>,
                              cleanupError: Option<string>, elapsed: real)
    ensures var step := ProcessFile(r, engine, Fetched([], writeError, cleanupError, elapsed));
            step.record.status == Failed
            && step.report == FileFailed(r.filename, NeedsReviewKeyError)
            && step.record.numPages == Some(0)
            && step.record.confidenceScore == Some(0.0)
            && step.record.lowConfidencePages == Some([])
            && step.record.retryCount == r.retryCount + 1
  {
    assert PageResults(engine, []) == [];
  }

  /** A failed temp-file removal turns a row that had already been committed
      as completed into a failed one, keeping its metrics and timing. */
  lemma CleanupFailureAfterCompletion(r: PdfFile, engine: Engine, pages: seq<PageImage>, message: string, elapsed: real)
    requires pages != []
    ensures var rec := ProcessFile(r, engine, Fetched(pages, None, Some(message), elapsed)).record;
            rec.status == Failed && rec.errorMessage == Some(message)
            && rec.processingTime == Some(elapsed) && rec.numPages == Some(|pages|)
  {
    assert |PageResults(engine, pages)| > 0;
  }

  // ---------------------------------------------------------------------------
  // Batch processing
  // ---------------------------------------------------------------------------

  /** How a run treats one row: its new state from its state and its file id.
      The driver's runs use `FileRun`; the batch loop itself is stated for
      any step that keeps the row's file id. */
  type RowStep = (PdfFile, string) -> PdfFile

  ghost predicate KeepsId(step: RowStep) {
    forall r: PdfFile, id: string :: step(r, id).fileId == r.fileId
  }

  /** `process_single_file` as a row step, with the outside world's behaviour
      for each file id given by `outcomes`. */
  function FileRun(engine: Engine, outcomes: string -> FileOutcome): (step: RowStep)
    ensures forall r: PdfFile, id: string :: step(r, id) == ProcessFile(r, engine, outcomes(id)).record
  {
    (r: PdfFile, id: string) => ProcessFile(r, engine, outcomes(id)).record
  }

  /** Processes one row of the table in place. */
  function ApplyFile(l: Ledger, id: string, step: RowStep): (l': Ledger)
    requires id in l.files
    ensures l'.order == l.order && l'.files.Keys == l.files.Keys
  {
    Ledger(l.files[id := step(l.files[id], id)], l.order)
  }

  /** A step that keeps file ids keeps the table well formed. */
  lemma ApplyFileValid(l: Ledger, id: string, step: RowStep)
    requires Valid(l) && id in l.files && KeepsId(step)
    ensures Valid(ApplyFile(l, id, step))
  {
  }

  /** Processes the rows `ids`, in order. */
  function ProcessAll(l: Ledger, ids: seq<string>, step: RowStep): (l': Ledger)
    requires Valid(l) && KeepsId(step) && forall k :: 0 <= k < |ids| ==> ids[k] in l.files
    ensures Valid(l') && l'.order == l.order && l'.files.Keys == l.files.Keys
    decreases |ids|
  {
    if ids == [] then l
    else
      var before := ProcessAll(l, ids[..|ids| - 1], step);
      ApplyFileValid(before, ids[|ids| - 1], step);
      ApplyFile(before, ids[|ids| - 1], step)
  }

  /** Processing distinct ids applies the step exactly once to each listed
      row, on its state before the run, and touches no other row. */
  lemma {:induction false} ProcessAllEffect(l: Ledger, ids: seq<string>, step: RowStep, id: string)
    requires Valid(l) && KeepsId(step) && (forall k :: 0 <= k < |ids| ==> ids[k] in l.files) && Distinct(ids)
    requires id in l.files
    ensures ProcessAll(l, ids, step).files[id] == if id in ids then step(l.files[id], id) else l.files[id]
    decreases |ids|
  {
    if ids != [] {
      var init := ids[..|ids| - 1];
      var last := ids[|ids| - 1];
      assert Distinct(init);
      ProcessAllEffect(l, init, step, id);
      if id == last {
        forall k | 0 <= k < |init|
          ensures init[k] != id
        {
          assert init[k] == ids[k];
        }
      }
      assert id in ids <==> id in init || id == last;
    }
  }

  /** The rows `process_batch` queries: the pending ones, in insertion order. */
  function PendingAmong(files: map<string, PdfFile>, ids: seq<string>): (p: seq<string>)
    requires forall id :: id in ids ==> id in files
    ensures forall k :: 0 <= k < |p| ==> p[k] in ids
  {
    if ids == [] then []
    else (if files[ids[0]].status == Pending then [ids[0]] else []) + PendingAmong(files, ids[1..])
  }

  lemma {:induction false} PendingAmongExact(files: map<string, PdfFile>, ids: seq<string>)
    requires forall id :: id in ids ==> id in files
    requires Distinct(ids)
    ensures var p := PendingAmong(files, ids);
            Distinct(p) && forall id :: id in p <==> id in ids && files[id].status == Pending
  {
    if ids != [] {
      PendingAmongExact(files, ids[1..]);
      var rest := PendingAmong(files, ids[1..]);
      assert ids[0] !in ids[1..];
      assert ids[0] !in rest;
      var head := if files[ids[0]].status == Pending then [ids[0]] else [];
      var p := head + rest;
      assert PendingAmong(files, ids) == p;
      forall i, j | 0 <= i < j < |p|
        ensures p[i] != p[j]
      {
        if i >= |head| {
          assert p[i] == rest[i - |head|] && p[j] == rest[j - |head|];
        } else {
          assert p[j] == rest[j - 1] && rest[j - 1] in rest;
        }
      }
    }
  }

  /** `query.limit(limit)` applies when `limit` is truthy; a negative LIMIT
      means no bound in SQLite. */
  function SelectPending(l: Ledger, limit: Option<int>): (sel: seq<string>)
    requires Valid(l)
    ensures forall k :: 0 <= k < |sel| ==> sel[k] in l.files
  {
    var p := PendingAmong(l.files, l.order);
    if limit.Some? && 0 < limit.value < |p| then p[..limit.value] else p
  }

  /** The selection is duplicate-free and pending; without a positive limit it
      is every pending row, and with one it is the first `limit` of them. */
  lemma SelectPendingExact(l: Ledger, limit: Option<int>)
    requires Valid(l)
    ensures var sel := SelectPending(l, limit);
            Distinct(sel)
            && (forall k :: 0 <= k < |sel| ==> l.files[sel[k]].status == Pending)
            && (limit.None? || limit.value <= 0 ==>
                  forall id :: id in l.files && l.files[id].status == Pending ==> id in sel)
            && (limit.Some? && limit.value > 0 ==>
                  |sel| == if limit.value < |PendingAmong(l.files, l.order)| then limit.value
                           else |PendingAmong(l.files, l.order)|)
            && sel <= PendingAmong(l.files, l.order)
  {
    PendingAmongExact(l.files, l.order);
    var p := PendingAmong(l.files, l.order);
    var sel := SelectPending(l, limit);
    forall k | 0 <= k < |sel|
      ensures l.files[sel[k]].status == Pending
    {
      assert sel[k] == p[k] && p[k] in p;
    }
  }

  /** `batch_size or config.BATCH_SIZE`. */
  function EffectiveBatchSize(batchSize: Option<int>): int {
    if batchSize.None? || batchSize.value == 0 then BatchSize else batchSize.value
  }

  /** `process_batch`: the selected rows are processed in order, in groups of
      the batch size; a negative batch size makes `range` empty, so nothing is
      processed. The driver's own call uses `FileRun` as the step. */
  function ProcessBatch(l: Ledger, batchSize: Option<int>, limit: Option<int>, step: RowStep): (l': Ledger)
    requires Valid(l) && KeepsId(step)
    ensures Valid(l') && l'.order == l.order && l'.files.Keys == l.files.Keys
  {
    if EffectiveBatchSize(batchSize) <= 0 then l
    else ProcessAll(l, SelectPending(l, limit), step)
  }

  /** Each selected row is processed exactly once from its state before the
      run; every other row, including processing and completed ones, is left
      as it was. */
  lemma ProcessBatchEffect(l: Ledger, batchSize: Option<int>, limit: Option<int>, step: RowStep, id: string)
    requires Valid(l) && KeepsId(step) && id in l.files
    ensures var after := ProcessBatch(l, batchSize, limit, step).files[id];
            var selected := EffectiveBatchSize(batchSize) > 0 && id in SelectPending(l, limit);
            after == (if selected then step(l.files[id], id) else l.files[id])
            && (selected ==> l.files[id].status == Pending)
  {
    SelectPendingExact(l, limit);
    if EffectiveBatchSize(batchSize) > 0 {
      ProcessAllEffect(l, SelectPending(l, limit), step, id);
    }
  }

  /** With `process_single_file` as the step, every row the run touches ends
      completed or failed, its retry count grows by at most one, and rows that
      were not pending are untouched. */
  lemma ProcessBatchSettles(l: Ledger, batchSize: Option<int>, limit: Option<int>,
                            engine: Engine, outcomes: string -> FileOutcome, id: string)
    requires Valid(l) && id in l.files
    ensures var before := l.files[id];
            var after := ProcessBatch(l, batchSize, limit, FileRun(engine, outcomes)).files[id];
            (after == before || after.status == Completed || after.status == Failed)
            && before.retryCount <= after.retryCount <= before.retryCount + 1
            && (before.status != Pending ==> after == before)
  {
    ProcessBatchEffect(l, batchSize, limit, FileRun(engine, outcomes), id);
  }

  const AutoGcInterval: nat := 100

  /** The garbage-collection test as written: `(i + 1) % AUTO_GC_INTERVAL`
      with `i` the offset of the current group, not the file's position `k`. */
  predicate GcAfterAsWritten(k: nat, size: nat)
    requires size > 0
  {
    ((k / size) * size + 1) % AutoGcInterval == 0
  }

  /** The documented intent: collect after every hundredth file. */
  predicate GcAfter(k: nat) {
    (k + 1) % AutoGcInterval == 0
  }

  /** With any even group size the written test never fires: the group
      offset plus one is odd. */
  lemma GcAsWrittenNeverWithEvenGroups(k: nat, size: nat)
    requires size > 0 && size % 2 == 0
    ensures !GcAfterAsWritten(k, size)
  {
    var i := (k / size) * size;
    var h := size / 2;
    assert i == 2 * ((k / size) * h);
    var q := (i + 1) / AutoGcInterval;
    var rem := (i + 1) % AutoGcInterval;
    assert i + 1 == 100 * q + rem;
    assert rem != 0;
  }

  /** The hundredth file of a run with the default group size of 16: the
      intended collection is due, the written test does not fire. */
  lemma GcMissedAtHundredthFile()
    ensures GcAfter(99) && !GcAfterAsWritten(99, BatchSize)
  {
    GcAsWrittenNeverWithEvenGroups(99, BatchSize);
  }

  /** How many collections the corrected test performs over the first `n` files. */
  function GcRuns(n: nat): nat {
    if n == 0 then 0 else GcRuns(n - 1) + (if GcAfter(n - 1) then 1 else 0)
  }

  /** The corrected test collects once per hundred files. */
  lemma {:induction false} GcRunsEveryHundred(n: nat)
    ensures GcRuns(n) == n / AutoGcInterval
  {
    if n > 0 {
      GcRunsEveryHundred(n - 1);
      var q := (n - 1) / 100;
      var rem := (n - 1) % 100;
      assert n - 1 == 100 * q + rem;
      if rem == 99 {
        assert n == 100 * (q + 1);
      } else {
        assert n == 100 * q + (rem + 1) && rem + 1 < 100;
      }
    }
  }


  /** The table after processing the first `n` rows of the selection `files`,
      one at a time. */
  function ProcessFirst(l0: Ledger, files: seq<string>, n: nat, step: RowStep): (l': Ledger)
    requires (forall j :: 0 <= j < |files| ==> files[j] in l0.files) && n <= |files|
    ensures l'.order == l0.order && l'.files.Keys == l0.files.Keys
  {
    if n == 0 then l0 else ApplyFile(ProcessFirst(l0, files, n - 1, step), files[n - 1], step)
  }

  /** Processing the rows one at a time is processing the prefix in order. */
  lemma {:induction false} ProcessFirstIsPrefix(l0: Ledger, files: seq<string>, n: nat, step: RowStep)
    requires Valid(l0) && KeepsId(step) && (forall j :: 0 <= j < |files| ==> files[j] in l0.files) && n <= |files|
    ensures ProcessFirst(l0, files, n, step) == ProcessAll(l0, files[..n], step)
  {
    if n > 0 {
      ProcessFirstIsPrefix(l0, files, n - 1, step);
      assert files[..n][..n - 1] == files[..n - 1];
    }
  }

  /** The rows `files[from..to]` processed one by one on top of the rows
      before them. */
  method ProcessRows(l0: Ledger, files: seq<string>, from: nat, to: nat, l: Ledger, step: RowStep)
    returns (l': Ledger)
    requires (forall j :: 0 <= j < |files| ==> files[j] in l0.files)
    requires from <= to <= |files|
    requires l == ProcessFirst(l0, files, from, step)
    ensures l' == ProcessFirst(l0, files, to, step)
    decreases (to as int) - (from as int)
  {
    if from == to {
      l' := l;
    } else {
      var next := ApplyFile(l, files[from], step);
      l' := ProcessRows(l0, files, from + 1, to, next, step);
    }
  }

  /** The collection check after each of the files `from..to` (counted from
      zero over the whole run), with the corrected per-file test. */
  method CountCollections(from: nat, to: nat, collections: nat) returns (collections': nat)
    requires from <= to && collections == GcRuns(from)
    ensures collections' == GcRuns(to)
    decreases (to as int) - (from as int)
  {
    if from == to {
      collections' := collections;
    } else {
      var counted := if GcAfter(from) then collections + 1 else collections;
      collections' := CountCollections(from + 1, to, counted);
    }
  }

  /** The inner loop of `process_batch`: processes the rows `files[from..to]`
      one by one, each followed by the collection check. The counter does not
      depend on the table, so the two are stated apart. */
  method ProcessGroup(l0: Ledger, files: seq<string>, from: nat, to: nat, l: Ledger, collections: nat, step: RowStep)
    returns (l': Ledger, collections': nat)
    requires (forall j :: 0 <= j < |files| ==> files[j] in l0.files)
    requires from <= to <= |files|
    requires l == ProcessFirst(l0, files, from, step) && collections == GcRuns(from)
    ensures l' == ProcessFirst(l0, files, to, step) && collections' == GcRuns(to)
  {
    l' := ProcessRows(l0, files, from, to, l, step);
    collections' := CountCollections(from, to, collections);
  }

  /** The batch loop of `process_batch`: groups of the batch size over the
      selection, each row processed in turn, with the collection counter
      using the corrected per-file test. */
  method RunBatch(l: Ledger, batchSize: Option<int>, limit: Option<int>, step: RowStep)
    returns (l': Ledger, collections: nat)
    requires Valid(l) && KeepsId(step)
    ensures l' == ProcessBatch(l, batchSize, limit, step)
    ensures collections == (if EffectiveBatchSize(batchSize) > 0 then |SelectPending(l, limit)| / AutoGcInterval else 0)
  {
    var size := EffectiveBatchSize(batchSize);
    l' := l;
    collections := 0;
    if size <= 0 {
      return;
    }
    var files := SelectPending(l, limit);
    var done := 0;
    var i := 0;
    assert files[..0] == [];
    while i < |files|
      invariant 0 <= i && done == (if i < |files| then i else |files|)
      invariant l' == ProcessFirst(l, files, done, step)
      invariant collections == GcRuns(done)
    {
      var end := if i + size < |files| then i + size else |files|;
      l', collections := ProcessGroup(l, files, done, end, l', collections, step);
      done := end;
      i := i + size;
    }
    ProcessFirstIsPrefix(l, files, |files|, step);
    assert files[..|files|] == files;
    GcRunsEveryHundred(|files|);
  }

  // ---------------------------------------------------------------------------
  // Retrying failed files
  // ---------------------------------------------------------------------------

  /** `max_retries or config.MAX_RETRIES`. */
  function EffectiveMaxRetries(maxRetries: Option<int>): int {
    if maxRetries.None? || maxRetries.value == 0 then MaxRetries else maxRetries.value
  }

  const MaxRetries: int := 3

  function ResetRecord(r: PdfFile, maxRetries: int): PdfFile {
    if r.status == Failed && r.retryCount < maxRetries then r.(status := Pending) else r
  }

  /** The first half of `retry_failed_files`: failed rows still under the
      retry limit go back to pending, with their retry count unchanged. */
  function ResetFailed(l: Ledger, maxRetries: Option<int>): (l': Ledger)
    requires Valid(l)
    ensures Valid(l') && l'.order == l.order && l'.files.Keys == l.files.Keys
  {
    var m := EffectiveMaxRetries(maxRetries);
    Ledger(map id | id in l.files :: ResetRecord(l.files[id], m), l.order)
  }

  /** After the reset a row is pending exactly when it was pending, or failed
      under the limit; only the status can change. */
  lemma ResetFailedEffect(l: Ledger, maxRetries: Option<int>, id: string)
    requires Valid(l) && id in l.files
    ensures var before := l.files[id];
            var after := ResetFailed(l, maxRetries).files[id];
            (after.status == Pending <==>
               before.status == Pending
               || (before.status == Failed && before.retryCount < EffectiveMaxRetries(maxRetries)))
            && after == before.(status := after.status)
  {
  }

  /** `retry_failed_files`: the reset, then a full `process_batch()` with the
      default batch size and no limit, which also picks up rows that were
      already pending. */
  function RetryFailed(l: Ledger, maxRetries: Option<int>, step: RowStep): (l': Ledger)
    requires Valid(l) && KeepsId(step)
    ensures Valid(l') && l'.order == l.order && l'.files.Keys == l.files.Keys
  {
    ProcessBatch(ResetFailed(l, maxRetries), None, None, step)
  }

  /** A retry reprocesses exactly the pending rows and the failed rows under
      the limit, from their state with the status set back to pending;
      everything else, including failed rows at the limit, is kept. */
  lemma RetryFailedEffect(l: Ledger, maxRetries: Option<int>, step: RowStep, id: string)
    requires Valid(l) && KeepsId(step) && id in l.files
    ensures var before := l.files[id];
            var after := RetryFailed(l, maxRetries, step).files[id];
            var retried := before.status == Pending
                           || (before.status == Failed && before.retryCount < EffectiveMaxRetries(maxRetries));
            after == if retried then step(before.(status := Pending), id) else before
  {
    var reset := ResetFailed(l, maxRetries);
    ResetFailedEffect(l, maxRetries, id);
    ProcessBatchEffect(reset, None, None, step, id);
    SelectPendingExact(reset, None);
  }

  /** A run of a file that fails marks it failed with one more retry. */
  lemma FailingRun(r: PdfFile, engine: Engine, outcomes: string -> FileOutcome, id: string)
    requires !Succeeds(outcomes(id))
    ensures FileRun(engine, outcomes)(r, id).status == Failed
    ensures FileRun(engine, outcomes)(r, id).retryCount == r.retryCount + 1
  {
    assert FileRun(engine, outcomes)(r, id) == ProcessFile(r, engine, outcomes(id)).record;
  }

  /** One retry of a failed file that fails again: it is reprocessed, and
      counts one more retry, exactly when it was under the limit. */
  lemma RetryFailingOnce(l: Ledger, maxRetries: Option<int>, engine: Engine,
                         outcomes: string -> FileOutcome, id: string)
    requires Valid(l) && id in l.files
    requires l.files[id].status == Failed && !Succeeds(outcomes(id))
    ensures var before := l.files[id].retryCount;
            var after := RetryFailed(l, maxRetries, FileRun(engine, outcomes)).files[id];
            after.status == Failed
            && after.retryCount == if before < EffectiveMaxRetries(maxRetries) then before + 1 else before
  {
    var before := l.files[id];
    RetryFailedEffect(l, maxRetries, FileRun(engine, outcomes), id);
    FailingRun(before.(status := Pending), engine, outcomes, id);
  }

  /** Over successive calls of `retry_failed_files` (`states[j + 1]` is the
      table after the call on `states[j]`), a failed file that keeps failing
      is retried once per call until its retry count reaches the limit, and
      then never again. */
  lemma {:induction false} AlwaysFailingStops(states: seq<Ledger>, maxRetries: Option<int>, engine: Engine,
                                              outcomes: string -> FileOutcome, id: string, k: nat)
    requires |states| > 0 && Valid(states[0]) && id in states[0].files
    requires states[0].files[id].status == Failed && !Succeeds(outcomes(id))
    requires forall j :: 0 <= j < |states| - 1 ==>
               Valid(states[j]) && states[j + 1] == RetryFailed(states[j], maxRetries, FileRun(engine, outcomes))
    requires k < |states|
    ensures Valid(states[k]) && id in states[k].files && states[k].files[id].status == Failed
    ensures var before := states[0].files[id].retryCount;
            var limit := EffectiveMaxRetries(maxRetries);
            states[k].files[id].retryCount == (if before >= limit then before
                                               else if before + k <= limit then before + k
                                               else limit)
  {
    if k > 0 {
      AlwaysFailingStops(states, maxRetries, engine, outcomes, id, k - 1);
      RetryFailingOnce(states[k - 1], maxRetries, engine, outcomes, id);
    }
  }
}
