# Arabic legal-document OCR pipeline — a Dafny model of its core

The system scans PDF files of Arabic legal documents that sit in a Google
Drive folder. It has four parts that this project models:

- **The ledger.** Each Drive file has one `pdf_files` row, keyed by a unique `file_id`.
- **The driver** (`OCRProcessor`):
  - syncs the Drive listing into the ledger;
  - processes pending rows one file at a time (download, rasterise, recognise, post-process, write outputs);
  - resets failed rows for a retry;
  - reports statistics.
- **The recognition engine.** It turns each backend's raw detections into one `{text, confidence}` per page, runs an ensemble mode meant to choose between two backends (as written, the second backend is never reached; see Findings), and derives per-document confidence metrics.
- **The Arabic post-processor.** Its character-level normalisers rewrite digits, expand ligatures, drop diacritics and tidy whitespace. It also splits a document into articles and scores how Arabic a text is.

Everything is pure. The ledger is a map from `file_id` to an immutable
`PdfFile` record, plus the rows' insertion order, which is the order queries
without `ORDER BY` return. Each driver operation is a function from ledger to
ledger.

The outside world is a parameter:

- What happens to one file is a `FileOutcome`: the download fails, or it yields page images together with the errors, if any, raised while writing the text output and while deleting the temp file.
- Each OCR backend's answer for a page is a `PageImage` field holding the raw detections, or a record that the backend raised.
- `fix_spacing`, `correct_common_errors` and `extract_dates` are function parameters.

Modules:

- `Wrappers`: `Option`.
- `PyText`: Python's `isspace`, `strip`, `rstrip`, `split(sep)` and `join`.
- `Numeric`: sums, means, minima and maxima over `real`.
- `ArabicChars`: digits, ligatures and diacritics.
- `Whitespace`: `normalize_whitespace`.
- `ArabicPostProcessor`: `process` and `validate_arabic_text`.
- `Articles`: `split_into_articles`.
- `OcrEngine`: result shaping, the ensemble rule, batch recognition and confidence metrics.
- `Ledger`: rows, sync and statistics.
- `Orchestrator`: `process_single_file`, `process_batch` and `retry_failed_files`.

Where the design description and the code differ, the model follows the code:

- **Low-confidence pages.** The code numbers them from 1, so `[0.95, 0.60, 0.85]` gives `[2]`, not `[1]`.
- **Documents with no pages.** The empty metrics dict has no `needs_review` key, so such a document fails with `'needs_review'` instead of being scored 0.0.
- **Selecting pending rows.** Rows are selected by a plain query with no atomic claim.
- **Quarantine.** No row is ever quarantined.
- **Ensemble mode.** The secondary backend is never consulted (see Findings). `ProcessImage`, and so the pipeline, keeps this as-written behaviour, because it is what the program produces. `ProcessImageIntended` is the corrected dispatch.
- **Invalid arguments.** A negative `batch_size` makes `range` empty, so nothing is processed. A negative `limit` reaches SQLite's `LIMIT`, which treats it as no bound.

## Model

| member | source | states |
|---|---|---|
| `Ledger.AddRecord` | src/models/database.py:19 | Adding a row whose `file_id` is absent keeps `file_id` unique. The row is stored under its id and appended to the insertion order. |
| `Ledger.Sync` | main.py:111-127 | The sync keeps `file_id` unique. It leaves every existing row unchanged and only appends to the insertion order. The count it returns is the number of rows appended. |
| `Ledger.SyncKeys` | main.py:113-126 | After a sync, an id has a row exactly when it had one before or appears in the listing. |
| `Ledger.SyncNewRecord` | main.py:118-125 | A row the sync creates is built from the first listing entry with that id. Its name, size and drive path (first parent, or `''`) come from that entry. |
| `Ledger.SyncNewRecordsPending` | src/models/database.py:26-55 | A row the sync creates is `pending`, with `retry_count` 0 and `needs_manual_review` false. |
| `Ledger.AddedAreNew` | main.py:116-127 | The ids the sync appends are exactly the listed ids that had no row before (both directions). |
| `Ledger.SyncCount` | main.py:108-136 | The returned count equals the number of distinct listed ids that were not yet in the table. |
| `Ledger.SyncKnown` | main.py:116-118 | A listing whose ids are all known leaves the table unchanged and returns 0. |
| `Ledger.SyncIdempotent` | main.py:111-127 | Syncing the same listing a second time changes nothing and returns 0. |
| `Ledger.FourCountsAtMostTotal` | src/models/database.py:132-136 | pending + processing + completed + failed ≤ total. The sum is equal to total when no row holds any other status. |
| `Ledger.CountIsSetSize` | src/models/database.py:133-136 | Counting over distinct ids gives the number of ids whose row has that status. |
| `Ledger.ProcessingStats` | src/models/database.py:128-155 | `total` is the number of rows. The four counts do not exceed it. The completion rate lies in [0, 100] and is 0 for an empty table. |
| `Ledger.StatsCountRows` | src/models/database.py:133-136 | Each status count is the number of rows holding exactly that status. |
| `Ledger.StatsCountsPartition` | src/models/database.py:132-136 | When every row holds one of the four written statuses, the four counts add up to the total. |
| `Ledger.CompletionRate` | src/models/database.py:154 | rate × total = completed × 100 when total > 0, otherwise 0. The rate always lies in [0, 100]. |
| `Ledger.CompletedValuesMembers` | src/models/database.py:138-144 | The values averaged are exactly the non-null column values of completed rows. |
| `Ledger.AvgConfidenceWithin` | src/models/database.py:138-140 | The average confidence lies within any bounds the completed rows' scores respect. Otherwise it is 0, and that happens only when no completed row has a score. |
| `Ledger.AvgTimeWithin` | src/models/database.py:142-144 | The same for the average processing time. |
| `OcrEngine.SortByY` | src/ocr_engine.py:164 | The result is ordered by y and is a permutation of the detections. |
| `OcrEngine.SortByYStable` | src/ocr_engine.py:164 | The sort is stable: detections with equal y keep their relative order. |
| `OcrEngine.ShapeDetections` | src/ocr_engine.py:136-181 | A raising backend or an empty detection list gives `''` with confidence 0.0. Otherwise the confidence (the mean) lies between the least and the greatest line confidence. |
| `OcrEngine.ShapedTextIsSortedLines` | src/ocr_engine.py:163-167 | When no line text contains a newline, splitting the text at newlines gives back the y-sorted line texts. |
| `OcrEngine.ShapeTesseract` | src/ocr_engine.py:229-275 | A raising call gives the empty result. Otherwise the text is the full-page string. The confidence is 0.0 exactly when no word contributes, and positive otherwise. |
| `OcrEngine.KeptPositive` | src/ocr_engine.py:251-260 | Every contributing Tesseract confidence is positive. Only non-blank words with `conf > 0` contribute. |
| `OcrEngine.TesseractConfidenceWithinUnit` | src/ocr_engine.py:254-264 | With word confidences at most 100, the scaled mean lies in [0, 1]. |
| `OcrEngine.Ensemble` | src/ocr_engine.py:277-294 | Above 0.9 the primary is kept and the secondary never runs. Otherwise the secondary is chosen only when it is strictly better, so the confidence is the larger of the two. Ties and a missing secondary keep the primary. |
| `OcrEngine.ProcessImage` | src/ocr_engine.py:117-134 | Dispatch on the engine. In ensemble mode the result is the PaddleOCR result whenever its confidence is not negative, because the secondary call always fails (src/ocr_engine.py:186, 225-227). |
| `OcrEngine.EnsembleIgnoresSecondary` | src/ocr_engine.py:131-134 | With PaddleOCR line confidences in [0, 1], the ensemble as written returns the PaddleOCR result whatever EasyOCR would read. |
| `OcrEngine.EnsembleSecondaryExample` | src/ocr_engine.py:131-134 | PaddleOCR reads "a" at 0.4 and EasyOCR "b" at 0.8: the ensemble as written gives "a", the intended one gives "b". |
| `OcrEngine.EnsembleIntendedPicksBetter` | src/ocr_engine.py:277-294 | With the EasyOCR reader actually consulted, above 0.9 the PaddleOCR result is kept; otherwise the EasyOCR result is returned exactly when its confidence is strictly higher. |
| `OcrEngine.ProcessImageWithinUnit` | src/ocr_engine.py:117-134 | For every engine, backend confidences in [0, 1] give a page confidence in [0, 1]. |
| `OcrEngine.MapInGroups` | src/ocr_engine.py:306-317 | Grouping the inputs gives one output per input, in input order. |
| `OcrEngine.RecogniseBatch` | src/ocr_engine.py:296-317 | Batch recognition gives one result per page, in page order. Each result is that page's recognition. |
| `OcrEngine.ExtractConfidenceMetrics` | src/ocr_engine.py:319-347 | No results give zeros, no low pages and no review key. Otherwise the review flag is present and equals "some page is low". In both cases min ≤ avg ≤ max, every page lies within [min, max], and the low-page list is strictly increasing. |
| `OcrEngine.LowPagesFromExact` | src/ocr_engine.py:338-339 | A number is in the list exactly when it is the 1-based index (plus the offset) of a confidence below 0.7. |
| `OcrEngine.LowPagesExact` | src/ocr_engine.py:337-345 | `low_confidence_pages` holds exactly the 1-based numbers of the pages whose confidence is below 0.7. |
| `OcrEngine.MetricsExtremesAttained` | src/ocr_engine.py:343-344 | The minimum and the maximum are both attained by some page. |
| `OcrEngine.NeedsReviewIffLowPage` | src/ocr_engine.py:338-346 | `needs_review` is true exactly when some page is below 0.7. |
| `OcrEngine.MetricsExample` | src/ocr_engine.py:337-347 | For `[0.95, 0.60, 0.85]`: low pages `[2]`, review flag true, mean 0.8, min 0.60, max 0.95. |
| `Numeric.MeanBetweenMinMax` | src/ocr_engine.py:342-344 | The mean of a non-empty sequence lies between its minimum and maximum. |
| `Orchestrator.ProcessFile` | main.py:145-260 | The row keeps its identity. It ends `completed` exactly when every step succeeds, and `failed` otherwise. On failure `retry_count` goes up by exactly one and the error message is the reported error. On success both are unchanged. |
| `Orchestrator.ProcessFileSuccessRecord` | main.py:178-198 | On success: `num_pages` is the page count and `processing_time` the elapsed time. Both confidence columns hold the metrics mean, the low pages are the metrics list, and the review flag is the metrics flag. |
| `Orchestrator.ProcessFileSuccessConfidence` | main.py:194-196 | On success the stored confidence lies between some page's confidence and some page's confidence. |
| `Orchestrator.ProcessFileSuccessLowPages` | main.py:197 | On success the stored low pages are exactly the 1-based pages below 0.7. |
| `Orchestrator.ProcessFileSuccessReview` | main.py:198 | On success `needs_manual_review` holds exactly when some page is below 0.7. |
| `Orchestrator.ZeroPageDocumentFails` | main.py:194-198 | A document with no pages ends `failed` with message `'needs_review'`, after its page count (0), confidence (0.0) and low pages (`[]`) were already set. Its retry count goes up by one. |
| `Orchestrator.CleanupFailureAfterCompletion` | main.py:221-232 | A temp-file removal error after completion turns the row `failed` with that message, keeping its processing time and page count. |
| `Orchestrator.ProcessAll` | main.py:307-311 | Processing a list of rows keeps `file_id` unique and changes neither the set of ids nor their order. |
| `Orchestrator.ProcessAllEffect` | main.py:307-311 | Each listed row is processed exactly once, from its state before the run. Every other row is untouched. |
| `Orchestrator.PendingAmongExact` | main.py:281 | The filter yields distinct ids, and an id appears exactly when its row is `pending`. |
| `Orchestrator.SelectPendingExact` | main.py:281-286 | Only pending rows are selected, each once, as a prefix of the pending rows in insertion order. With no limit (or a limit ≤ 0) every pending row is selected. Otherwise the selection is `min(limit, #pending)` rows. |
| `Orchestrator.ProcessBatch` | main.py:267-311 | A batch run keeps `file_id` unique and changes neither the set of ids nor their order. |
| `Orchestrator.ProcessBatchEffect` | main.py:275-311 | A row changes only if it was selected, and then it was pending. A selected row is processed once from its state before the run. A batch size ≤ 0 after the fallback processes nothing. |
| `Orchestrator.ProcessBatchSettles` | main.py:244-250 | With `process_single_file` as the step, a touched row ends `completed` or `failed`. Its retry count grows by at most one. Rows that were not pending are unchanged. |
| `Orchestrator.GcAsWrittenNeverWithEvenGroups` | main.py:307-316 | The garbage-collection test as written never fires when the group size is even. |
| `Orchestrator.GcMissedAtHundredthFile` | main.py:314-316 | With the default group size of 16, the hundredth file is due for a collection that the written test skips. |
| `Orchestrator.GcRunsEveryHundred` | main.py:314-316 | The corrected per-file test collects exactly ⌊n / 100⌋ times over n files. |
| `Orchestrator.ProcessFirstIsPrefix` | main.py:307-311 | Processing the first n selected rows one at a time equals processing the first n of the list. |
| `Orchestrator.ProcessRows` | main.py:310-311 | Processing rows `from..to` one by one extends the run from its first `from` rows to its first `to` rows. |
| `Orchestrator.CountCollections` | main.py:314-316 | With the corrected per-file test in place of the one written at main.py:315: running it over files `from..to` extends the count to the number of collections over the first `to` files. |
| `Orchestrator.ProcessGroup` | main.py:308-316 | One group: the table advances from the first `from` files to the first `to`. The collection count, under the corrected per-file test in place of main.py:315, advances the same way. |
| `Orchestrator.RunBatch` | main.py:307-316 | The grouped loop gives the same table as processing the selection in order. With the corrected per-file test in place of main.py:315, it performs ⌊selected / 100⌋ of the loop's own collections. |
| `Orchestrator.ResetFailed` | main.py:358-370 | The reset keeps `file_id` unique and changes neither the set of ids nor their order. |
| `Orchestrator.ResetFailedEffect` | main.py:358-368 | After the reset a row is pending exactly when it was pending, or failed under the retry limit (`max_retries`, with 0 or None meaning 3). Nothing but the status changes. |
| `Orchestrator.RetryFailed` | main.py:351-373 | A retry sweep keeps `file_id` unique and changes neither the set of ids nor their order. |
| `Orchestrator.RetryFailedEffect` | main.py:351-373 | A row is re-run exactly when it was pending, or failed under the limit, and it is re-run from its pending state. Every other row (processing, completed, or failed at the limit) is unchanged. |
| `Orchestrator.FailingRun` | main.py:248-250 | A failing file ends `failed` with one more retry. |
| `Orchestrator.RetryFailingOnce` | main.py:351-373 | A failed row whose file keeps failing gains one retry per sweep while under the limit, and stays failed. |
| `Orchestrator.AlwaysFailingStops` | main.py:358-361 | Over k sweeps, a file that always fails reaches the retry limit and stays there: its count is min(before + k, limit), or unchanged if already at the limit. |
| `ArabicChars.NormalizeNumbers` | src/arabic_postprocessor.py:110-132 | Length is preserved. Each Arabic-Indic or Persian digit becomes the ASCII digit of the same value. Every other character is unchanged. |
| `ArabicChars.NormalizeNumbersIdempotent` | src/arabic_postprocessor.py:120-132 | The output has no Eastern digits, and a second application changes nothing. |
| `ArabicChars.NormalizeNumbersIdentity` | src/arabic_postprocessor.py:120-132 | Text without Eastern digits is left unchanged. |
| `ArabicChars.ReplacementsFree` | src/arabic_postprocessor.py:145-152 | No replacement contains any of the six ligatures. |
| `ArabicChars.FixLigaturesIsExpansion` | src/arabic_postprocessor.py:154-155 | The six sequential `replace` calls equal expanding each character on its own. |
| `ArabicChars.FixLigaturesIdempotent` | src/arabic_postprocessor.py:134-157 | No ligature remains, and a second application changes nothing. |
| `ArabicChars.FixLigaturesIdentity` | src/arabic_postprocessor.py:154-155 | Text without ligatures is left unchanged. |
| `ArabicChars.FixLigaturesKeepsDigitsOut` | src/arabic_postprocessor.py:145-152 | Ligature expansion introduces no Eastern digit. |
| `ArabicChars.RemoveDiacritics` | src/arabic_postprocessor.py:197-198 | No character of U+064B–065F or U+0670 remains. |
| `ArabicChars.RemoveDiacriticsKeepsOthers` | src/arabic_postprocessor.py:197-198 | Every other character keeps its number of occurrences, and no character is introduced. |
| `ArabicChars.RemoveDiacriticsSubsequence` | src/arabic_postprocessor.py:197-198 | The output is a subsequence of the input. |
| `ArabicChars.RemoveDiacriticsIdentity` | src/arabic_postprocessor.py:197-198 | Text without diacritics is left unchanged. |
| `ArabicChars.RemoveDiacriticsIdempotent` | src/arabic_postprocessor.py:197-198 | A second application changes nothing. |
| `Whitespace.CollapseSpaces` | src/arabic_postprocessor.py:211 | No two consecutive spaces remain, and the first character is kept. |
| `Whitespace.CollapseSpacesIdentity` | src/arabic_postprocessor.py:211 | Text with no double space is left unchanged. |
| `Whitespace.CollapseSpacesRun` | src/arabic_postprocessor.py:211 | Two spaces anywhere give the same result as one space there, so every run of spaces ends up as exactly one. |
| `Whitespace.CollapseSpacesKeepsOthers` | src/arabic_postprocessor.py:211 | Only spaces are removed: every other character keeps its count. |
| `Whitespace.CollapseNewlines` | src/arabic_postprocessor.py:214 | The first character is kept. |
| `Whitespace.CollapseNewlinesNoTriple` | src/arabic_postprocessor.py:214 | No run of three or more newlines remains. |
| `Whitespace.CollapseNewlinesIdentity` | src/arabic_postprocessor.py:214 | Text with no run of three newlines is left unchanged. |
| `Whitespace.CollapseNewlinesRun` | src/arabic_postprocessor.py:214 | Three newlines anywhere give the same result as two newlines there, so every run of two or more ends up as exactly two. |
| `Whitespace.CollapseNewlinesKeepsOthers` | src/arabic_postprocessor.py:214 | Only newlines are removed: every other character keeps its count. |
| `Whitespace.JoinCleanLines` | src/arabic_postprocessor.py:217-218 | Joining clean lines with `'\n'` leaves no double space and no whitespace before a line end, with one newline per break. |
| `Whitespace.NormalizeWhitespaceClean` | src/arabic_postprocessor.py:200-220 | The output has no two consecutive spaces and no line ending in whitespace. It has no more newlines than the input and no character the input lacks. |
| `PyText.StripRemovesSpaces` | src/arabic_postprocessor.py:82 | `strip()` is empty exactly for all-whitespace text and introduces no character. |
| `PyText.RStripRemovesSpaces` | src/arabic_postprocessor.py:217 | `rstrip()` removes only trailing whitespace. |
| `PyText.JoinSplit` | src/arabic_postprocessor.py:217-218 | Joining the parts of `split('\n')` with `'\n'` gives back the text. |
| `PyText.SplitCount` | src/arabic_postprocessor.py:217 | `split` yields one more part than there are separators. |
| `ArabicPostProcessor.Process` | src/arabic_postprocessor.py:46-82 | Empty text gives `''`. Any result has no leading or trailing whitespace. |
| `ArabicPostProcessor.ProcessCleanWhitespace` | src/arabic_postprocessor.py:75-82 | With diacritic removal off, the processed text has no double space and no line ending in whitespace, whatever the opaque stages do. |
| `ArabicPostProcessor.DiacriticRemovalCanJoinSpaces` | src/arabic_postprocessor.py:76-80 | Removing diacritics after the whitespace pass can bring two spaces together, so the previous guarantee needs it off. |
| `ArabicPostProcessor.ProcessNormalisesDigitsAndLigatures` | src/arabic_postprocessor.py:63-73 | With both switches on, the output has no Eastern digit and no ligature. This needs the error corrector not to introduce either. |
| `ArabicPostProcessor.DocumentText` | main.py:185-191 | No pages give `''`. Otherwise the first page's processed text opens the document. |
| `ArabicPostProcessor.ArabicAtMostNonSpace` | src/arabic_postprocessor.py:313-316 | The Arabic-block count never exceeds the non-whitespace count. |
| `ArabicPostProcessor.ValidateArabicText` | src/arabic_postprocessor.py:293-338 | Empty text gives the five-key all-false answer. Otherwise ratio × non-space = Arabic, or 0 when there is no non-space character, so the ratio lies in [0, 1]. `is_valid` holds iff the ratio > 0.3, `has_arabic` iff some Arabic-block character occurs, and `has_numbers` iff some digit occurs. |
| `ArabicPostProcessor.ValidImpliesArabic` | src/arabic_postprocessor.py:331-332 | A valid text always contains Arabic. |
| `Articles.MatchAtIsMatch` | src/arabic_postprocessor.py:353 | A match at p is the marker word, optional whitespace, optional `رقم`, optional whitespace, then a maximal run of digits. |
| `Articles.IsMatchIsMatchAt` | src/arabic_postprocessor.py:353 | Conversely, every such well-formed match at p is exactly what the pattern finds at p. |
| `Articles.MatchStartsWithMarker` | src/arabic_postprocessor.py:353 | A match starts with `المادة` or `ماده`. |
| `Articles.FindMatchesSound` | src/arabic_postprocessor.py:353-354 | Every match found is a real match at its start. |
| `Articles.FindMatchesComplete` | src/arabic_postprocessor.py:353-354 | Every position where the pattern matches lies inside some match found, as the left-to-right non-overlapping scan of `finditer` gives. |
| `Articles.FindMatchesCompleteForMatches` | src/arabic_postprocessor.py:353-354 | Every position where a well-formed match begins lies inside some match found. |
| `Articles.SplitIntoArticles` | src/arabic_postprocessor.py:340-370 | There is one article per marker match. |
| `Articles.ArticlesTileText` | src/arabic_postprocessor.py:356-358 | Starts strictly increase. Each article ends where the next starts, and the last ends at `len(text)`. |
| `Articles.ArticlesStartAtMatches` | src/arabic_postprocessor.py:354-357 | Each article starts at a pattern match, and no match occurs before the first article. |
| `Articles.ArticleTextKeepsHeading` | src/arabic_postprocessor.py:360-361 | Each article's stripped text opens with its marker, and its number is a non-empty run of digits. |
| `Articles.TwoArticles` | src/arabic_postprocessor.py:340-370 | A two-article sample splits into two articles numbered `1` and `١٢`, the second starting at 11. |

## Left out

- Timestamps (`created_at`, `started_at`, `completed_at`, `last_retry_at`), `worker_id`, the output paths and the unused flags: the pipeline's logic never reads them.
- The text itself is not written anywhere. A failed TXT write is the `writeError` of the outcome. DOCX failures are caught and only logged, so they do not change the row.
- Logging, the progress bar, `show_statistics`' table and argparse `main()` only display or print.
- `num_workers` and `Pool` are never used: the loop is sequential, so there is no concurrency to model.
- SQLAlchemy sessions, `merge` and commit batching are not modelled, and neither is the rollback a failed sync would do. Each operation is one atomic update of the table.
- The Drive API, pdf2image, OpenCV and the OCR libraries are foreign code. They appear only through `FileOutcome`, `PageImage` and the raw detections.
- The listing's `int(size)` parse is not modelled: `CatalogEntry.size` is already an integer.
- `SyncNewRecord`: states the drive-path rule of main.py:122 for any entry. The listing the sync streams asks only for `id, name, size, createdTime, modifiedTime` (src/google_drive_handler.py:244), so in practice no entry has `parents` and every new row's drive path is `''`.
- `gc.collect()` does nothing observable. The one in `process_single_file`'s `finally` (main.py:262-265) runs after every file and is not counted. Only the batch loop's own collections are counted.
- `fix_spacing` and `correct_common_errors` rely on regex look-ahead and `\b`, so they are opaque function parameters of `Process`.
- `extract_dates` is an opaque parameter of `ValidateArabicText`.
- `extract_article_numbers` and `format_for_display` are not modelled: they are regex and bidi-library code.
- `round(..., 2)` in the statistics and in `arabic_ratio` is presentation rounding. All properties are stated on the unrounded `real` values.
- `\d` is modelled as the ASCII, Arabic-Indic and Persian digits only. Other Unicode decimal digits are left out.
- `RETRY_DELAY`, backoff, `MANUAL_REVIEW_THRESHOLD` and quarantine are configured but never read, so they are not modelled.
- `ValidateArabicText`: `has_legal_markers` and `word_count` are computed, but no contract relates them to the text beyond being present for non-empty input.
- `DocumentText`: its contract states the empty case and that the first page opens the document. It does not describe the separators between later pages.
- `ProcessGroup`: its collection count follows the corrected per-file test, not the group-offset test written at main.py:315. The as-written test is modelled by `GcAfterAsWritten`.
- `CountCollections`: counts collections under the corrected per-file test. As written, with an even group size, the loop's own collection never runs (`GcAsWrittenNeverWithEvenGroups`).
- `RunBatch`: its collection count is that of the corrected loop. As written, the loop performs none with the default group size.

## Findings

| source | as written | input that shows it | evidently intended | confidence | as-written member | corrected member |
|---|---|---|---|---|---|---|
| main.py:314-316 | `if (i + 1) % config.AUTO_GC_INTERVAL == 0` with `i` the offset of the current group of `batch_size` files, not the file's position | the default `batch_size` 16: every group offset is even, so `i + 1` is odd and never a multiple of 100, and the loop's periodic collection never runs. The per-file `gc.collect()` in `finally` (main.py:262-265) still runs after every file, so memory is unaffected. | collect after every hundredth file processed (`(k + 1) % 100 == 0` for the k-th file, counting from 0) | not executed | `Orchestrator.GcAsWrittenNeverWithEvenGroups` | `Orchestrator.GcRunsEveryHundred` |
| src/ocr_engine.py:186 | `_process_easyocr` calls `self.ocr.readtext`, but in ensemble mode `self.ocr` holds the PaddleOCR instance (src/ocr_engine.py:52, 108) and the EasyOCR reader sits in `self.ocr_secondary` (src/ocr_engine.py:112). The failing call is caught at src/ocr_engine.py:225-227 and yields the empty result. | PaddleOCR reads "a" at 0.4 and EasyOCR would read "b" at 0.8: the ensemble returns "a", since the secondary's confidence is 0.0 | call `self.ocr_secondary.readtext` in ensemble mode, so that the better of the two readings is kept | not executed | `OcrEngine.EnsembleIgnoresSecondary` | `OcrEngine.EnsembleIntendedPicksBetter` |
