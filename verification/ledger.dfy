/**
 The processing ledger: one `PDFFile` row per Drive file, the catalog sync
 that adds rows for files not seen before, and the summary statistics read
 from the table. The table is a map keyed by `file_id` together with the
 row insertion order, which is the order queries without ORDER BY return.
 */
module Ledger {
  import opened Wrappers
  import opened Numeric

  /** The status strings the pipeline writes. The column is free text, so a
      row may hold any other string too. */
  const Pending: string := "pending"
  const Processing: string := "processing"
  const Completed: string := "completed"
  const Failed: string := "failed"

  /** A `pdf_files` row, without timestamps, output paths and the flags the
      pipeline never sets. Nullable columns are `Option`s. */
  datatype PdfFile = PdfFile(
    fileId: string,
    filename: string,
    drivePath: string,
    fileSize: int,
    numPages: Option<nat>,
    status: string,
    retryCount: nat,
    processingTime: Option<real>,
    confidenceScore: Option<real>,
    avgPageConfidence: Option<real>,
    lowConfidencePages: Option<seq<nat>>,
    errorMessage: Option<string>,
    needsManualReview: bool)

  /** One file of the Drive listing: its id, name, size (already parsed) and parent folders. */
  datatype CatalogEntry = CatalogEntry(id: string, name: string, size: int, parents: seq<string>)

  /** The row the sync inserts for a file not seen before; every other column
      takes its default (pending, no retries, not flagged for review). */
  function NewRecord(e: CatalogEntry): PdfFile {
    PdfFile(e.id, e.name, if e.parents != [] then e.parents[0] else "", e.size,
            None, Pending, 0, None, None, None, None, None, false)
  }

  /** An entry without parents, or with an empty parents list (falsy in the
      source's conditional), gets the empty drive path. */
  lemma NewRecordWithoutParents(id: string, name: string, size: int)
    ensures NewRecord(CatalogEntry(id, name, size, [])).drivePath == ""
  {
  }

  predicate Distinct<T(==)>(s: seq<T>) {
    forall i, j :: 0 <= i < j < |s| ==> s[i] != s[j]
  }

  /** The table: rows by `file_id`, and the ids in insertion order. */
  datatype Ledger = Ledger(files: map<string, PdfFile>, order: seq<string>)

  /** `file_id` is unique: every row appears once in the order, under its own id. */
  predicate Valid(l: Ledger) {
    Distinct(l.order)
    && (forall id :: id in l.files ==> id in l.order)
    && (forall id :: id in l.order ==> id in l.files)
    && (forall id :: id in l.files ==> l.files[id].fileId == id)
  }

  const EmptyLedger := Ledger(map[], [])

  lemma EmptyLedgerValid()
    ensures Valid(EmptyLedger)
  {
  }

  function AddRecord(l: Ledger, r: PdfFile): (l': Ledger)
    requires Valid(l) && r.fileId !in l.files
    ensures Valid(l')
    ensures l'.files == l.files[r.fileId := r] && l'.order == l.order + [r.fileId]
  {
    Ledger(l.files[r.fileId := r], l.order + [r.fileId])
  }

  // ---------------------------------------------------------------------------
  // Catalog sync
  // ---------------------------------------------------------------------------

  datatype SyncResult = SyncResult(ledger: Ledger, synced: nat)

  /** `sync_files_from_drive`: walks the listing in order; each id not yet in
      the table (including one added earlier in the same walk, which the
      session's autoflush makes visible) gets a fresh pending row. `synced`
      counts the rows added. */
  function Sync(l: Ledger, catalog: seq<CatalogEntry>): (r: SyncResult)
    requires Valid(l)
    ensures Valid(r.ledger)
    ensures l.order <= r.ledger.order && |r.ledger.order| == |l.order| + r.synced
    ensures forall id :: id in l.files ==> id in r.ledger.files && r.ledger.files[id] == l.files[id]
    decreases |catalog|
  {
    if catalog == [] then SyncResult(l, 0)
    else if catalog[0].id in l.files then Sync(l, catalog[1..])
    else
      var rest := Sync(AddRecord(l, NewRecord(catalog[0])), catalog[1..]);
      SyncResult(rest.ledger, rest.synced + 1)
  }

  predicate Listed(catalog: seq<CatalogEntry>, id: string) {
    exists k :: 0 <= k < |catalog| && catalog[k].id == id
  }

  /** After a sync the table holds exactly the old ids and the listed ones. */
  lemma {:induction false} SyncKeys(l: Ledger, catalog: seq<CatalogEntry>)
    requires Valid(l)
    ensures forall id :: id in Sync(l, catalog).ledger.files <==> id in l.files || Listed(catalog, id)
    decreases |catalog|
  {
    if catalog != [] {
      var l1 := if catalog[0].id in l.files then l else AddRecord(l, NewRecord(catalog[0]));
      SyncKeys(l1, catalog[1..]);
      assert Sync(l, catalog).ledger == Sync(l1, catalog[1..]).ledger;
      forall id
        ensures Listed(catalog, id) <==> catalog[0].id == id || Listed(catalog[1..], id)
      {
        ListedCons(catalog, id);
      }
    }
  }

  lemma ListedCons(catalog: seq<CatalogEntry>, id: string)
    requires catalog != []
    ensures Listed(catalog, id) <==> catalog[0].id == id || Listed(catalog[1..], id)
  {
    if Listed(catalog, id) && catalog[0].id != id {
      var k :| 0 <= k < |catalog| && catalog[k].id == id;
      assert catalog[1..][k - 1].id == id;
    }
    if Listed(catalog[1..], id) {
      var k :| 0 <= k < |catalog[1..]| && catalog[1..][k].id == id;
      assert catalog[k + 1].id == id;
    }
  }

  /** A row the sync added is the fresh pending row of the FIRST listing entry
      carrying that id; later duplicates are skipped. */
  lemma {:induction false} SyncNewRecord(l: Ledger, catalog: seq<CatalogEntry>, id: string)
    requires Valid(l)
    requires id in Sync(l, catalog).ledger.files && id !in l.files
    ensures exists k :: 0 <= k < |catalog| && catalog[k].id == id
                        && (forall j :: 0 <= j < k ==> catalog[j].id != id)
                        && Sync(l, catalog).ledger.files[id] == NewRecord(catalog[k])
    decreases |catalog|
  {
    if catalog[0].id == id {
      var l1 := AddRecord(l, NewRecord(catalog[0]));
      assert Sync(l, catalog).ledger == Sync(l1, catalog[1..]).ledger;
    } else {
      var l1 := if catalog[0].id in l.files then l else AddRecord(l, NewRecord(catalog[0]));
      assert Sync(l, catalog).ledger == Sync(l1, catalog[1..]).ledger;
      SyncNewRecord(l1, catalog[1..], id);
      var k :| 0 <= k < |catalog[1..]| && catalog[1..][k].id == id
               && (forall j :: 0 <= j < k ==> catalog[1..][j].id != id)
               && Sync(l1, catalog[1..]).ledger.files[id] == NewRecord(catalog[1..][k]);
      assert catalog[k + 1] == catalog[1..][k];
      forall j | 0 <= j < k + 1
        ensures catalog[j].id != id
      {
        if j > 0 {
          assert catalog[j] == catalog[1..][j - 1];
        }
      }
    }
  }

  /** A row the sync added is pending with no retries. */
  lemma SyncNewRecordsPending(l: Ledger, catalog: seq<CatalogEntry>, id: string)
    requires Valid(l)
    requires id in Sync(l, catalog).ledger.files && id !in l.files
    ensures Sync(l, catalog).ledger.files[id].status == Pending
    ensures Sync(l, catalog).ledger.files[id].retryCount == 0
    ensures !Sync(l, catalog).ledger.files[id].needsManualReview
  {
    SyncNewRecord(l, catalog, id);
  }

  /** The ids a listing contributes that the table does not hold yet. */
  function NewIds(l: Ledger, catalog: seq<CatalogEntry>): set<string> {
    set k | 0 <= k < |catalog| && catalog[k].id !in l.files :: catalog[k].id
  }

  lemma {:induction false} DistinctCard(s: seq<string>)
    requires Distinct(s)
    ensures |set x | x in s| == |s|
  {
    if s != [] {
      DistinctCard(s[1..]);
      assert (set x | x in s) == {s[0]} + (set x | x in s[1..]);
      assert s[0] !in s[1..];
    }
  }

  /** An id the sync appends to the order was listed and not yet in the table. */
  lemma AddedIsNew(l: Ledger, catalog: seq<CatalogEntry>, id: string)
    requires Valid(l) && id in Sync(l, catalog).ledger.order[|l.order|..]
    ensures id in NewIds(l, catalog)
  {
    var r := Sync(l, catalog).ledger;
    var n := |l.order|;
    var j :| 0 <= j < |r.order| - n && r.order[n..][j] == id;
    assert r.order[n + j] == id;
    forall x | 0 <= x < n
      ensures l.order[x] != id
    {
      assert r.order[x] == l.order[x] && r.order[x] != r.order[n + j];
    }
    assert id in r.files;
    SyncKeys(l, catalog);
    assert Listed(catalog, id);
    var k :| 0 <= k < |catalog| && catalog[k].id == id;
  }

  /** A listed id the table did not hold is appended to the order. */
  lemma NewIsAdded(l: Ledger, catalog: seq<CatalogEntry>, id: string)
    requires Valid(l) && id in NewIds(l, catalog)
    ensures id in Sync(l, catalog).ledger.order[|l.order|..]
  {
    var r := Sync(l, catalog);
    var added := r.ledger.order[|l.order|..];
    SyncKeys(l, catalog);
    assert id in r.ledger.order;
    forall j | 0 <= j < |l.order|
      ensures r.ledger.order[j] != id
    {
      assert r.ledger.order[j] == l.order[j];
    }
    var i :| 0 <= i < |r.ledger.order| && r.ledger.order[i] == id;
    assert added[i - |l.order|] == id;
  }

  /** The ids the sync appends to the order are exactly the listing's new ids. */
  lemma AddedAreNew(l: Ledger, catalog: seq<CatalogEntry>, id: string)
    requires Valid(l)
    ensures id in Sync(l, catalog).ledger.order[|l.order|..] <==> id in NewIds(l, catalog)
  {
    if id in Sync(l, catalog).ledger.order[|l.order|..] {
      AddedIsNew(l, catalog, id);
    }
    if id in NewIds(l, catalog) {
      NewIsAdded(l, catalog, id);
    }
  }

  /** The returned count is the number of distinct new ids in the listing. */
  lemma SyncCount(l: Ledger, catalog: seq<CatalogEntry>)
    requires Valid(l)
    ensures Sync(l, catalog).synced == |NewIds(l, catalog)|
  {
    var r := Sync(l, catalog);
    var added := r.ledger.order[|l.order|..];
    assert Distinct(added) by {
      forall i, j | 0 <= i < j < |added|
        ensures added[i] != added[j]
      {
        assert added[i] == r.ledger.order[|l.order| + i];
        assert added[j] == r.ledger.order[|l.order| + j];
      }
    }
    forall id
      ensures id in added <==> id in NewIds(l, catalog)
    {
      AddedAreNew(l, catalog, id);
    }
    assert (set x | x in added) == NewIds(l, catalog);
    DistinctCard(added);
  }

  /** A listing whose ids are all in the table changes nothing and counts zero. */
  lemma {:induction false} SyncKnown(l: Ledger, catalog: seq<CatalogEntry>)
    requires Valid(l)
    requires forall k :: 0 <= k < |catalog| ==> catalog[k].id in l.files
    ensures Sync(l, catalog) == SyncResult(l, 0)
    decreases |catalog|
  {
    if catalog != [] {
      SyncKnown(l, catalog[1..]);
    }
  }

  /** Syncing the same listing twice adds nothing the second time. */
  lemma SyncIdempotent(l: Ledger, catalog: seq<CatalogEntry>)
    requires Valid(l)
    ensures var once := Sync(l, catalog).ledger;
            Sync(once, catalog) == SyncResult(once, 0)
  {
    SyncKeys(l, catalog);
    var once := Sync(l, catalog).ledger;
    forall k | 0 <= k < |catalog|
      ensures catalog[k].id in once.files
    {
      assert Listed(catalog, catalog[k].id);
    }
    SyncKnown(once, catalog);
  }

  // ---------------------------------------------------------------------------
  // Processing statistics
  // ---------------------------------------------------------------------------

  /** The number of rows among `ids` whose status is `st`. */
  function CountStatus(files: map<string, PdfFile>, ids: seq<string>, st: string): nat
    requires forall id :: id in ids ==> id in files
  {
    if ids == [] then 0
    else (if files[ids[0]].status == st then 1 else 0) + CountStatus(files, ids[1..], st)
  }

  /** Each row has one status, so the four counts never exceed the total, and
      they make it up exactly when no row holds any other status. */
  lemma {:induction false} FourCountsAtMostTotal(files: map<string, PdfFile>, ids: seq<string>)
    requires forall id :: id in ids ==> id in files
    ensures CountStatus(files, ids, Pending) + CountStatus(files, ids, Processing)
            + CountStatus(files, ids, Completed) + CountStatus(files, ids, Failed) <= |ids|
    ensures (forall id :: id in ids ==> files[id].status in {Pending, Processing, Completed, Failed}) ==>
              CountStatus(files, ids, Pending) + CountStatus(files, ids, Processing)
              + CountStatus(files, ids, Completed) + CountStatus(files, ids, Failed) == |ids|
  {
    if ids != [] {
      FourCountsAtMostTotal(files, ids[1..]);
    }
  }

  /** The ids of `ids` whose row has status `st`. */
  function WithStatus(files: map<string, PdfFile>, ids: seq<string>, st: string): set<string>
    requires forall id :: id in ids ==> id in files
  {
    set id | id in ids && files[id].status == st
  }

  lemma WithStatusCons(files: map<string, PdfFile>, ids: seq<string>, st: string)
    requires forall id :: id in ids ==> id in files
    requires ids != []
    ensures WithStatus(files, ids, st) ==
              (if files[ids[0]].status == st then {ids[0]} else {}) + WithStatus(files, ids[1..], st)
  {
    assert forall id :: id in ids <==> id == ids[0] || id in ids[1..];
  }

  /** The count over the insertion order is the number of distinct rows with that status. */
  lemma {:induction false} CountIsSetSize(files: map<string, PdfFile>, ids: seq<string>, st: string)
    requires forall id :: id in ids ==> id in files
    requires Distinct(ids)
    ensures CountStatus(files, ids, st) == |WithStatus(files, ids, st)|
  {
    if ids != [] {
      CountIsSetSize(files, ids[1..], st);
      WithStatusCons(files, ids, st);
      assert ids[0] !in ids[1..];
      assert ids[0] !in WithStatus(files, ids[1..], st);
    }
  }


  /** The non-null values of one column over the completed rows among `ids`,
      which is what `avg(column)` filtered on status 'completed' averages. */
  function CompletedValues(files: map<string, PdfFile>, ids: seq<string>, column: PdfFile -> Option<real>): seq<real>
    requires forall id :: id in ids ==> id in files
  {
    if ids == [] then []
    else
      var r := files[ids[0]];
      (if r.status == Completed && column(r).Some? then [column(r).value] else [])
      + CompletedValues(files, ids[1..], column)
  }

  /** SQL `avg` of no values is NULL, which `or 0` turns into 0. */
  function AvgOrZero(xs: seq<real>): real {
    if xs == [] then 0.0 else Mean(xs)
  }

  function Confidence(r: PdfFile): Option<real> { r.confidenceScore }

  function Time(r: PdfFile): Option<real> { r.processingTime }

  /** The dict `get_processing_stats` returns, before rounding. */
  datatype Stats = Stats(
    total: nat,
    pending: nat,
    processing: nat,
    completed: nat,
    failed: nat,
    avgConfidence: real,
    avgProcessingTime: real,
    completionRate: real)

  /** `get_processing_stats`. */
  function ProcessingStats(l: Ledger): (s: Stats)
    requires Valid(l)
    ensures s.total == |l.order| == |l.files|
    ensures s.pending + s.processing + s.completed + s.failed <= s.total
    ensures 0.0 <= s.completionRate <= 100.0
    ensures s.total == 0 ==> s.completionRate == 0.0
  {
    FourCountsAtMostTotal(l.files, l.order);
    KeysAreOrder(l);
    var completed := CountStatus(l.files, l.order, Completed);
    var total := |l.order|;
    Stats(total,
          CountStatus(l.files, l.order, Pending),
          CountStatus(l.files, l.order, Processing),
          completed,
          CountStatus(l.files, l.order, Failed),
          AvgOrZero(CompletedValues(l.files, l.order, Confidence)),
          AvgOrZero(CompletedValues(l.files, l.order, Time)),
          CompletionRate(completed, total))
  }

  function CompletionRate(completed: nat, total: nat): (r: real)
    requires completed <= total
    ensures 0.0 <= r <= 100.0
    ensures total > 0 ==> r * (total as real) == (completed as real) * 100.0
    ensures total == 0 ==> r == 0.0
  {
    if total > 0 then
      var q := completed as real / total as real;
      DivideBounds(completed as real, total as real, 0.0, 1.0);
      q * 100.0
    else 0.0
  }

  lemma KeysAreOrder(l: Ledger)
    requires Valid(l)
    ensures |l.files| == |l.order|
  {
    DistinctCard(l.order);
    assert l.files.Keys == set x | x in l.order;
  }

  /** Every status count equals the number of rows of the table with that status. */
  lemma StatsCountRows(l: Ledger)
    requires Valid(l)
    ensures var s := ProcessingStats(l);
            s.pending == |set id | id in l.files && l.files[id].status == Pending|
            && s.processing == |set id | id in l.files && l.files[id].status == Processing|
            && s.completed == |set id | id in l.files && l.files[id].status == Completed|
            && s.failed == |set id | id in l.files && l.files[id].status == Failed|
  {
    CountIsSetSize(l.files, l.order, Pending);
    CountIsSetSize(l.files, l.order, Processing);
    CountIsSetSize(l.files, l.order, Completed);
    CountIsSetSize(l.files, l.order, Failed);
    SameRows(l, Pending);
    SameRows(l, Processing);
    SameRows(l, Completed);
    SameRows(l, Failed);
  }

  lemma SameRows(l: Ledger, st: string)
    requires Valid(l)
    ensures WithStatus(l.files, l.order, st) == set id | id in l.files && l.files[id].status == st
  {
  }

  /** When every row holds one of the four pipeline statuses the counts add up to the total. */
  lemma StatsCountsPartition(l: Ledger)
    requires Valid(l)
    requires forall id :: id in l.files ==> l.files[id].status in {Pending, Processing, Completed, Failed}
    ensures var s := ProcessingStats(l);
            s.pending + s.processing + s.completed + s.failed == s.total
  {
    FourCountsAtMostTotal(l.files, l.order);
  }

  lemma {:induction false} CompletedValuesWithin(files: map<string, PdfFile>, ids: seq<string>,
                                                 column: PdfFile -> Option<real>, lo: real, hi: real)
    requires forall id :: id in ids ==> id in files
    requires forall id :: id in ids && files[id].status == Completed && column(files[id]).Some? ==>
               lo <= column(files[id]).value <= hi
    ensures AllWithin(CompletedValues(files, ids, column), lo, hi)
  {
    if ids != [] {
      CompletedValuesWithin(files, ids[1..], column, lo, hi);
    }
  }

  /** A completed row's non-null value is among the averaged values, and only those are. */
  lemma {:induction false} CompletedValuesMembers(files: map<string, PdfFile>, ids: seq<string>,
                                                  column: PdfFile -> Option<real>, x: real)
    requires forall id :: id in ids ==> id in files
    ensures x in CompletedValues(files, ids, column) <==>
              exists id :: id in ids && files[id].status == Completed && column(files[id]) == Some(x)
  {
    if ids != [] {
      CompletedValuesMembers(files, ids[1..], column, x);
      var r := files[ids[0]];
      var head := if r.status == Completed && column(r).Some? then [column(r).value] else [];
      assert CompletedValues(files, ids, column) == head + CompletedValues(files, ids[1..], column);
      if exists id :: id in ids && files[id].status == Completed && column(files[id]) == Some(x) {
        var id :| id in ids && files[id].status == Completed && column(files[id]) == Some(x);
        if id != ids[0] {
          assert id in ids[1..];
        }
      }
    }
  }

  /** The average confidence is 0 when no completed row has a score, and
      otherwise lies within any bounds every completed row's score respects. */
  lemma AvgConfidenceWithin(l: Ledger, lo: real, hi: real)
    requires Valid(l)
    requires forall id :: id in l.files && l.files[id].status == Completed && l.files[id].confidenceScore.Some? ==>
               lo <= l.files[id].confidenceScore.value <= hi
    ensures var s := ProcessingStats(l);
            (s.avgConfidence == 0.0 && forall id :: id in l.files && l.files[id].status == Completed ==>
                                                     l.files[id].confidenceScore.None?)
            || lo <= s.avgConfidence <= hi
  {
    var vals := CompletedValues(l.files, l.order, Confidence);
    CompletedValuesWithin(l.files, l.order, Confidence, lo, hi);
    if vals == [] {
      forall id | id in l.files && l.files[id].status == Completed
        ensures l.files[id].confidenceScore.None?
      {
        if l.files[id].confidenceScore.Some? {
          CompletedValuesMembers(l.files, l.order, Confidence, l.files[id].confidenceScore.value);
        }
      }
    } else {
      MeanWithin(vals, lo, hi);
    }
  }

  /** Likewise for the average processing time of completed rows. */
  lemma AvgTimeWithin(l: Ledger, lo: real, hi: real)
    requires Valid(l)
    requires forall id :: id in l.files && l.files[id].status == Completed && l.files[id].processingTime.Some? ==>
               lo <= l.files[id].processingTime.value <= hi
    ensures var s := ProcessingStats(l);
            (s.avgProcessingTime == 0.0 && forall id :: id in l.files && l.files[id].status == Completed ==>
                                                         l.files[id].processingTime.None?)
            || lo <= s.avgProcessingTime <= hi
  {
    var vals := CompletedValues(l.files, l.order, Time);
    CompletedValuesWithin(l.files, l.order, Time, lo, hi);
    if vals == [] {
      forall id | id in l.files && l.files[id].status == Completed
        ensures l.files[id].processingTime.None?
      {
        if l.files[id].processingTime.Some? {
          CompletedValuesMembers(l.files, l.order, Time, l.files[id].processingTime.value);
        }
      }
    } else {
      MeanWithin(vals, lo, hi);
    }
  }
}
