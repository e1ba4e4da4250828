/**
 * Change detection and the run outcome (brightmls.py `get_data_hash`,
 * `save_data_hash`, `load_data_hash` and the decision at the end of
 * `run_brightmls_scraper`).  The hash file is `None` while it does not
 * exist, otherwise its text.  The digest (MD5 in hexadecimal in the source)
 * is a parameter: any deterministic function from the scraped rows to text.
 */
module ChangeDetector {
  import opened Wrappers
  import opened Text
  import opened Records
  import opened CsvSink
  import opened RowExtractor
  import opened StaleGuard
  import opened Pagination

  /** The result dictionary of `run_brightmls_scraper`. */
  datatype RunResult = RunResult(success: bool, message: string, rowCount: nat, newData: bool, timestamp: string)

  const SEARCH_FAILED := "\U{274C} Search failed"
  const NO_DATA_FOUND := "\U{274C} No data found"
  const DATA_UNCHANGED := "\U{2139}\U{FE0F} No new data found - data unchanged"
  const NEW_DATA_PREFIX := "\U{2705} New data saved with "
  const ROWS_SUFFIX := " rows"

  /** What `hexdigest()` returns: 32 lower-case hexadecimal digits. */
  predicate IsHexDigest(s: string)
  {
    |s| == 32 && forall i | 0 <= i < |s| :: '0' <= s[i] <= '9' || 'a' <= s[i] <= 'f'
  }

  /** `load_data_hash()` on the hash file `content`: its text stripped, or `None` if absent. */
  function LoadHash(content: Option<string>): Option<string>
  {
    match content
    case None => None
    case Some(text) => Some(Strip(text))
  }

  /** A digest written by `save_data_hash` is read back unchanged by `load_data_hash`. */
  lemma LoadAfterSave(h: string)
    requires IsHexDigest(h)
    ensures LoadHash(Some(h)) == Some(h)
  {
    assert !IsSpace(h[0]) && !IsSpace(h[|h| - 1]);
  }

  /** The message for a run that saved a new hash of `n` rows. */
  function NewDataMessage(n: nat): string
  {
    NEW_DATA_PREFIX + NatToString(n) + ROWS_SUFFIX
  }

  /**
   * The decision of lines 347-370 for a run that started at `ts`, whose
   * search succeeded iff `searchOk` and whose walk returned `data`, with the
   * hash file `record`: the result and the new hash file.
   */
  function Decide(searchOk: bool, data: seq<Record>, digest: seq<Record> -> string,
                  record: Option<string>, ts: string): (RunResult, Option<string>)
  {
    if !searchOk then (RunResult(false, SEARCH_FAILED, 0, false, ts), record)
    else if |data| == 0 then (RunResult(false, NO_DATA_FOUND, 0, false, ts), record)
    else if Some(digest(data)) == LoadHash(record) then
      (RunResult(true, DATA_UNCHANGED, |data|, false, ts), record)
    else
      (RunResult(true, NewDataMessage(|data|), |data|, true, ts), Some(digest(data)))
  }

  /** A failed search or an empty walk fails the run and leaves the hash file alone. */
  lemma FailureLeavesRecord(searchOk: bool, data: seq<Record>, digest: seq<Record> -> string,
                            record: Option<string>, ts: string)
    ensures var (r, record') := Decide(searchOk, data, digest, record, ts);
      && (r.success <==> searchOk && |data| > 0)
      && (!r.success ==> record' == record && !r.newData && r.rowCount == 0)
      && (searchOk && |data| == 0 ==> r.message == NO_DATA_FOUND)
      && (!searchOk ==> r.message == SEARCH_FAILED)
  {
  }

  /**
   * A successful run counts every row; it reports new data exactly when the
   * stored hash is absent or differs, and then (and only then) overwrites
   * the hash file with the current digest.
   */
  lemma SuccessOutcome(data: seq<Record>, digest: seq<Record> -> string, record: Option<string>, ts: string)
    requires |data| > 0
    ensures var (r, record') := Decide(true, data, digest, record, ts);
      && r.success && r.rowCount == |data| && r.timestamp == ts
      && (r.newData <==> LoadHash(record) != Some(digest(data)))
      && (r.newData ==> record' == Some(digest(data)) && r.message == NewDataMessage(|data|))
      && (!r.newData ==> record' == record && r.message == DATA_UNCHANGED)
      && (record.None? ==> r.newData)
  {
  }

  /** A repeat of a successful run on the same rows finds nothing new and changes nothing. */
  lemma RepeatRunUnchanged(data: seq<Record>, digest: seq<Record> -> string, record: Option<string>, ts1: string, ts2: string)
    requires |data| > 0 && IsHexDigest(digest(data))
    ensures var record1 := Decide(true, data, digest, record, ts1).1;
      var r2 := Decide(true, data, digest, record1, ts2);
      r2.0.success && !r2.0.newData && r2.1 == record1
  {
    StoredAfterRun(data, digest, record, ts1);
    SuccessOutcome(data, digest, Decide(true, data, digest, record, ts1).1, ts2);
  }

  /** After a successful run the hash file reads back as the digest of that run's rows. */
  lemma StoredAfterRun(data: seq<Record>, digest: seq<Record> -> string, record: Option<string>, ts: string)
    requires |data| > 0 && IsHexDigest(digest(data))
    ensures LoadHash(Decide(true, data, digest, record, ts).1) == Some(digest(data))
  {
    var h := digest(data);
    if LoadHash(record) != Some(h) {
      assert Decide(true, data, digest, record, ts).1 == Some(h);
      LoadAfterSave(h);
    }
  }

  /** The new-data message names the row count: distinct counts give distinct messages. */
  lemma NewDataMessageNamesCount(m: nat, n: nat)
    requires NewDataMessage(m) == NewDataMessage(n)
    ensures m == n
  {
    var a, b := NatToString(m), NatToString(n);
    var p := |NEW_DATA_PREFIX|;
    assert NewDataMessage(m) == NEW_DATA_PREFIX + (a + ROWS_SUFFIX);
    assert NewDataMessage(n) == NEW_DATA_PREFIX + (b + ROWS_SUFFIX);
    assert a + ROWS_SUFFIX == NewDataMessage(m)[p..] == NewDataMessage(n)[p..] == b + ROWS_SUFFIX;
    assert |a| == |b|;
    assert a == (a + ROWS_SUFFIX)[..|a|] == (b + ROWS_SUFFIX)[..|b|] == b;
    NatToStringInjective(m, n);
  }

  /**
   * A whole run, as written: the walk's `all_data` is hashed.  Those rows
   * are the ones the CSV sink stamped, so the hash covers each page's
   * `Timestamp`.
   */
  function Run(env: Env, file: Option<seq<Line>>, searchOk: bool, digest: seq<Record> -> string,
               record: Option<string>, ts: string): (RunResult, Option<string>)
  {
    var e := ScrapeAll(env, file, MAX_PAGES, TIMEOUT_MINUTES);
    Decide(searchOk, if searchOk then e.w.allData else [], digest, record, ts)
  }

  /**
   * A whole run as evidently intended: the hash is taken over the listings
   * as read off the pages, before they were stamped.
   */
  function RunOnListings(env: Env, file: Option<seq<Line>>, searchOk: bool, digest: seq<Record> -> string,
                         record: Option<string>, ts: string): (RunResult, Option<string>)
  {
    var e := ScrapeAll(env, file, MAX_PAGES, TIMEOUT_MINUTES);
    Decide(searchOk, if searchOk then Listings(e.w.scrapes, |e.w.scrapes|) else [], digest, record, ts)
  }

  /**
   * Hashing the listings changes only whether new data is reported: success,
   * message on failure and row count agree with the run as written.
   */
  lemma ListingsKeepOutcome(env: Env, file: Option<seq<Line>>, searchOk: bool, digest: seq<Record> -> string,
                            record: Option<string>, ts: string)
    ensures var (a, b) := (Run(env, file, searchOk, digest, record, ts).0, RunOnListings(env, file, searchOk, digest, record, ts).0);
      a.success == b.success && a.rowCount == b.rowCount && a.timestamp == b.timestamp
      && (!a.success ==> a == b)
  {
    var e := ScrapeAll(env, file, MAX_PAGES, TIMEOUT_MINUTES);
    Accumulation(env, file, MAX_PAGES, TIMEOUT_MINUTES);
    AllRowsAreStampedListings(env, e.w.scrapes, |e.w.scrapes|);
  }

  /** Two stampings of the same non-empty rows at different times differ. */
  lemma StampedSnapshotsDiffer(data: seq<Record>, ts1: string, ts2: string)
    requires |data| > 0 && ts1 != ts2
    ensures Stamp(data, ts1) != Stamp(data, ts2)
  {
    StampFacts(data, ts1);
    StampFacts(data, ts2);
    assert Get(Stamp(data, ts1)[0], TIMESTAMP_COLUMN) != Get(Stamp(data, ts2)[0], TIMESTAMP_COLUMN);
  }

  /** A site of one page that is read at the first attempt and has no "next" link. */
  predicate OnePageSite(env: Env, page: PageResult)
  {
    && |page.data| > 0 && Guard(env.attempt(0), MAX_RETRIES) == Guarded(page, 0)
    && !env.stop(0) && env.pager(0) == Pager(false, false, false)
  }

  /**
   * As written: two runs over the same unchanged one-page site, whose pages
   * were stamped at different times, hash different rows, and with a digest
   * that tells those rows apart the second run reports new data and
   * overwrites the hash file.
   */
  lemma RepeatRunReportsNewData(env1: Env, env2: Env, file1: Option<seq<Line>>, file2: Option<seq<Line>>,
                                page: PageResult, digest: seq<Record> -> string, record: Option<string>,
                                ts1: string, ts2: string)
    requires OnePageSite(env1, page) && OnePageSite(env2, page) && env1.stamp(0) != env2.stamp(0)
    requires IsHexDigest(digest(Stamp(page.data, env1.stamp(0))))
    requires digest(Stamp(page.data, env1.stamp(0))) != digest(Stamp(page.data, env2.stamp(0)))
    ensures ScrapeAll(env1, file1, MAX_PAGES, TIMEOUT_MINUTES).w.allData
         != ScrapeAll(env2, file2, MAX_PAGES, TIMEOUT_MINUTES).w.allData
    ensures var record1 := Run(env1, file1, true, digest, record, ts1).1;
      var r2 := Run(env2, file2, true, digest, record1, ts2);
      r2.0.newData && r2.1 == Some(digest(Stamp(page.data, env2.stamp(0))))
  {
    OnePageWalk(env1, file1, page);
    OnePageWalk(env2, file2, page);
    var d1, d2 := Stamp(page.data, env1.stamp(0)), Stamp(page.data, env2.stamp(0));
    StampedSnapshotsDiffer(page.data, env1.stamp(0), env2.stamp(0));
    var record1 := Run(env1, file1, true, digest, record, ts1).1;
    assert record1 == Decide(true, d1, digest, record, ts1).1;
    assert Run(env2, file2, true, digest, record1, ts2) == Decide(true, d2, digest, record1, ts2);
    ChangedRowsReportNewData(d1, d2, digest, record, ts1, ts2);
  }

  /** After a run on `d1`, a run on rows whose digest differs reports new data and stores the new digest. */
  lemma ChangedRowsReportNewData(d1: seq<Record>, d2: seq<Record>, digest: seq<Record> -> string,
                                 record: Option<string>, ts1: string, ts2: string)
    requires |d1| > 0 && |d2| > 0 && IsHexDigest(digest(d1)) && digest(d1) != digest(d2)
    ensures var record1 := Decide(true, d1, digest, record, ts1).1;
      var r2 := Decide(true, d2, digest, record1, ts2);
      r2.0.newData && r2.1 == Some(digest(d2))
  {
    StoredAfterRun(d1, digest, record, ts1);
    SuccessOutcome(d2, digest, Decide(true, d1, digest, record, ts1).1, ts2);
  }

  /**
   * As intended: two runs whose walks read the same listings find nothing
   * new the second time, whatever the stamps and the CSV files.
   */
  lemma RepeatListingsUnchanged(env1: Env, env2: Env, file1: Option<seq<Line>>, file2: Option<seq<Line>>,
                                digest: seq<Record> -> string, record: Option<string>, ts1: string, ts2: string)
    requires var (e1, e2) := (ScrapeAll(env1, file1, MAX_PAGES, TIMEOUT_MINUTES), ScrapeAll(env2, file2, MAX_PAGES, TIMEOUT_MINUTES));
      var rows := Listings(e1.w.scrapes, |e1.w.scrapes|);
      && rows == Listings(e2.w.scrapes, |e2.w.scrapes|) && |rows| > 0 && IsHexDigest(digest(rows))
    ensures var record1 := RunOnListings(env1, file1, true, digest, record, ts1).1;
      var r2 := RunOnListings(env2, file2, true, digest, record1, ts2);
      r2.0.success && !r2.0.newData && r2.1 == record1
  {
    var e1 := ScrapeAll(env1, file1, MAX_PAGES, TIMEOUT_MINUTES);
    RepeatRunUnchanged(Listings(e1.w.scrapes, |e1.w.scrapes|), digest, record, ts1, ts2);
  }

  /** The one-page site of `RepeatRunReportsNewData`, run as intended, reports nothing new. */
  lemma OnePageRepeatUnchanged(env1: Env, env2: Env, file1: Option<seq<Line>>, file2: Option<seq<Line>>,
                               page: PageResult, digest: seq<Record> -> string, record: Option<string>,
                               ts1: string, ts2: string)
    requires OnePageSite(env1, page) && OnePageSite(env2, page) && IsHexDigest(digest(page.data))
    ensures var record1 := RunOnListings(env1, file1, true, digest, record, ts1).1;
      !RunOnListings(env2, file2, true, digest, record1, ts2).0.newData
  {
    OnePageWalk(env1, file1, page);
    OnePageWalk(env2, file2, page);
    RepeatListingsUnchanged(env1, env2, file1, file2, digest, record, ts1, ts2);
  }

  /** The hash file. */
  class HashStore {
    var content: Option<string>

    constructor(initial: Option<string>)
      ensures content == initial
    {
      content := initial;
    }

    /**
     * Lines 57-63: nothing when the file is absent, otherwise its text with
     * the surrounding white space removed, so a digest stored by
     * `SaveDataHash` is read back as it was written.
     */
    method LoadDataHash() returns (h: Option<string>)
      ensures h.None? <==> content.None?
      ensures h.Some? ==> h.value == Strip(content.value)
      ensures content.Some? && IsHexDigest(content.value) ==> h == content
    {
      if content.None? {
        return None;
      }
      h := Some(Strip(content.value));
      if IsHexDigest(content.value) {
        LoadAfterSave(content.value);
      }
    }

    /** Lines 52-55: the file is replaced by the new hash. */
    method SaveDataHash(h: string)
      modifies this
      ensures content == Some(h)
    {
      content := Some(h);
    }
  }

  /**
   * Lines 322-370 after the login: the search (given as `searchOk`), the walk
   * over the CSV store `csv`, and the decision on the hash file `hashes`.
   */
  method RunScraper(csv: CsvStore, hashes: HashStore, env: Env, searchOk: bool,
                    digest: seq<Record> -> string, ts: string) returns (result: RunResult)
    modifies csv, hashes
    ensures csv.file == (if searchOk then ScrapeAll(env, old(csv.file), MAX_PAGES, TIMEOUT_MINUTES).w.file else old(csv.file))
    ensures (result, hashes.content) == Run(env, old(csv.file), searchOk, digest, old(hashes.content), ts)
  {
    result := RunResult(false, "", 0, false, ts);
    if !searchOk {
      result := result.(message := SEARCH_FAILED);
      return;
    }
    var data, headers := ScrapeAllPages(csv, env, MAX_PAGES, TIMEOUT_MINUTES);
    if |data| == 0 {
      result := result.(message := NO_DATA_FOUND);
      return;
    }
    var currentHash := digest(data);
    var previousHash := hashes.LoadDataHash();
    if Some(currentHash) == previousHash {
      result := result.(message := DATA_UNCHANGED, rowCount := |data|);
    } else {
      hashes.SaveDataHash(currentHash);
      result := result.(message := NewDataMessage(|data|), rowCount := |data|, newData := true);
    }
    result := result.(success := true);
  }
}
