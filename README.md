# brightmls scraper core, modelled in Dafny

This project models the logic of `brightmls.py`, a scraper that logs in to a
property-listing site, runs a search and walks the paginated results grid.
It turns every grid row into a record, with two synthetic price-change columns.
It appends each page's rows to a CSV file as soon as the page is read. At the
end of the run it fingerprints the collected rows to decide whether the
snapshot is new.

The browser, the HTML parser, the clock, the stop signal and the file system
become inputs. What the code does with them is modelled operation by
operation:

- `text.dfy` (module `Text`): Python's `str.strip()`, `sub in s` and `str(n)`.
- `records.dfy` (`Records`): the row dictionary. A Python `dict` remembers the
  insertion order of its keys, and that order becomes the CSV header, so a
  record is a key sequence plus a map.
- `row_extractor.dfy` (`RowExtractor`), the cell-to-row logic of `scrape_data`:
  - the price-change marker of a cell and of a row;
  - the blank-row filter;
  - the positional header zip with `Column_<i>` fallback names.
  It has methods that build rows the way the source's loops do, each proved
  equal to a specification function.
- `row_properties.dfy` (`RowProperties`): where the marker lands in a row
  dictionary, and worked examples.
- `stale_guard.dfy` (`StaleGuard`): the retry loop of `scrape_data`.
  - A stale element backs off and retries.
  - Any other failure gives an empty result.
  - Running out of attempts also gives an empty result.
- `csv_sink.dfy` (`CsvSink`): `save_data_to_csv` as the class `CsvStore`.
  - The file is `None` until it exists.
  - Rows are stamped before anything is written.
  - A header is written only for a new file.
  - `csv.DictWriter` rejects a row whose keys are not all columns. It does so
    after the earlier rows were written.
- `pagination.dfy` (`Pagination`): `scrape_all_pages` as a method with a
  `while` loop, proved equal to a walk function over loop turns. Each turn:
  - checks the page limit, the timeout and the stop flag;
  - scrapes through the guard;
  - stamps and saves the page;
  - reads the pager.
  A stale pager or a stale click goes round again and re-scrapes the same page.
- `change_detector.dfy` (`ChangeDetector`):
  - the hash file as the class `HashStore`;
  - the end-of-run decision;
  - `RunScraper`, the part of `run_brightmls_scraper` after the login.

Inputs replacing the environment, indexed by loop turn:
- `Env.work`: seconds a turn spends outside its sleeps;
- `Env.stop`: the stop flag seen at the top of a turn;
- `Env.attempt`: the outcome of each extraction attempt;
- `Env.stamp`: the formatted `datetime.now()`;
- `Env.access`: whether the CSV file opens;
- `Env.pager`: what reading the pager gives.

The clock is modelled as elapsed whole seconds, not as a yes/no timeout
signal. It counts the sleeps the loop performs plus `work`:
- 2 s per guard backoff;
- 2 s per stale pager or stale click;
- 5 s after a click.

The timeout test is `elapsed > timeout_minutes * 60`, as in line 248. Every
turn that goes round again sleeps at least two seconds, so the walk provably
ends without a fuel bound.

Some behaviours of the code are easy to misread. The model follows the code
as written:
- **Stale pager:** a stale pager `continue`s to the loop top, so the page is
  scraped, stamped and saved again. It is not a retry of the click alone.
  `Pagination.StalePagerSavesPageTwice` states the consequence.
- **Marker columns:** keying is purely positional, so the marker columns are
  not always present. A row two or more cells short of the headers carries
  its marker under the two base headers that follow its last cell. If those
  two headers are equal (two blank header cells, say), the title overwrites
  the type and the type is lost. A row exactly one cell short carries the
  marker's type under the last base header and its title under
  `PriceChangeType`, unless that base header is itself `PriceChangeType`.
  With no headers, every key is `Column_<i>`.
- **Header schema:** every page is keyed against its own headers. There is no
  run-wide schema taken from the first page. The walk only reports the first
  page's headers.
- **Turn count:** for `max_pages >= 1` the page number never exceeds
  `max_pages`, but a stale pager can make the number of loop turns exceed it.
  With `max_pages = 0` the page number starts at 1, already past the limit,
  and the walk stops before scraping anything.

## Model

| member | source | states |
|---|---|---|
| Text.Strip | brightmls.py:168 | `s.strip()` is the slice of `s` that remains once white space is cut from both ends: everything before it and everything after it is white space. It has no white space at either end. It is empty exactly when `s` is all white space. An already-trimmed string comes back unchanged. |
| Text.NatToStringInjective | brightmls.py:181 | Distinct numbers print differently, so the fallback names `Column_<i>` never collide. |
| Records.Put | brightmls.py:179-181 | `d[k] = v` keeps an existing key's position and adds a new key at the end. Afterwards `k` holds `v`. |
| Records.PutKeepsOthers | brightmls.py:179-181 | `d[k] = v` leaves the value under every other key as it was. |
| Records.PutValid | brightmls.py:179-181 | `d[k] = v` keeps a well-formed dict well-formed: distinct keys, and exactly the listed keys have values. |
| RowExtractor.CellMarkerMeaning | brightmls.py:150-159 | A cell has a marker iff its image `src` contains `pricedown` or `priceup`. `pricedown` is tested first. The title is `title`, else `data-original-title`, else "Price Decrease" or "Price Increase", and it is never empty. |
| RowExtractor.LastMarkerIsLastQualifying | brightmls.py:147-159 | When several cells qualify, the row's marker is the last qualifying cell's. |
| RowExtractor.LastMarkerAbsent | brightmls.py:162-167 | A row has no marker exactly when no cell qualifies. |
| RowExtractor.RowValuesShape | brightmls.py:144-167 | `row_data` has one value per cell, in order, followed by the marker's type and title, or two empty strings. |
| RowExtractor.KeptIsStripTest | brightmls.py:168 | A row is kept iff some value, marker slots included, is non-empty after `strip()`. |
| RowExtractor.BuildRow | brightmls.py:144-167 | The one-pass loop with an overwritten marker yields `#cells + 2` values: the cell texts, then the last marker's slots. |
| RowExtractor.CollectRows | brightmls.py:135-169 | The row loop returns exactly the kept rows, in document order. |
| RowExtractor.KeptRowsShape | brightmls.py:143-169 | No more rows than `<tr>`s. Every kept row has at least three values and is not blank. |
| RowExtractor.KeptRowsConcat | brightmls.py:135-169 | Rows are taken in document order: the rows of a concatenation are the concatenation of the rows. |
| RowExtractor.KeptRowsFrom | brightmls.py:143-169 | Every returned row is the row of some `<tr>`. |
| RowExtractor.KeptRowsInclude | brightmls.py:143-169 | Every `<tr>` whose row qualifies is returned. |
| RowExtractor.SkippedRowsIgnored | brightmls.py:136-143 | A `<tr>` that went stale, or one without cells, contributes nothing wherever it stands. |
| RowExtractor.RowDictKeys | brightmls.py:176-181 | A row dictionary has distinct keys, at most one per value. Each key is the header at some position or `Column_<i>`. |
| RowExtractor.RowDictValue | brightmls.py:177-181 | Position `i`'s value is stored under its key unless a later position has the same key. |
| RowExtractor.RowDictKeyOrder | brightmls.py:176-181 | When positions have distinct keys, the dictionary's keys are those keys in position order. |
| RowExtractor.ColumnKeysWithoutHeaders | brightmls.py:178-181 | With no headers, the keys are `Column_0 … Column_<n-1>` in order, each holding its value. |
| RowExtractor.ZipRow | brightmls.py:176-181 | The assignment loop builds the row dictionary of the zip function. |
| RowExtractor.ZipRows | brightmls.py:174-182 | One dictionary per kept row, in order. |
| RowExtractor.ExtractTable | brightmls.py:117-183 | A parsed table gives the zipped kept rows, and the headers with marker columns if any. It has no more rows than `<tr>`s. |
| RowExtractor.ExtractKeys | brightmls.py:171-182 | Every key of every extracted row is a header, a marker column or a `Column_<i>` name. |
| RowProperties.MarkerColumnsAt | brightmls.py:171-181 | With non-empty headers and a full-width row, the two values after the headers land under `PriceChangeType` and `PriceChangeTitle`. |
| RowProperties.MarkerUnderMarkerColumns | brightmls.py:162-181 | A row with as many cells as headers carries its marker under the marker columns. |
| RowProperties.MarkerUnderBaseHeaders | brightmls.py:162-181 | A row two or more cells shorter than the headers stores its marker under the two base headers that follow its last cell, provided those two headers differ. |
| RowProperties.MarkerUnderRepeatedHeader | brightmls.py:162-181 | When those two headers are equal, the title overwrites the type, so the row holds only the title under that header. |
| RowProperties.MarkerOneCellShort | brightmls.py:162-181 | A row exactly one cell short stores the marker's type under the last base header and its title under `PriceChangeType`, provided the last base header is not itself named `PriceChangeType`. |
| RowProperties.NoMarkerColumnsInShortRow | brightmls.py:177-181 | A row whose values, marker slots included, fit under the base headers has no marker column at all, provided no base header is named `PriceChangeType` or `PriceChangeTitle`. |
| RowProperties.PriceDownScenario | brightmls.py:143-182 | A one-cell row with a price-down icon and tooltip becomes the record `Price`, `PriceChangeType = down`, `PriceChangeTitle = <tooltip>`. |
| RowProperties.ThreeColumnRow | brightmls.py:176-181 | Three values under three distinct headers give exactly that three-key record. |
| RowProperties.BlankRowDropped | brightmls.py:168-169 | A row of blank cells without icons is dropped. |
| StaleGuard.ScrapeData | brightmls.py:103-192 | The retry loop returns the guard function's page and sleeps its number of backoffs. |
| StaleGuard.GuardBackoffs | brightmls.py:103-104 | At most `max_retries` backoffs, each after a stale attempt. |
| StaleGuard.GuardSettles | brightmls.py:183-190 | The first attempt that is not stale decides: a parsed table gives its extraction, any other failure gives `([], [])`. |
| StaleGuard.GuardExhausted | brightmls.py:191-192 | When every attempt is stale the result is `([], [])`, after `max_retries` backoffs. |
| StaleGuard.StaleTwiceThenParsed | brightmls.py:184-187 | Stale, stale, then parsed gives the parsed result after two backoffs. |
| CsvSink.StampFacts | brightmls.py:82-83 | Every stamped row has `Timestamp = ts` and keeps every other value. The column is added last if it was new. |
| CsvSink.StampRows | brightmls.py:82-83 | The stamping loop yields the stamped rows. |
| CsvSink.RowLineKeepsValues | brightmls.py:88-91 | For a row `DictWriter` accepts, every key's value is written in that key's column, so nothing is lost. Every column the row has no key for is written as `""`. |
| CsvSink.FitCount | brightmls.py:91 | `writerows` writes the rows before the first row with a key outside the columns, and stops at that row. |
| CsvSink.CsvStore.WriteRows | brightmls.py:91 | The write loop appends the lines of exactly those rows. |
| CsvSink.CsvStore.SaveDataToCsv | brightmls.py:77-99 | The method leaves the file and returns the flag and stamped rows that the save specification gives. |
| CsvSink.SaveOutcome | brightmls.py:79-99 | Empty data returns False and changes nothing. Otherwise every row is stamped. The save succeeds iff the file opens and all rows fit the first row's keys. A failed open leaves the file unchanged. An existing file is only appended to. |
| CsvSink.SaveHeader | brightmls.py:85-90 | A header is written iff the file was absent and a non-empty batch could be opened. It names the first stamped row's keys. Lines appended to an existing file are data lines. |
| CsvSink.SavePreservesHeaderFirst | brightmls.py:85-90 | If the only header was on the first line before a save, that still holds after it. |
| CsvSink.SaveAppendsRows | brightmls.py:87-91 | The appended lines are the fitting rows, in order, after the previous contents and any new header. |
| CsvSink.HeaderEndsWithTimestamp | brightmls.py:82-90 | When the first row has no `Timestamp` key, a new file's header is that row's keys followed by `Timestamp`. |
| CsvSink.WrittenLinesCarryTimestamp | brightmls.py:82-91 | Every written data line holds the batch timestamp in the `Timestamp` column. |
| CsvSink.LongerSecondRowRejected | brightmls.py:88-99 | A second row with a column the first lacks stops the write after the first row and returns False, unless that column is `Timestamp`, which stamping adds to the first row too. |
| Pagination.Turn | brightmls.py:246-294 | A turn that goes round again started within the time limit and advances the clock by at least two seconds, which bounds the walk. |
| Pagination.TurnKeepsInv | brightmls.py:246-294 | One turn keeps the loop invariant: page bounds, the history of rows, headers and store, and justified scrapes. |
| Pagination.WalkKeepsInv | brightmls.py:246-295 | The invariant holds when the walk ends. |
| Pagination.PageBounds | brightmls.py:246-284 | `1 <= page_num <= max_pages` for a positive limit, and every scraped page lies in that range. |
| Pagination.OnePageNeverClicks | brightmls.py:276 | With `max_pages = 1` the next link is never followed. |
| Pagination.NoScrapeAfterStopOrTimeout | brightmls.py:247-255 | No page is scraped in or after a turn that saw the stop flag, or in a turn that began past the time limit. |
| Pagination.StalePagerRepeatsPage | brightmls.py:276-291 | After a stale pager or a stale click, the next scrape is of the same page. Otherwise the page moves on by at most one. |
| Pagination.AllRowsLength | brightmls.py:259-264 | Non-empty batches give at least one row per scrape. |
| Pagination.Accumulation | brightmls.py:259-267 | `all_data` is the stamped batches in scrape order. The store saw each batch once, in order. `headers` are the first page's, even when empty, and `None` iff nothing was collected. Each batch is what the guard returned. |
| Pagination.AllRowsAreStampedListings | brightmls.py:264-267 | `all_data` matches the rows read off the pages, row for row, except in `Timestamp`. |
| Pagination.AllRowsStamped | brightmls.py:264-267 | Every collected row carries the timestamp of one of the walk's turns. |
| Pagination.AllRowsStampedByTurn | brightmls.py:264-267 | Row `j` of the page scraped in turn `k` sits in `all_data` right after the earlier turns' rows and carries turn `k`'s own timestamp, the one its save stamped it with. |
| Pagination.AllRowsGrow | brightmls.py:264 | `all_data` only grows: the rows of the first `k` turns stay its prefix. |
| Pagination.SaveAllAppends | brightmls.py:267 | Saving batch after batch only appends, and keeps the header on the first line. |
| Pagination.WalkStampsAndAppends | brightmls.py:262-267 | After a walk every row carries a scrape's timestamp, and the store only grew. |
| Pagination.WalkExit | brightmls.py:246-294 | Each exit is justified by the state it ended in: page limit, timeout, stop flag, empty page, no usable next link, or pager error. |
| Pagination.PageLimitOnlyWhenNoPages | brightmls.py:246 | The walk ends on the page limit iff `max_pages` is 0. |
| Pagination.StalePagerSavesPageTwice | brightmls.py:279-291 | A stale pager after page 1, then no next link: page 1 is scraped, stamped and saved twice, and its rows appear twice in `all_data`. |
| Pagination.OnePageWalk | brightmls.py:246-287 | A one-page site is scraped once, and the walk ends on the last page. |
| Pagination.ScrapeAllPages | brightmls.py:238-295 | The loop returns the walk's `all_data` and `headers`, and leaves its file in the store. |
| ChangeDetector.LoadAfterSave | brightmls.py:52-63 | A hex digest saved to the hash file reads back unchanged. |
| ChangeDetector.HashStore.LoadDataHash | brightmls.py:52-63 | Reading gives `None` exactly when the file is absent, otherwise the file text with its surrounding white space removed. A hex digest stored by `save_data_hash` is read back unchanged. |
| ChangeDetector.HashStore.SaveDataHash | brightmls.py:52-55 | The file is replaced by the new hash. |
| ChangeDetector.FailureLeavesRecord | brightmls.py:347-354 | Success iff the search worked and rows were found. A failed search or empty data gives the matching message, `row_count = 0` and `new_data = false`, and leaves the hash file alone. |
| ChangeDetector.SuccessOutcome | brightmls.py:355-369 | A successful run reports `row_count = len(data)`. New data is reported iff the stored hash is absent or different, and only then is the file overwritten with the current hash. |
| ChangeDetector.RepeatRunUnchanged | brightmls.py:355-369 | Repeating a successful decision on the same rows reports no new data and changes nothing. |
| ChangeDetector.NewDataMessageNamesCount | brightmls.py:366 | The new-data message determines the row count. |
| ChangeDetector.RunScraper | brightmls.py:322-370 | The run leaves the CSV store as the walk did, when the search worked. Its result and hash file are those of the run specification. |
| ChangeDetector.ListingsKeepOutcome | brightmls.py:351-369 | Fingerprinting the rows as read, rather than as stamped, changes only `new_data` and the message. |
| ChangeDetector.StampedSnapshotsDiffer | brightmls.py:82-83 | The same rows stamped at two different times are different snapshots. |
| ChangeDetector.RepeatRunReportsNewData | brightmls.py:351-358 | As written: two runs over the same unchanged one-page site at different times hash different rows. The second run reports new data. |
| ChangeDetector.RepeatListingsUnchanged | brightmls.py:351-358 | Hashing the listings as read: two runs that read the same listings report no new data the second time. |
| ChangeDetector.OnePageRepeatUnchanged | brightmls.py:351-358 | Hashing the listings as read, the one-page example above reports no new data. |

## Findings

| source | as written | input that shows it | evidently intended | confidence | as-written member | corrected member |
|---|---|---|---|---|---|---|
| brightmls.py:82-83, 264, 356 | `save_data_to_csv` writes `Timestamp` into the dictionaries that `all_data` also holds. `get_data_hash(data)` therefore hashes each page's save time, so the "data unchanged" branch is only reached when two runs save every page within the same second. | One results page with unchanged listings, scraped by two runs whose saves fall in different seconds: the second run reports "New data saved". | Fingerprint the listings as read off the pages, before stamping. | not executed; high | ChangeDetector.RepeatRunReportsNewData | ChangeDetector.RepeatListingsUnchanged |

`RunScraper` keeps the code as written (`ChangeDetector.Run`). The corrected
decision is `ChangeDetector.RunOnListings`, which hashes `Pagination.Listings`,
the rows as scraped. `ChangeDetector.ListingsKeepOutcome` shows that the
correction changes nothing but the new-data verdict.

## Left out

- Chrome driver setup and the login sequence (brightmls.py:297-343): browser configuration and external I/O. No credentials appear in the model.
- `perform_search`, `scroll_to_element` and `safe_click` (brightmls.py:194-236): UI automation. The search outcome is the input `searchOk` of `RunScraper`.
- Locating the table by XPath or tag, and BeautifulSoup parsing (brightmls.py:105-142): the extractor is given the header texts and, per body `<tr>`, its cells or the fact that reading it went stale. The span-or-`th` choice of a header text is part of that input.
- The order in which the two table lookups in an attempt happen: any failure other than a stale element is the single outcome `Failed`.
- `time.sleep` and `time.time()`: modelled as whole seconds on an elapsed clock, with the other work of a turn as an input. Sub-second timing is not modelled.
- The signal handler and the global `scraper_should_stop` (brightmls.py:22-33): the flag is a per-turn input.
- MD5 in `get_data_hash` (brightmls.py:47-50): the digest is any deterministic function passed as a parameter. Where a lemma needs it, the digest is assumed to be 32 lower-case hex digits.
- `str(data)` formatting, and CSV quoting and encoding by the `csv` module: a file is a sequence of header and data lines of field texts.
- `load_existing_data` (brightmls.py:65-75): unused by the run.
- Printed messages, `driver.quit()`, and the interrupt, system-exit and fatal-error branches of `run_brightmls_scraper` (brightmls.py:371-384).
- `main.py` (HTTP endpoints and the chat call): no logic of its own in the scraper.
- Aliasing: the row dictionaries are values. The in-place stamping that makes `all_data` hold stamped rows is modelled by appending the stamped rows returned by the save, which gives the same contents.
- Write errors after the file opened, other than a row that does not fit the columns (a full disk, say): the open either succeeds or fails, and the row-fit check is the only failure while writing.
