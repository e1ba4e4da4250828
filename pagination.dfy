/**
 * The pagination walker (brightmls.py `scrape_all_pages`).  Each turn of the
 * loop checks the page limit, the timeout and the stop flag, scrapes the
 * current page through the stale-read guard, records and saves the rows,
 * then reads the pager: a stale pager or a stale click goes round again on
 * the same page, a click moves to the next page, anything else ends the walk.
 *
 * The browser, the clock and the stop signal are oracles indexed by the
 * number of the loop turn.  The clock is the elapsed whole seconds since the
 * walk began: the sleeps the loop performs (two seconds per guard backoff,
 * two per stale pager, five after a click) plus the other work of each turn.
 */
module Pagination {
  import opened Wrappers
  import opened Records
  import opened RowExtractor
  import opened StaleGuard
  import opened CsvSink

  /** What reading the pager gives after a page was saved. */
  datatype PagerOutcome =
    | PagerStale        // a stale element while finding the pager, its links or `is_enabled`
    | PagerError        // any other error, such as no pager at all
    | Pager(hasNext: bool, enabled: bool, clickStale: bool)

  /** Everything outside the loop, per loop turn. */
  datatype Env = Env(
    work: nat -> nat,              // seconds of turn i spent outside the sleeps
    stop: nat -> bool,             // the stop flag as seen at the top of turn i
    attempt: nat -> nat -> Attempt, // extraction attempt j of turn i
    stamp: nat -> string,          // `datetime.now()` formatted, in turn i
    access: nat -> Access,         // opening the CSV file in turn i
    pager: nat -> PagerOutcome)    // the pager in turn i

  /** Why the walk ended. */
  datatype Exit = PageLimit | TimedOut | Stopped | NoData | LastPage | PagerFailed

  const MAX_PAGES: nat := 200
  const TIMEOUT_MINUTES: nat := 30

  /** One page scraped: its number, the clock when its turn began, its rows and headers. */
  datatype Scrape = Scrape(page: nat, started: nat, data: seq<Record>, headers: seq<string>)

  /**
   * The walk's state.  `scrapes[i]` is the scrape of turn i: every turn that
   * goes round again has scraped a page, so turn numbers and scrapes agree.
   */
  datatype Walk = Walk(
    pageNum: nat,
    allData: seq<Record>,
    headers: Option<seq<string>>,
    file: Option<seq<Line>>,
    elapsed: nat,
    iter: nat,
    scrapes: seq<Scrape>)

  datatype Step = Continue(next: Walk) | Done(last: Walk, exit: Exit)

  datatype Ended = Ended(w: Walk, exit: Exit)

  /** 1 when the pager outcome is a successful click on an enabled "next" link. */
  function Advance(p: PagerOutcome): nat
  {
    if p.Pager? && p.hasNext && p.enabled && !p.clickStale then 1 else 0
  }

  /** One turn of the loop of lines 246-294. */
  function Turn(env: Env, maxPages: nat, limit: nat, w: Walk): (s: Step)
    ensures s.Continue? ==> w.elapsed <= limit && s.next.elapsed >= w.elapsed + 2
  {
    TurnWith(env, maxPages, limit, w, Guard(env.attempt(w.iter), MAX_RETRIES))
  }

  /** One turn of the loop when the guarded scrape of this turn gives `g`. */
  function TurnWith(env: Env, maxPages: nat, limit: nat, w: Walk, g: Guarded): (s: Step)
    ensures s.Continue? ==> w.elapsed <= limit && s.next.elapsed >= w.elapsed + 2
  {
    if w.pageNum > maxPages then Done(w, PageLimit)
    else if w.elapsed > limit then Done(w, TimedOut)
    else if env.stop(w.iter) then Done(w, Stopped)
    else
      var t := w.elapsed + env.work(w.iter) + 2 * g.backoffs;
      if |g.page.data| == 0 then Done(w.(elapsed := t), NoData)
      else
        var w1 := Scraped(env, w, g.page, t);
        match env.pager(w.iter)
        case PagerStale => Continue(w1.(elapsed := t + 2))
        case PagerError => Done(w1, PagerFailed)
        case Pager(hasNext, enabled, clickStale) =>
          if hasNext && enabled && w.pageNum < maxPages then
            if clickStale then Continue(w1.(elapsed := t + 2))
            else Continue(w1.(elapsed := t + 5, pageNum := w.pageNum + 1))
          else Done(w1, LastPage)
  }

  /**
   * The state after page `page` was scraped in the turn starting at `w`,
   * saved (lines 262-267) and appended to the rows, at clock `t`.
   */
  function Scraped(env: Env, w: Walk, page: PageResult, t: nat): Walk
  {
    var saved := SaveSpec(w.file, page.data, env.stamp(w.iter), env.access(w.iter));
    Walk(w.pageNum, w.allData + saved.stamped,
         if w.headers.None? then Some(page.headers) else w.headers,
         saved.file, t, w.iter + 1,
         w.scrapes + [Scrape(w.pageNum, w.elapsed, page.data, page.headers)])
  }

  /** The walk from state `w` to its end. */
  function WalkFrom(env: Env, maxPages: nat, limit: nat, w: Walk): Ended
    decreases if w.elapsed <= limit then limit + 1 - w.elapsed else 0
  {
    match Turn(env, maxPages, limit, w)
    case Done(last, exit) => Ended(last, exit)
    case Continue(next) => WalkFrom(env, maxPages, limit, next)
  }

  function Start(file: Option<seq<Line>>): Walk
  {
    Walk(1, [], None, file, 0, 0, [])
  }

  /** `scrape_all_pages(driver, wait, max_pages, timeout_minutes)` on the CSV store `file`. */
  function ScrapeAll(env: Env, file: Option<seq<Line>>, maxPages: nat, timeoutMinutes: nat): Ended
  {
    WalkFrom(env, maxPages, timeoutMinutes * 60, Start(file))
  }

  // ---- the walk's history as functions of the scrapes ----

  /** The stamped rows of the first `n` scrapes, in order. */
  function AllRows(env: Env, scrapes: seq<Scrape>, n: nat): seq<Record>
    requires n <= |scrapes|
  {
    if n == 0 then []
    else AllRows(env, scrapes, n - 1) + Stamp(scrapes[n - 1].data, env.stamp(n - 1))
  }

  /** The rows of the first `n` scrapes as they were read off the pages, before stamping. */
  function Listings(scrapes: seq<Scrape>, n: nat): seq<Record>
    requires n <= |scrapes|
  {
    if n == 0 then [] else Listings(scrapes, n - 1) + scrapes[n - 1].data
  }

  /** The CSV store after the first `n` scrapes were saved one after the other. */
  function SaveAll(env: Env, file: Option<seq<Line>>, scrapes: seq<Scrape>, n: nat): Option<seq<Line>>
    requires n <= |scrapes|
  {
    if n == 0 then file
    else SaveSpec(SaveAll(env, file, scrapes, n - 1), scrapes[n - 1].data, env.stamp(n - 1), env.access(n - 1)).file
  }

  /** Scrape `k` came from a non-empty guarded read in a turn that was neither stopped nor late. */
  predicate ScrapeOk(env: Env, maxPages: nat, limit: nat, k: nat, s: Scrape, pageNum: nat)
  {
    && |s.data| > 0
    && !env.stop(k)
    && s.started <= limit
    && 1 <= s.page <= pageNum
    && s.page <= maxPages
  }

  /** The page number stays within its bounds and there is one scrape per finished turn. */
  predicate Shape(maxPages: nat, w: Walk)
  {
    && 1 <= w.pageNum
    && (maxPages >= 1 ==> w.pageNum <= maxPages)
    && |w.scrapes| == w.iter
  }

  /** The rows, headers and CSV store are those the scrapes produced, in order. */
  predicate History(env: Env, file0: Option<seq<Line>>, w: Walk)
  {
    && w.allData == AllRows(env, w.scrapes, |w.scrapes|)
    && w.headers == (if |w.scrapes| == 0 then None else Some(w.scrapes[0].headers))
    && w.file == SaveAll(env, file0, w.scrapes, |w.scrapes|)
  }

  /** Every scrape is justified, and the page moves on between two scrapes only after a click. */
  predicate Scrapes(env: Env, maxPages: nat, limit: nat, scrapes: seq<Scrape>, pageNum: nat)
  {
    && (forall k | 0 <= k < |scrapes| :: ScrapeOk(env, maxPages, limit, k, scrapes[k], pageNum))
    && (forall k | 0 <= k < |scrapes| - 1 :: scrapes[k + 1].page == scrapes[k].page + Advance(env.pager(k)))
  }

  /** Scrape `k` holds the rows and headers the stale-read guard returned in turn `k`. */
  predicate ReadByGuard(env: Env, scrapes: seq<Scrape>)
  {
    forall k | 0 <= k < |scrapes| :: Guard(env.attempt(k), MAX_RETRIES).page == PageResult(scrapes[k].data, scrapes[k].headers)
  }

  /** What holds of every state of the walk, the last one included. */
  predicate Inv(env: Env, maxPages: nat, limit: nat, file0: Option<seq<Line>>, w: Walk)
  {
    && Shape(maxPages, w) && History(env, file0, w) && Scrapes(env, maxPages, limit, w.scrapes, w.pageNum)
    && ReadByGuard(env, w.scrapes)
  }

  /** What holds at the top of the loop: in addition, the page is the last one scraped or the one after it. */
  predicate TopInv(env: Env, maxPages: nat, limit: nat, file0: Option<seq<Line>>, w: Walk)
  {
    TopCore(env, maxPages, limit, file0, w) && ReadByGuard(env, w.scrapes)
  }

  /** `TopInv` without the link to the guard. */
  predicate TopCore(env: Env, maxPages: nat, limit: nat, file0: Option<seq<Line>>, w: Walk)
  {
    && Shape(maxPages, w) && History(env, file0, w) && Scrapes(env, maxPages, limit, w.scrapes, w.pageNum)
    && (|w.scrapes| > 0 ==> w.pageNum == w.scrapes[|w.scrapes| - 1].page + Advance(env.pager(|w.scrapes| - 1)))
  }

  lemma TurnKeepsInv(env: Env, maxPages: nat, limit: nat, file0: Option<seq<Line>>, w: Walk)
    requires TopInv(env, maxPages, limit, file0, w)
    ensures match Turn(env, maxPages, limit, w)
      case Continue(next) => TopInv(env, maxPages, limit, file0, next)
      case Done(last, _) => Inv(env, maxPages, limit, file0, last)
  {
    var g := Guard(env.attempt(w.iter), MAX_RETRIES);
    TurnWithKeepsInv(env, maxPages, limit, file0, w, g);
    AppendGuarded(env, w.scrapes, Scrape(w.pageNum, w.elapsed, g.page.data, g.page.headers));
  }

  lemma AppendGuarded(env: Env, scrapes: seq<Scrape>, s: Scrape)
    requires ReadByGuard(env, scrapes)
    requires Guard(env.attempt(|scrapes|), MAX_RETRIES).page == PageResult(s.data, s.headers)
    ensures ReadByGuard(env, scrapes + [s])
  {
    var ss := scrapes + [s];
    forall k | 0 <= k < |ss|
      ensures Guard(env.attempt(k), MAX_RETRIES).page == PageResult(ss[k].data, ss[k].headers)
    {
      if k < |scrapes| {
        assert ss[k] == scrapes[k];
      }
    }
  }

  /**
   * A turn keeps everything but the link to the guard, and a turn that
   * scrapes adds the scrape of `g`.
   */
  lemma TurnWithKeepsInv(env: Env, maxPages: nat, limit: nat, file0: Option<seq<Line>>, w: Walk, g: Guarded)
    requires TopCore(env, maxPages, limit, file0, w)
    ensures match TurnWith(env, maxPages, limit, w, g)
      case Continue(next) =>
        && TopCore(env, maxPages, limit, file0, next)
        && next.scrapes == w.scrapes + [Scrape(w.pageNum, w.elapsed, g.page.data, g.page.headers)]
      case Done(last, _) =>
        && Shape(maxPages, last) && History(env, file0, last) && Scrapes(env, maxPages, limit, last.scrapes, last.pageNum)
        && (last.scrapes == w.scrapes || last.scrapes == w.scrapes + [Scrape(w.pageNum, w.elapsed, g.page.data, g.page.headers)])
  {
    TurnShape(env, maxPages, limit, w, g);
    TurnHistory(env, maxPages, limit, file0, w, g);
    TurnScrapes(env, maxPages, limit, w, g);
  }

  lemma TurnShape(env: Env, maxPages: nat, limit: nat, w: Walk, g: Guarded)
    requires Shape(maxPages, w)
    ensures match TurnWith(env, maxPages, limit, w, g)
      case Continue(next) => Shape(maxPages, next)
      case Done(last, _) => Shape(maxPages, last)
  {
  }

  lemma TurnHistory(env: Env, maxPages: nat, limit: nat, file0: Option<seq<Line>>, w: Walk, g: Guarded)
    requires History(env, file0, w) && |w.scrapes| == w.iter
    ensures match TurnWith(env, maxPages, limit, w, g)
      case Continue(next) => History(env, file0, next)
      case Done(last, _) => History(env, file0, last)
  {
    var s := TurnWith(env, maxPages, limit, w, g);
    var w1 := Scraped(env, w, g.page, w.elapsed + env.work(w.iter) + 2 * g.backoffs);
    TurnResult(env, maxPages, limit, w, g);
    ScrapedHistory(env, file0, w, g.page, w1.elapsed);
    if s.Continue? {
      HistoryIgnoresClock(env, file0, w1, s.next.elapsed, s.next.pageNum);
    } else if s.last != w1 {
      HistoryIgnoresClock(env, file0, w, s.last.elapsed, w.pageNum);
    }
  }

  /** A turn ends in `w` with a new clock, or in the scrape of `g` with a new clock and page. */
  lemma TurnResult(env: Env, maxPages: nat, limit: nat, w: Walk, g: Guarded)
    ensures var s := TurnWith(env, maxPages, limit, w, g);
      var w1 := Scraped(env, w, g.page, w.elapsed + env.work(w.iter) + 2 * g.backoffs);
      && (s.Continue? ==> s.next == w1.(elapsed := s.next.elapsed, pageNum := s.next.pageNum))
      && (s.Done? ==> s.last == w1 || s.last == w.(elapsed := s.last.elapsed))
  {
  }

  lemma TurnScrapes(env: Env, maxPages: nat, limit: nat, w: Walk, g: Guarded)
    requires Shape(maxPages, w) && Scrapes(env, maxPages, limit, w.scrapes, w.pageNum)
    requires |w.scrapes| > 0 ==> w.pageNum == w.scrapes[|w.scrapes| - 1].page + Advance(env.pager(|w.scrapes| - 1))
    ensures var sc := Scrape(w.pageNum, w.elapsed, g.page.data, g.page.headers);
      match TurnWith(env, maxPages, limit, w, g)
      case Continue(next) =>
        && Scrapes(env, maxPages, limit, next.scrapes, next.pageNum)
        && next.scrapes == w.scrapes + [sc]
        && next.pageNum == w.pageNum + Advance(env.pager(|w.scrapes|))
      case Done(last, _) =>
        && Scrapes(env, maxPages, limit, last.scrapes, last.pageNum)
        && (last.scrapes == w.scrapes || last.scrapes == w.scrapes + [sc])
  {
    TurnFields(env, maxPages, limit, w, g);
    if w.pageNum <= maxPages && w.elapsed <= limit && !env.stop(w.iter) && |g.page.data| > 0 {
      var sc := Scrape(w.pageNum, w.elapsed, g.page.data, g.page.headers);
      AppendScrape(env, maxPages, limit, w.scrapes, sc, w.pageNum);
    }
  }

  /** How a turn changes the scrapes and the page number. */
  lemma TurnFields(env: Env, maxPages: nat, limit: nat, w: Walk, g: Guarded)
    ensures var s := TurnWith(env, maxPages, limit, w, g);
      var sc := Scrape(w.pageNum, w.elapsed, g.page.data, g.page.headers);
      var scraped := w.pageNum <= maxPages && w.elapsed <= limit && !env.stop(w.iter) && |g.page.data| > 0;
      && (s.Continue? ==>
            && scraped
            && s.next.scrapes == w.scrapes + [sc]
            && s.next.pageNum == w.pageNum + Advance(env.pager(w.iter))
            && (Advance(env.pager(w.iter)) == 1 ==> w.pageNum < maxPages))
      && (s.Done? ==>
            && s.last.pageNum == w.pageNum
            && (s.last.scrapes == w.scrapes || (scraped && s.last.scrapes == w.scrapes + [sc])))
  {
  }

  lemma HistoryIgnoresClock(env: Env, file0: Option<seq<Line>>, w: Walk, t: nat, p: nat)
    requires History(env, file0, w)
    ensures History(env, file0, w.(elapsed := t, pageNum := p))
  {
  }

  /** A scrape extends the history by its own rows, headers and save. */
  lemma ScrapedHistory(env: Env, file0: Option<seq<Line>>, w: Walk, page: PageResult, t: nat)
    requires History(env, file0, w) && |w.scrapes| == w.iter
    ensures History(env, file0, Scraped(env, w, page, t))
  {
    ScrapedRows(env, w, page, t);
    ScrapedFile(env, file0, w, page, t);
    ScrapedHeaders(env, w, page, t);
  }

  /** A scrape sets the headers when it is the first one and leaves them otherwise. */
  lemma ScrapedHeaders(env: Env, w: Walk, page: PageResult, t: nat)
    requires w.headers == (if |w.scrapes| == 0 then None else Some(w.scrapes[0].headers))
    ensures |Scraped(env, w, page, t).scrapes| == |w.scrapes| + 1
    ensures Scraped(env, w, page, t).headers == Some(Scraped(env, w, page, t).scrapes[0].headers)
  {
  }

  /** A scrape appends its stamped rows to `all_data`. */
  lemma ScrapedRows(env: Env, w: Walk, page: PageResult, t: nat)
    requires w.allData == AllRows(env, w.scrapes, |w.scrapes|) && |w.scrapes| == w.iter
    ensures Scraped(env, w, page, t).allData == AllRows(env, Scraped(env, w, page, t).scrapes, |w.scrapes| + 1)
  {
    assert Scraped(env, w, page, t).scrapes[..|w.scrapes|] == w.scrapes;
    AllRowsPrefix(env, Scraped(env, w, page, t).scrapes, w.scrapes, |w.scrapes|);
    if |page.data| == 0 {
      assert Stamp(page.data, env.stamp(w.iter)) == [];
    }
  }

  /** A scrape's save extends the store by one `SaveSpec` step. */
  lemma ScrapedFile(env: Env, file0: Option<seq<Line>>, w: Walk, page: PageResult, t: nat)
    requires w.file == SaveAll(env, file0, w.scrapes, |w.scrapes|) && |w.scrapes| == w.iter
    ensures Scraped(env, w, page, t).file == SaveAll(env, file0, Scraped(env, w, page, t).scrapes, |w.scrapes| + 1)
  {
    assert Scraped(env, w, page, t).scrapes[..|w.scrapes|] == w.scrapes;
    SaveAllPrefix(env, file0, Scraped(env, w, page, t).scrapes, w.scrapes, |w.scrapes|);
  }

  /** A justified scrape keeps every scrape justified, whether the page then stays or advances. */
  lemma AppendScrape(env: Env, maxPages: nat, limit: nat, scrapes: seq<Scrape>, s: Scrape, pageNum: nat)
    requires Scrapes(env, maxPages, limit, scrapes, pageNum)
    requires |scrapes| > 0 ==> pageNum == scrapes[|scrapes| - 1].page + Advance(env.pager(|scrapes| - 1))
    requires s.page == pageNum && ScrapeOk(env, maxPages, limit, |scrapes|, s, pageNum)
    ensures Scrapes(env, maxPages, limit, scrapes + [s], pageNum)
    ensures pageNum < maxPages ==> Scrapes(env, maxPages, limit, scrapes + [s], pageNum + 1)
  {
    var ss := scrapes + [s];
    forall k | 0 <= k < |ss|
      ensures ScrapeOk(env, maxPages, limit, k, ss[k], pageNum)
      ensures pageNum < maxPages ==> ScrapeOk(env, maxPages, limit, k, ss[k], pageNum + 1)
    {
      if k < |scrapes| {
        assert ss[k] == scrapes[k];
      }
    }
    forall k | 0 <= k < |ss| - 1
      ensures ss[k + 1].page == ss[k].page + Advance(env.pager(k))
    {
      if k + 1 < |scrapes| {
        assert ss[k + 1] == scrapes[k + 1] && ss[k] == scrapes[k];
      }
    }
  }

  /** Changing the scrapes past the first `n` does not change the rows of the first `n`. */
  lemma {:induction false} AllRowsPrefix(env: Env, a: seq<Scrape>, b: seq<Scrape>, n: nat)
    requires n <= |a| && n <= |b| && a[..n] == b[..n]
    ensures AllRows(env, a, n) == AllRows(env, b, n)
  {
    if n > 0 {
      assert a[n - 1] == a[..n][n - 1] == b[..n][n - 1] == b[n - 1];
      assert a[..n - 1] == a[..n][..n - 1];
      AllRowsPrefix(env, a, b, n - 1);
    }
  }

  lemma {:induction false} SaveAllPrefix(env: Env, file: Option<seq<Line>>, a: seq<Scrape>, b: seq<Scrape>, n: nat)
    requires n <= |a| && n <= |b| && a[..n] == b[..n]
    ensures SaveAll(env, file, a, n) == SaveAll(env, file, b, n)
  {
    if n > 0 {
      assert a[n - 1] == a[..n][n - 1] == b[..n][n - 1] == b[n - 1];
      assert a[..n - 1] == a[..n][..n - 1];
      SaveAllPrefix(env, file, a, b, n - 1);
    }
  }

  /** The invariant holds at the end of every walk from a loop-top state. */
  lemma {:induction false} WalkKeepsInv(env: Env, maxPages: nat, limit: nat, file0: Option<seq<Line>>, w: Walk)
    requires TopInv(env, maxPages, limit, file0, w)
    ensures Inv(env, maxPages, limit, file0, WalkFrom(env, maxPages, limit, w).w)
    decreases if w.elapsed <= limit then limit + 1 - w.elapsed else 0
  {
    TurnKeepsInv(env, maxPages, limit, file0, w);
    match Turn(env, maxPages, limit, w)
    case Done(_, _) =>
    case Continue(next) =>
      WalkKeepsInv(env, maxPages, limit, file0, next);
  }

  lemma ScrapeAllInv(env: Env, file: Option<seq<Line>>, maxPages: nat, timeoutMinutes: nat)
    ensures Inv(env, maxPages, timeoutMinutes * 60, file, ScrapeAll(env, file, maxPages, timeoutMinutes).w)
  {
    WalkKeepsInv(env, maxPages, timeoutMinutes * 60, file, Start(file));
  }

  // ---- what every walk guarantees ----

  /** The shape and scrape parts of the invariant at the end of a walk. */
  lemma WalkScrapes(env: Env, file: Option<seq<Line>>, maxPages: nat, timeoutMinutes: nat)
    ensures var e := ScrapeAll(env, file, maxPages, timeoutMinutes);
      Shape(maxPages, e.w) && Scrapes(env, maxPages, timeoutMinutes * 60, e.w.scrapes, e.w.pageNum)
  {
    ScrapeAllInv(env, file, maxPages, timeoutMinutes);
  }

  /** Lines 246 and 276 bound the page number; a walk never scrapes past `maxPages`. */
  lemma PageBounds(env: Env, file: Option<seq<Line>>, maxPages: nat, timeoutMinutes: nat)
    ensures var e := ScrapeAll(env, file, maxPages, timeoutMinutes);
      && 1 <= e.w.pageNum
      && (maxPages >= 1 ==> e.w.pageNum <= maxPages)
      && forall k | 0 <= k < |e.w.scrapes| :: 1 <= e.w.scrapes[k].page <= maxPages
  {
    ScrapeAllInv(env, file, maxPages, timeoutMinutes);
  }

  /** With `max_pages = 1` the "next" link is never clicked: every scrape is of page 1. */
  lemma OnePageNeverClicks(env: Env, file: Option<seq<Line>>, timeoutMinutes: nat)
    ensures var e := ScrapeAll(env, file, 1, timeoutMinutes);
      && e.w.pageNum == 1
      && forall k | 0 <= k < |e.w.scrapes| :: e.w.scrapes[k].page == 1
  {
    PageBounds(env, file, 1, timeoutMinutes);
  }

  /**
   * The stop flag and the timeout are checked before each scrape: no page is
   * scraped in a turn that saw the flag or began after the time limit.
   */
  lemma NoScrapeAfterStopOrTimeout(env: Env, file: Option<seq<Line>>, maxPages: nat, timeoutMinutes: nat, k: nat)
    requires env.stop(k)
    ensures var e := ScrapeAll(env, file, maxPages, timeoutMinutes);
      && |e.w.scrapes| <= k
      && forall j | 0 <= j < |e.w.scrapes| :: !env.stop(j) && e.w.scrapes[j].started <= timeoutMinutes * 60
  {
    var e := ScrapeAll(env, file, maxPages, timeoutMinutes);
    WalkScrapes(env, file, maxPages, timeoutMinutes);
    ScrapesBeforeStop(env, maxPages, timeoutMinutes * 60, e.w.scrapes, e.w.pageNum, k);
  }

  lemma ScrapesBeforeStop(env: Env, maxPages: nat, limit: nat, scrapes: seq<Scrape>, pageNum: nat, k: nat)
    requires Scrapes(env, maxPages, limit, scrapes, pageNum) && env.stop(k)
    ensures |scrapes| <= k
    ensures forall j | 0 <= j < |scrapes| :: !env.stop(j) && scrapes[j].started <= limit
  {
    forall j | 0 <= j < |scrapes| ensures !env.stop(j) && scrapes[j].started <= limit {
      assert ScrapeOk(env, maxPages, limit, j, scrapes[j], pageNum);
    }
  }

  /**
   * A stale pager, or a stale click, sends the walk round again on the same
   * page: the next scrape is of the same page number.  Otherwise the page
   * moves on by one, and only after a click.
   */
  lemma StalePagerRepeatsPage(env: Env, file: Option<seq<Line>>, maxPages: nat, timeoutMinutes: nat)
    ensures var e := ScrapeAll(env, file, maxPages, timeoutMinutes);
      forall k | 0 <= k < |e.w.scrapes| - 1 ::
        && (env.pager(k).PagerStale? || (env.pager(k).Pager? && env.pager(k).clickStale) ==>
             e.w.scrapes[k + 1].page == e.w.scrapes[k].page)
        && e.w.scrapes[k + 1].page <= e.w.scrapes[k].page + 1
  {
    ScrapeAllInv(env, file, maxPages, timeoutMinutes);
  }

  /** Every batch holds at least one row, so `n` batches hold at least `n` rows. */
  lemma {:induction false} AllRowsLength(env: Env, scrapes: seq<Scrape>, n: nat)
    requires n <= |scrapes|
    requires forall k | 0 <= k < n :: |scrapes[k].data| > 0
    ensures |AllRows(env, scrapes, n)| >= n
  {
    if n > 0 {
      AllRowsLength(env, scrapes, n - 1);
    }
  }

  /**
   * `all_data` is the stamped batches in scrape order, the store holds each
   * batch saved once in that order, and `headers` are the first page's,
   * `None` exactly when no row was collected.
   */
  lemma Accumulation(env: Env, file: Option<seq<Line>>, maxPages: nat, timeoutMinutes: nat)
    ensures var e := ScrapeAll(env, file, maxPages, timeoutMinutes);
      && e.w.allData == AllRows(env, e.w.scrapes, |e.w.scrapes|)
      && e.w.file == SaveAll(env, file, e.w.scrapes, |e.w.scrapes|)
      && (e.w.headers.None? <==> |e.w.scrapes| == 0)
      && (e.w.headers.None? <==> e.w.allData == [])
      && (e.w.headers.Some? ==> e.w.headers.value == e.w.scrapes[0].headers)
      && forall k | 0 <= k < |e.w.scrapes| ::
           Guard(env.attempt(k), MAX_RETRIES).page == PageResult(e.w.scrapes[k].data, e.w.scrapes[k].headers)
  {
    var e := ScrapeAll(env, file, maxPages, timeoutMinutes);
    ScrapeAllInv(env, file, maxPages, timeoutMinutes);
    AllRowsLength(env, e.w.scrapes, |e.w.scrapes|);
  }

  /**
   * The collected rows are the listings read off the pages, row for row,
   * differing only in the `Timestamp` column.
   */
  lemma {:induction false} AllRowsAreStampedListings(env: Env, scrapes: seq<Scrape>, n: nat)
    requires n <= |scrapes|
    ensures |AllRows(env, scrapes, n)| == |Listings(scrapes, n)|
    ensures forall i, key | 0 <= i < |Listings(scrapes, n)| && key != TIMESTAMP_COLUMN ::
      Get(AllRows(env, scrapes, n)[i], key) == Get(Listings(scrapes, n)[i], key)
  {
    if n > 0 {
      AllRowsAreStampedListings(env, scrapes, n - 1);
      var a, l := AllRows(env, scrapes, n - 1), Listings(scrapes, n - 1);
      var d := scrapes[n - 1].data;
      var st := Stamp(d, env.stamp(n - 1));
      StampFacts(d, env.stamp(n - 1));
      forall i, key | 0 <= i < |l| + |d| && key != TIMESTAMP_COLUMN
        ensures Get((a + st)[i], key) == Get((l + d)[i], key)
      {
        if i >= |l| {
          assert (a + st)[i] == st[i - |l|] && (l + d)[i] == d[i - |l|];
        } else {
          assert (a + st)[i] == a[i] && (l + d)[i] == l[i];
        }
      }
    }
  }

  /** The rows collected by the first `k` turns stay a prefix of those collected later. */
  lemma AllRowsGrow(env: Env, scrapes: seq<Scrape>, n: nat, k: nat)
    requires k <= n <= |scrapes|
    ensures AllRows(env, scrapes, k) <= AllRows(env, scrapes, n)
  {
    for m := k to n
      invariant AllRows(env, scrapes, k) <= AllRows(env, scrapes, m)
    {
      assert AllRows(env, scrapes, m + 1) == AllRows(env, scrapes, m) + Stamp(scrapes[m].data, env.stamp(m));
    }
  }

  /**
   * Row `j` of the page scraped in turn `k` sits in `all_data` right after
   * the rows of the earlier turns and carries turn `k`'s own `Timestamp`.
   */
  lemma AllRowsStampedByTurn(env: Env, scrapes: seq<Scrape>, n: nat, k: nat, j: nat)
    requires k < n <= |scrapes| && j < |scrapes[k].data|
    ensures |AllRows(env, scrapes, k)| + j < |AllRows(env, scrapes, n)|
    ensures Get(AllRows(env, scrapes, n)[|AllRows(env, scrapes, k)| + j], TIMESTAMP_COLUMN) == Some(env.stamp(k))
  {
    AllRowsGrow(env, scrapes, n, k + 1);
    assert AllRows(env, scrapes, k + 1) == AllRows(env, scrapes, k) + Stamp(scrapes[k].data, env.stamp(k));
    PrefixAt(AllRows(env, scrapes, k), Stamp(scrapes[k].data, env.stamp(k)), AllRows(env, scrapes, n), j);
    StampAt(scrapes[k].data, env.stamp(k), j);
  }

  /** An element of the second part of a prefix `a + c` of `b`, read in `b`. */
  lemma PrefixAt(a: seq<Record>, c: seq<Record>, b: seq<Record>, j: nat)
    requires a + c <= b && j < |c|
    ensures |a| + j < |b| && b[|a| + j] == c[j]
  {
    assert (a + c)[|a| + j] == c[j];
  }

  /** Row `j` of a stamped batch holds the batch's stamp. */
  lemma StampAt(data: seq<Record>, ts: string, j: nat)
    requires j < |data|
    ensures Get(Stamp(data, ts)[j], TIMESTAMP_COLUMN) == Some(ts)
  {
    assert Stamp(data, ts)[j] == Put(data[j], TIMESTAMP_COLUMN, ts);
  }

  /** Every collected row carries the `Timestamp` of one of the walk's turns. */
  lemma {:induction false} AllRowsStamped(env: Env, scrapes: seq<Scrape>, n: nat, i: nat)
    requires n <= |scrapes| && i < |AllRows(env, scrapes, n)|
    ensures exists k | 0 <= k < n :: Get(AllRows(env, scrapes, n)[i], TIMESTAMP_COLUMN) == Some(env.stamp(k))
  {
    var before := AllRows(env, scrapes, n - 1);
    if i < |before| {
      AllRowsStamped(env, scrapes, n - 1, i);
      var k :| 0 <= k < n - 1 && Get(before[i], TIMESTAMP_COLUMN) == Some(env.stamp(k));
      assert AllRows(env, scrapes, n)[i] == before[i];
    } else {
      assert AllRows(env, scrapes, n)[i] == Stamp(scrapes[n - 1].data, env.stamp(n - 1))[i - |before|];
    }
  }

  /** Saving batch after batch only appends to an existing store. */
  lemma {:induction false} SaveAllAppends(env: Env, file: Option<seq<Line>>, scrapes: seq<Scrape>, n: nat)
    requires n <= |scrapes|
    ensures file.Some? ==> SaveAll(env, file, scrapes, n).Some? && file.value <= SaveAll(env, file, scrapes, n).value
    ensures HeaderFirst(file) ==> HeaderFirst(SaveAll(env, file, scrapes, n))
  {
    if n > 0 {
      SaveAllAppends(env, file, scrapes, n - 1);
      var before := SaveAll(env, file, scrapes, n - 1);
      if HeaderFirst(file) {
        SavePreservesHeaderFirst(before, scrapes[n - 1].data, env.stamp(n - 1), env.access(n - 1));
      }
    }
  }

  /**
   * After a walk, every collected row carries a scrape's `Timestamp`; the
   * store only grew and still has its header, if any, on the first line.
   */
  lemma WalkStampsAndAppends(env: Env, file: Option<seq<Line>>, maxPages: nat, timeoutMinutes: nat)
    ensures var e := ScrapeAll(env, file, maxPages, timeoutMinutes);
      && (forall i | 0 <= i < |e.w.allData| ::
            exists k | 0 <= k < |e.w.scrapes| :: Get(e.w.allData[i], TIMESTAMP_COLUMN) == Some(env.stamp(k)))
      && (file.Some? ==> e.w.file.Some? && file.value <= e.w.file.value)
      && (HeaderFirst(file) ==> HeaderFirst(e.w.file))
  {
    var e := ScrapeAll(env, file, maxPages, timeoutMinutes);
    ScrapeAllInv(env, file, maxPages, timeoutMinutes);
    forall i | 0 <= i < |e.w.allData|
      ensures exists k | 0 <= k < |e.w.scrapes| :: Get(e.w.allData[i], TIMESTAMP_COLUMN) == Some(env.stamp(k))
    {
      AllRowsStamped(env, e.w.scrapes, |e.w.scrapes|, i);
    }
    SaveAllAppends(env, file, e.w.scrapes, |e.w.scrapes|);
  }

  /** Why a walk ended, read off the state it ended in. */
  predicate ExitJustified(env: Env, maxPages: nat, limit: nat, e: Ended)
  {
    match e.exit
    case PageLimit => e.w.pageNum > maxPages
    case TimedOut => e.w.elapsed > limit
    case Stopped => env.stop(e.w.iter)
    case NoData => |Guard(env.attempt(e.w.iter), MAX_RETRIES).page.data| == 0
    case PagerFailed => e.w.iter >= 1 && env.pager(e.w.iter - 1).PagerError?
    case LastPage =>
      && e.w.iter >= 1
      && env.pager(e.w.iter - 1).Pager?
      && !(env.pager(e.w.iter - 1).hasNext && env.pager(e.w.iter - 1).enabled && e.w.pageNum < maxPages)
  }

  lemma {:induction false} WalkExit(env: Env, maxPages: nat, limit: nat, w: Walk)
    ensures ExitJustified(env, maxPages, limit, WalkFrom(env, maxPages, limit, w))
    decreases if w.elapsed <= limit then limit + 1 - w.elapsed else 0
  {
    var s := Turn(env, maxPages, limit, w);
    if s.Continue? {
      WalkExit(env, maxPages, limit, s.next);
    }
  }

  /**
   * The walk ends at the page limit only when `max_pages` is 0; with a
   * positive limit it ends on the timeout, the stop flag, an empty page,
   * the last page or a pager error.
   */
  lemma PageLimitOnlyWhenNoPages(env: Env, file: Option<seq<Line>>, maxPages: nat, timeoutMinutes: nat)
    ensures ScrapeAll(env, file, maxPages, timeoutMinutes).exit == PageLimit <==> maxPages == 0
  {
    WalkExit(env, maxPages, timeoutMinutes * 60, Start(file));
    ScrapeAllInv(env, file, maxPages, timeoutMinutes);
  }

  /**
   * A stale pager after the first page makes the walk scrape, stamp and save
   * page 1 a second time: its rows end up twice in `all_data`, once per
   * timestamp.
   */
  lemma StalePagerSavesPageTwice(env: Env, file: Option<seq<Line>>, maxPages: nat, timeoutMinutes: nat, page: PageResult)
    requires maxPages >= 1 && timeoutMinutes >= 1 && |page.data| > 0
    requires Guard(env.attempt(0), MAX_RETRIES) == Guarded(page, 0)
    requires Guard(env.attempt(1), MAX_RETRIES) == Guarded(page, 0)
    requires !env.stop(0) && !env.stop(1) && env.work(0) == 0
    requires env.pager(0) == PagerStale && env.pager(1) == Pager(false, false, false)
    ensures var e := ScrapeAll(env, file, maxPages, timeoutMinutes);
      && e.exit == LastPage
      && |e.w.scrapes| == 2 && e.w.scrapes[0].page == 1 && e.w.scrapes[1].page == 1
      && e.w.allData == Stamp(page.data, env.stamp(0)) + Stamp(page.data, env.stamp(1))
      && e.w.file == SaveSpec(SaveSpec(file, page.data, env.stamp(0), env.access(0)).file,
                              page.data, env.stamp(1), env.access(1)).file
  {
    StaleThenLast(env, file, maxPages, timeoutMinutes, page);
    TwoScrapes(env, file, page, 2 + env.work(1));
  }

  /** The state after page 1 was scraped twice, first in turn 0 and then in turn 1. */
  lemma TwoScrapes(env: Env, file: Option<seq<Line>>, page: PageResult, t: nat)
    ensures var w2 := Scraped(env, Scraped(env, Start(file), page, 0).(elapsed := 2), page, t);
      && |w2.scrapes| == 2 && w2.scrapes[0].page == 1 && w2.scrapes[1].page == 1
      && w2.allData == Stamp(page.data, env.stamp(0)) + Stamp(page.data, env.stamp(1))
      && w2.file == SaveSpec(SaveSpec(file, page.data, env.stamp(0), env.access(0)).file,
                             page.data, env.stamp(1), env.access(1)).file
  {
    var w0 := Start(file);
    ScrapedParts(env, w0, page, 0);
    var w1 := Scraped(env, w0, page, 0).(elapsed := 2);
    assert w1.allData == Stamp(page.data, env.stamp(0));
    ScrapedParts(env, w1, page, t);
  }

  /** What one scrape adds to the walk: the stamped rows, the saved file and the scrape. */
  lemma ScrapedParts(env: Env, w: Walk, page: PageResult, t: nat)
    ensures var w' := Scraped(env, w, page, t);
      && w'.allData == w.allData + Stamp(page.data, env.stamp(w.iter))
      && w'.file == SaveSpec(w.file, page.data, env.stamp(w.iter), env.access(w.iter)).file
      && w'.scrapes == w.scrapes + [Scrape(w.pageNum, w.elapsed, page.data, page.headers)]
      && w'.iter == w.iter + 1
  {
    SaveOutcome(w.file, page.data, env.stamp(w.iter), env.access(w.iter));
  }

  /** The walk of `StalePagerSavesPageTwice` takes exactly two turns. */
  lemma StaleThenLast(env: Env, file: Option<seq<Line>>, maxPages: nat, timeoutMinutes: nat, page: PageResult)
    requires maxPages >= 1 && timeoutMinutes >= 1 && |page.data| > 0
    requires Guard(env.attempt(0), MAX_RETRIES) == Guarded(page, 0)
    requires Guard(env.attempt(1), MAX_RETRIES) == Guarded(page, 0)
    requires !env.stop(0) && !env.stop(1) && env.work(0) == 0
    requires env.pager(0) == PagerStale && env.pager(1) == Pager(false, false, false)
    ensures var w1 := Scraped(env, Start(file), page, 0).(elapsed := 2);
      ScrapeAll(env, file, maxPages, timeoutMinutes) == Ended(Scraped(env, w1, page, 2 + env.work(1)), LastPage)
  {
    var limit := timeoutMinutes * 60;
    StaleFirstTurn(env, file, maxPages, limit, page);
    LastSecondTurn(env, maxPages, limit, Scraped(env, Start(file), page, 0).(elapsed := 2), page);
  }

  /** The first turn scrapes page 1 and, the pager being stale, goes round again. */
  lemma StaleFirstTurn(env: Env, file: Option<seq<Line>>, maxPages: nat, limit: nat, page: PageResult)
    requires maxPages >= 1 && |page.data| > 0
    requires Guard(env.attempt(0), MAX_RETRIES) == Guarded(page, 0)
    requires !env.stop(0) && env.work(0) == 0 && env.pager(0) == PagerStale
    ensures WalkFrom(env, maxPages, limit, Start(file)) ==
      WalkFrom(env, maxPages, limit, Scraped(env, Start(file), page, 0).(elapsed := 2))
  {
    WalkFromTurn(env, maxPages, limit, Start(file), Guarded(page, 0));
  }

  /**
   * A site of one page: the first turn reads `page` at the first attempt, is
   * not stopped and finds no "next" link.  The walk scrapes that page once.
   */
  lemma OnePageWalk(env: Env, file: Option<seq<Line>>, page: PageResult)
    requires |page.data| > 0 && Guard(env.attempt(0), MAX_RETRIES) == Guarded(page, 0)
    requires !env.stop(0) && env.pager(0) == Pager(false, false, false)
    ensures var e := ScrapeAll(env, file, MAX_PAGES, TIMEOUT_MINUTES);
      && e.exit == LastPage
      && e.w.scrapes == [Scrape(1, 0, page.data, page.headers)]
      && e.w.allData == Stamp(page.data, env.stamp(0))
      && Listings(e.w.scrapes, 1) == page.data
  {
    LastSecondTurn(env, MAX_PAGES, TIMEOUT_MINUTES * 60, Start(file), page);
    ScrapedParts(env, Start(file), page, env.work(0));
    var scrapes := [Scrape(1, 0, page.data, page.headers)];
    assert Listings(scrapes, 1) == Listings(scrapes, 0) + page.data;
  }

  /** A turn that scrapes and then finds no "next" link ends the walk on the last page. */
  lemma LastSecondTurn(env: Env, maxPages: nat, limit: nat, w: Walk, page: PageResult)
    requires w.pageNum <= maxPages && w.elapsed <= limit && |page.data| > 0
    requires Guard(env.attempt(w.iter), MAX_RETRIES) == Guarded(page, 0)
    requires !env.stop(w.iter) && env.pager(w.iter) == Pager(false, false, false)
    ensures WalkFrom(env, maxPages, limit, w) ==
      Ended(Scraped(env, w, page, w.elapsed + env.work(w.iter)), LastPage)
  {
    WalkFromTurn(env, maxPages, limit, w, Guarded(page, 0));
  }

  // ---- the loop ----

  /** One unrolling of the walk, with the guard's result named. */
  lemma WalkFromTurn(env: Env, maxPages: nat, limit: nat, w: Walk, g: Guarded)
    requires g == Guard(env.attempt(w.iter), MAX_RETRIES)
    ensures var s := TurnWith(env, maxPages, limit, w, g);
      WalkFrom(env, maxPages, limit, w) ==
        if s.Done? then Ended(s.last, s.exit) else WalkFrom(env, maxPages, limit, s.next)
  {
  }

  /**
   * Lines 238-295 on the CSV store `store`: returns `all_data` and `headers`
   * and leaves in the store what the walk saved.
   */
  method ScrapeAllPages(store: CsvStore, env: Env, maxPages: nat, timeoutMinutes: nat)
    returns (allData: seq<Record>, headers: Option<seq<string>>)
    modifies store
    ensures var e := ScrapeAll(env, old(store.file), maxPages, timeoutMinutes);
      allData == e.w.allData && headers == e.w.headers && store.file == e.w.file
  {
    allData := [];
    headers := None;
    var pageNum := 1;
    var elapsed := 0;
    var limit := timeoutMinutes * 60;
    var iter := 0;
    ghost var scrapes: seq<Scrape> := [];
    ghost var goal := ScrapeAll(env, store.file, maxPages, timeoutMinutes);
    while pageNum <= maxPages
      invariant WalkFrom(env, maxPages, limit, Walk(pageNum, allData, headers, store.file, elapsed, iter, scrapes)) == goal
      decreases if elapsed <= limit then limit + 1 - elapsed else 0
    {
      ghost var w := Walk(pageNum, allData, headers, store.file, elapsed, iter, scrapes);
      if elapsed > limit {
        break;
      }
      if env.stop(iter) {
        break;
      }
      var page, backoffs := ScrapeData(env.attempt(iter), MAX_RETRIES);
      WalkFromTurn(env, maxPages, limit, w, Guarded(page, backoffs));
      var started := elapsed;
      elapsed := elapsed + env.work(iter) + 2 * backoffs;
      if |page.data| == 0 {
        break;
      }
      if headers.None? {
        headers := Some(page.headers);
      }
      var _, stamped := store.SaveDataToCsv(page.data, env.stamp(iter), env.access(iter));
      allData := allData + stamped;
      scrapes := scrapes + [Scrape(pageNum, started, page.data, page.headers)];
      ghost var w1 := Walk(pageNum, allData, headers, store.file, elapsed, iter + 1, scrapes);
      assert w1 == Scraped(env, w, page, elapsed);
      var pager := env.pager(iter);
      iter := iter + 1;
      ghost var turn := TurnWith(env, maxPages, limit, w, Guarded(page, backoffs));
      if pager.PagerStale? {
        elapsed := elapsed + 2;
        assert turn == Continue(w1.(elapsed := elapsed));
      } else if pager.PagerError? {
        break;
      } else if pager.hasNext && pager.enabled && pageNum < maxPages {
        if pager.clickStale {
          elapsed := elapsed + 2;
          assert turn == Continue(w1.(elapsed := elapsed));
        } else {
          elapsed := elapsed + 5;
          pageNum := pageNum + 1;
          assert turn == Continue(w1.(elapsed := elapsed, pageNum := pageNum));
        }
      } else {
        break;
      }
    }
  }
}
