/**
 * The Stale-Read Guard (brightmls.py `scrape_data`, its retry loop): up to
 * `max_retries` extraction attempts.  An attempt that hits a stale element
 * sleeps two seconds and tries again; any other failure gives up at once
 * with an empty result; running out of attempts also gives an empty result.
 * What happens inside an attempt is given per attempt by an oracle.
 */
module StaleGuard {
  import opened RowExtractor

  /** How one extraction attempt ends. */
  datatype Attempt =
    | StaleDom          // StaleElementReferenceException escaped the attempt
    | Failed            // any other exception, such as no table at all
    | Parsed(table: Table)

  /** The default of `max_retries`. */
  const MAX_RETRIES: nat := 3

  /** The result of the guard and the number of two-second backoffs it slept. */
  datatype Guarded = Guarded(page: PageResult, backoffs: nat)

  const NOTHING := PageResult([], [])

  /** The guard from attempt number `attempt` on. */
  function GuardFrom(outcome: nat -> Attempt, maxRetries: nat, attempt: nat): Guarded
    decreases maxRetries - attempt
  {
    if attempt >= maxRetries then Guarded(NOTHING, attempt)
    else
      match outcome(attempt)
      case StaleDom => GuardFrom(outcome, maxRetries, attempt + 1)
      case Failed => Guarded(NOTHING, attempt)
      case Parsed(t) => Guarded(Extract(t), attempt)
  }

  /** `scrape_data(driver, wait, max_retries)` when attempt `k` ends as `outcome(k)`. */
  function Guard(outcome: nat -> Attempt, maxRetries: nat): Guarded
  {
    GuardFrom(outcome, maxRetries, 0)
  }

  /** Lines 103-192: the retry loop, returning the page and the backoffs slept. */
  method ScrapeData(outcome: nat -> Attempt, maxRetries: nat) returns (page: PageResult, backoffs: nat)
    ensures Guarded(page, backoffs) == Guard(outcome, maxRetries)
  {
    backoffs := 0;
    for attempt := 0 to maxRetries
      invariant backoffs == attempt
      invariant GuardFrom(outcome, maxRetries, attempt) == Guard(outcome, maxRetries)
    {
      match outcome(attempt) {
        case StaleDom =>
          backoffs := backoffs + 1;
        case Failed =>
          return NOTHING, backoffs;
        case Parsed(t) =>
          page := ExtractTable(t);
          return;
      }
    }
    page := NOTHING;
  }

  /** Every backoff was caused by a stale attempt, and there are at most `maxRetries`. */
  lemma {:induction false} GuardFromBackoffs(outcome: nat -> Attempt, maxRetries: nat, attempt: nat)
    requires attempt <= maxRetries
    ensures attempt <= GuardFrom(outcome, maxRetries, attempt).backoffs <= maxRetries
    ensures forall k | attempt <= k < GuardFrom(outcome, maxRetries, attempt).backoffs :: outcome(k) == StaleDom
    decreases maxRetries - attempt
  {
    if attempt < maxRetries && outcome(attempt) == StaleDom {
      GuardFromBackoffs(outcome, maxRetries, attempt + 1);
    }
  }

  /** At most `maxRetries` attempts, and every backoff follows a stale attempt. */
  lemma GuardBackoffs(outcome: nat -> Attempt, maxRetries: nat)
    ensures Guard(outcome, maxRetries).backoffs <= maxRetries
    ensures forall k | 0 <= k < Guard(outcome, maxRetries).backoffs :: outcome(k) == StaleDom
  {
    GuardFromBackoffs(outcome, maxRetries, 0);
  }

  /**
   * The first attempt that is not stale decides: a parsed table gives its
   * extraction, any other failure gives the empty result.
   */
  lemma {:induction false} GuardSettles(outcome: nat -> Attempt, maxRetries: nat, j: nat)
    requires j < maxRetries && outcome(j) != StaleDom
    requires forall k | 0 <= k < j :: outcome(k) == StaleDom
    ensures Guard(outcome, maxRetries) ==
      Guarded(if outcome(j).Parsed? then Extract(outcome(j).table) else NOTHING, j)
  {
    StalePrefix(outcome, maxRetries, j);
    SettleAt(outcome, maxRetries, j);
  }

  /** After `j` stale attempts the guard is where attempt `j` leaves it. */
  lemma {:induction false} StalePrefix(outcome: nat -> Attempt, maxRetries: nat, j: nat)
    requires j <= maxRetries
    requires forall k | 0 <= k < j :: outcome(k) == StaleDom
    ensures Guard(outcome, maxRetries) == GuardFrom(outcome, maxRetries, j)
  {
    var a := j;
    while a > 0
      invariant 0 <= a <= j
      invariant GuardFrom(outcome, maxRetries, a) == GuardFrom(outcome, maxRetries, j)
    {
      a := a - 1;
      StaleStep(outcome, maxRetries, a);
    }
  }

  /** A stale attempt hands over to the next one. */
  lemma StaleStep(outcome: nat -> Attempt, maxRetries: nat, a: nat)
    requires a < maxRetries && outcome(a) == StaleDom
    ensures GuardFrom(outcome, maxRetries, a) == GuardFrom(outcome, maxRetries, a + 1)
  {
  }

  /** An attempt that is not stale ends the guard there. */
  lemma SettleAt(outcome: nat -> Attempt, maxRetries: nat, j: nat)
    requires j < maxRetries && outcome(j) != StaleDom
    ensures GuardFrom(outcome, maxRetries, j) ==
      Guarded(if outcome(j).Parsed? then Extract(outcome(j).table) else NOTHING, j)
  {
  }

  /** When every attempt is stale the guard gives up empty after `maxRetries` backoffs. */
  lemma GuardExhausted(outcome: nat -> Attempt, maxRetries: nat)
    requires forall k | 0 <= k < maxRetries :: outcome(k) == StaleDom
    ensures Guard(outcome, maxRetries) == Guarded(NOTHING, maxRetries)
  {
    var a := maxRetries;
    while a > 0
      invariant 0 <= a <= maxRetries
      invariant GuardFrom(outcome, maxRetries, a) == Guarded(NOTHING, maxRetries)
    {
      a := a - 1;
    }
  }

  /** Stale, stale, then a parsed table: its extraction, after two backoffs. */
  lemma StaleTwiceThenParsed(outcome: nat -> Attempt, t: Table)
    requires outcome(0) == StaleDom && outcome(1) == StaleDom && outcome(2) == Parsed(t)
    ensures Guard(outcome, MAX_RETRIES) == Guarded(Extract(t), 2)
  {
    GuardSettles(outcome, MAX_RETRIES, 2);
  }
}
