/**
 * Progress and bookkeeping of the queue runner over whole runs: limits,
 * termination, totals, and rows that are never imported twice.
 */
module QueueProgress {
  import opened Common
  import opened RateBudget
  import opened QueueRunner
  import opened QueueRuns

  function ThrottledIn(log: seq<Import>): nat {
    if log == [] then 0
    else ThrottledIn(log[..|log| - 1]) + if log[|log| - 1].stats.throttled then 1 else 0
  }

  function CompletedIn(log: seq<Import>): nat {
    if log == [] then 0
    else CompletedIn(log[..|log| - 1]) + if log[|log| - 1].stats.throttled then 0 else 1
  }

  /** Throttled imports that reported no request at all; their 420 is recorded nevertheless. */
  function Silent420(log: seq<Import>): nat {
    if log == [] then 0
    else
      var st := log[|log| - 1].stats;
      Silent420(log[..|log| - 1]) + if st.throttled && st.requests == 0 then 1 else 0
  }

  lemma {:induction false} EveryImportIsOneOrTheOther(log: seq<Import>)
    ensures ThrottledIn(log) + CompletedIn(log) == |log|
  {
    if log != [] {
      EveryImportIsOneOrTheOther(log[..|log| - 1]);
    }
  }

  // ----- Limits -----

  function AtLeastOne(limit: int): int { if limit > 1 then limit else 1 }

  ghost predicate Control(cfg: Config, s: State) {
    && s.processed == |s.log|
    && (!cfg.watch ==>
          && (forall i :: 0 <= i < |s.log| - 1 ==> !s.log[i].stats.throttled)
          && (!s.stopped && s.log != [] ==> !s.log[|s.log| - 1].stats.throttled))
    && (cfg.limit.Some? ==>
          && CompletedIn(s.log) <= AtLeastOne(cfg.limit.value)
          && (!s.stopped ==> CompletedIn(s.log) == 0 || CompletedIn(s.log) < cfg.limit.value)
          && (!cfg.watch ==> |s.log| <= AtLeastOne(cfg.limit.value))
          && (!cfg.watch && !s.stopped ==> s.log == [] || |s.log| < cfg.limit.value))
  }

  /** The shape of a round: an import is appended, or the log stays and only waiting goes on. */
  lemma StepShape(cfg: Config, s: State, r: Round)
    ensures var s' := Step(cfg, s, r);
            || (&& s'.log == s.log && s'.processed == s.processed && (s'.stopped || cfg.watch))
            || (&& s'.processed == s.processed + 1
                && |s'.log| == |s.log| + 1 && s'.log[..|s.log|] == s.log
                && var st := s'.log[|s.log|].stats;
                   s'.stopped == if st.throttled then !cfg.watch else LimitHit(cfg, s.processed + 1))
  {
  }

  lemma StepControl(cfg: Config, s: State, r: Round)
    requires Control(cfg, s) && !s.stopped
    ensures Control(cfg, Step(cfg, s, r))
  {
    StepShape(cfg, s, r);
    var s' := Step(cfg, s, r);
    EveryImportIsOneOrTheOther(s.log);
    EveryImportIsOneOrTheOther(s'.log);
    if s'.log != s.log {
      assert s'.log[..|s'.log| - 1] == s.log;
      forall i | 0 <= i < |s.log|
        ensures s'.log[i] == s.log[i]
      {
        assert s'.log[..|s.log|][i] == s.log[i];
      }
    }
  }

  lemma {:induction false} RunControl(cfg: Config, s: State, tape: seq<Round>)
    requires Control(cfg, s)
    ensures Control(cfg, Run(cfg, s, tape))
    decreases |tape|
  {
    if tape != [] && !s.stopped {
      StepControl(cfg, s, tape[0]);
      RunControl(cfg, Step(cfg, s, tape[0]), tape[1..]);
    }
  }

  /**
   * Without watching, a run meets at most one 420 and it is the last import; with
   * a limit it imports at most that many volumes (at least one is tried). While
   * watching, the limit bounds the imports that were not throttled.
   */
  lemma LimitsAndLast420(cfg: Config, rows: seq<QueueRow>, ledger: Ledger, tape: seq<Round>)
    ensures var s := Run(cfg, Start(rows, ledger), tape);
            && s.processed == |s.log|
            && (!cfg.watch ==> forall i :: 0 <= i < |s.log| - 1 ==> !s.log[i].stats.throttled)
            && (cfg.limit.Some? ==> CompletedIn(s.log) <= AtLeastOne(cfg.limit.value))
            && (cfg.limit.Some? && !cfg.watch ==> |s.log| <= AtLeastOne(cfg.limit.value))
  {
    RunControl(cfg, Start(rows, ledger), tape);
  }

  /** From the import that reaches the limit on, all that do not end the run were throttled. */
  ghost predicate ThrottledBeyondLimit(cfg: Config, s: State) {
    && s.processed == |s.log|
    && (cfg.limit.Some? ==>
          forall i :: 0 <= i < |s.log| && i + 1 >= cfg.limit.value && (i < |s.log| - 1 || !s.stopped)
                      ==> s.log[i].stats.throttled)
  }

  lemma StepThrottledBeyondLimit(cfg: Config, s: State, r: Round)
    requires ThrottledBeyondLimit(cfg, s) && !s.stopped
    ensures ThrottledBeyondLimit(cfg, Step(cfg, s, r))
  {
    StepShape(cfg, s, r);
    var s' := Step(cfg, s, r);
    if s'.log != s.log {
      forall i | 0 <= i < |s.log|
        ensures s'.log[i] == s.log[i]
      {
        assert s'.log[..|s.log|][i] == s.log[i];
      }
    }
  }

  lemma {:induction false} RunThrottledBeyondLimit(cfg: Config, s: State, tape: seq<Round>)
    requires ThrottledBeyondLimit(cfg, s)
    ensures ThrottledBeyondLimit(cfg, Run(cfg, s, tape))
    decreases |tape|
  {
    if tape != [] && !s.stopped {
      StepThrottledBeyondLimit(cfg, s, tape[0]);
      RunThrottledBeyondLimit(cfg, Step(cfg, s, tape[0]), tape[1..]);
    }
  }

  /**
   * A run exceeds its limit through throttled imports only: of the imports from the
   * limit-th on, none but the very last of a stopped run was not throttled.
   */
  lemma OnlyThrottledBeyondLimit(cfg: Config, rows: seq<QueueRow>, ledger: Ledger, tape: seq<Round>, i: nat)
    requires cfg.limit.Some?
    ensures var s := Run(cfg, Start(rows, ledger), tape);
            i < |s.log| && i + 1 >= cfg.limit.value && (i < |s.log| - 1 || !s.stopped) ==> s.log[i].stats.throttled
  {
    RunThrottledBeyondLimit(cfg, Start(rows, ledger), tape);
  }

  // While watching there is no bound at all: a single row that meets a 420 every time
  // is imported again after each pause.

  /** Long enough for the pause, the spacing and the hourly count. */
  function Gap(l: Limits): nat { HOUR + 1 + Spacing(l) + Pause(l) }

  function ThrottledRound(at: int): Round {
    Round(at, at, at, Some(Stats(0, 0, 0, 1, true, true)), [at])
  }

  function ThrottledTape(l: Limits, at: int, n: nat): (tape: seq<Round>)
    ensures |tape| == n
    decreases n
  {
    if n == 0 then [] else [ThrottledRound(at)] + ThrottledTape(l, at + Gap(l), n - 1)
  }

  lemma {:induction false} NoneSince(ledger: Ledger, cutoff: int)
    requires forall i :: 0 <= i < |ledger| ==> ledger[i].at < cutoff
    ensures CountSince(ledger, cutoff) == 0
  {
    if ledger != [] {
      NoneSince(ledger[..|ledger| - 1], cutoff);
    }
  }

  ghost predicate OneOpenRow(l: Limits, s: State, at: int) {
    && !s.stopped && |s.rows| == 1 && IsOpen(s.rows[0])
    && forall i :: 0 <= i < |s.ledger| ==> s.ledger[i].at + Gap(l) <= at
  }

  lemma RequestsAllowedAgain(l: Limits, s: State, at: int)
    requires OneOpenRow(l, s, at)
    ensures !ShouldPause(l, s.ledger, at) && Evaluate(l, s.ledger, at) == Ok
    ensures SelectNext(ResetThrottled(s.rows)) == Some(0)
  {
    NoneSince(s.ledger, at - HOUR);
    PauseMeaning(l, s.ledger, at);
    OkMeaning(l, s.ledger, at);
    assert ResetThrottled(s.rows)[0].status == Pending;
  }

  function ImportsOf(cfg: Config, s: State, tape: seq<Round>): nat {
    |Run(cfg, s, tape).log|
  }

  lemma ThrottledAgain(cfg: Config, s: State, at: int, rest: seq<Round>) returns (s': State)
    requires cfg.watch && !cfg.dryRun && OneOpenRow(cfg.limits, s, at)
    ensures |s'.log| == |s.log| + 1 && OneOpenRow(cfg.limits, s', at + Gap(cfg.limits))
    ensures ImportsOf(cfg, s, [ThrottledRound(at)] + rest) == ImportsOf(cfg, s', rest)
  {
    RequestsAllowedAgain(cfg.limits, s, at);
    var r := ThrottledRound(at);
    s' := AfterImport(cfg, s, r, ResetThrottled(s.rows), 0, r.result.value);
    assert Step(cfg, s, r) == s';
    assert ([r] + rest)[1..] == rest;
  }

  lemma {:induction false} ThrottledTapeIsValid(l: Limits, at: int, n: nat, from: int)
    requires from <= at
    ensures ValidTape(ThrottledTape(l, at, n), from)
    decreases n
  {
    if n > 0 {
      var tape := ThrottledTape(l, at, n);
      assert tape[0] == ThrottledRound(at) && tape[1..] == ThrottledTape(l, at + Gap(l), n - 1);
      ThrottledTapeIsValid(l, at + Gap(l), n - 1, at);
    }
  }

  lemma TapeCons(l: Limits, at: int, n: nat)
    requires n > 0
    ensures ThrottledTape(l, at, n) == [ThrottledRound(at)] + ThrottledTape(l, at + Gap(l), n - 1)
  {
  }

  lemma {:induction false} ThrottledForever(cfg: Config, s: State, at: int, n: nat)
    requires cfg.watch && !cfg.dryRun && OneOpenRow(cfg.limits, s, at)
    ensures ImportsOf(cfg, s, ThrottledTape(cfg.limits, at, n)) == |s.log| + n
    decreases n
  {
    if n > 0 {
      TapeCons(cfg.limits, at, n);
      var s' := ThrottledAgain(cfg, s, at, ThrottledTape(cfg.limits, at + Gap(cfg.limits), n - 1));
      ThrottledForever(cfg, s', at + Gap(cfg.limits), n - 1);
    }
  }

  /** Whatever the limit and the budget, a watching run can make any number of imports. */
  lemma WatchingExceedsTheLimit(cfg: Config, n: nat)
    requires cfg.watch && !cfg.dryRun
    ensures ValidTape(ThrottledTape(cfg.limits, 0, n), 0)
    ensures ImportsOf(cfg, Start(ONE_PENDING, []), ThrottledTape(cfg.limits, 0, n)) == n
  {
    ThrottledTapeIsValid(cfg.limits, 0, n, 0);
    ThrottledForever(cfg, Start(ONE_PENDING, []), 0, n);
  }

  ghost predicate WithinLimit(cfg: Config, rows: seq<QueueRow>, ledger: Ledger, tape: seq<Round>, from: int) {
    ValidTape(tape, from) && cfg.limit.Some? ==> ImportsOf(cfg, Start(rows, ledger), tape) <= AtLeastOne(cfg.limit.value)
  }

  lemma LimitIsKept(cfg: Config, rows: seq<QueueRow>, ledger: Ledger, tape: seq<Round>, from: int)
    requires !cfg.watch || cfg.dryRun
    ensures WithinLimit(cfg, rows, ledger, tape, from)
  {
    LimitsAndLast420(cfg, rows, ledger, tape);
    if cfg.dryRun {
      DryRunImportsNothing(cfg, Start(rows, ledger), tape);
    }
  }

  lemma LimitIsExceeded(cfg: Config)
    requires cfg.limit.Some? && cfg.watch && !cfg.dryRun
    ensures !WithinLimit(cfg, ONE_PENDING, [], ThrottledTape(cfg.limits, 0, AtLeastOne(cfg.limit.value) + 1), 0)
  {
    WatchingExceedsTheLimit(cfg, AtLeastOne(cfg.limit.value) + 1);
  }

  /**
   * Every run with a limit keeps it (at least one volume is tried) exactly when it
   * does not watch, or imports nothing.
   */
  lemma LimitKeptIff(cfg: Config)
    requires cfg.limit.Some?
    ensures (forall rows, ledger, tape, from :: WithinLimit(cfg, rows, ledger, tape, from)) <==> !cfg.watch || cfg.dryRun
  {
    if cfg.watch && !cfg.dryRun {
      LimitIsExceeded(cfg);
    } else {
      forall rows, ledger, tape, from
        ensures WithinLimit(cfg, rows, ledger, tape, from)
      {
        LimitIsKept(cfg, rows, ledger, tape, from);
      }
    }
  }

  // ----- Termination -----

  predicate IsOpen(row: QueueRow) { row.status == Pending || row.status == Throttled }

  function OpenRows(rows: seq<QueueRow>): nat {
    if rows == [] then 0 else OpenRows(rows[..|rows| - 1]) + if IsOpen(rows[|rows| - 1]) then 1 else 0
  }

  lemma {:induction false} ResetKeepsOpen(rows: seq<QueueRow>)
    ensures OpenRows(ResetThrottled(rows)) == OpenRows(rows)
  {
    if rows != [] {
      var n := |rows| - 1;
      ResetKeepsOpen(rows[..n]);
      assert ResetThrottled(rows)[..n] == ResetThrottled(rows[..n]);
    }
  }

  lemma {:induction false} CloseOne(rows: seq<QueueRow>, k: nat, row: QueueRow)
    requires k < |rows| && IsOpen(rows[k])
    ensures OpenRows(rows[k := row]) == OpenRows(rows) - if IsOpen(row) then 0 else 1
  {
    var n := |rows| - 1;
    if k < n {
      CloseOne(rows[..n], k, row);
      assert rows[k := row][..n] == rows[..n][k := row];
    } else {
      assert rows[k := row][..n] == rows[..n];
    }
  }

  lemma StepCloses(cfg: Config, s: State, r: Round)
    requires !cfg.watch && !s.stopped && !Step(cfg, s, r).stopped
    ensures OpenRows(Step(cfg, s, r).rows) < OpenRows(s.rows)
  {
    var rows := Requeued(cfg, s, r);
    ResetKeepsOpen(s.rows);
    var k := SelectNext(rows).value;
    CloseOne(rows, k, ApplyResult(rows[k], r.result.value));
  }

  /** A run that does not watch stops within one round more than there are open rows. */
  lemma {:induction false} RunStops(cfg: Config, s: State, tape: seq<Round>)
    requires !cfg.watch && |tape| > OpenRows(s.rows)
    ensures Run(cfg, s, tape).stopped
    decreases |tape|
  {
    if !s.stopped {
      var s' := Step(cfg, s, tape[0]);
      if !s'.stopped {
        StepCloses(cfg, s, tape[0]);
      }
      if s'.stopped {
        assert Run(cfg, s', tape[1..]) == s';
      } else {
        RunStops(cfg, s', tape[1..]);
      }
    }
  }

  // ----- Totals -----

  datatype Counter = IssuesCreated | IssuesUpdated | ImagesCreated | ApiRequests

  function OfRow(c: Counter, row: QueueRow): int {
    match c
    case IssuesCreated => row.issuesCreated
    case IssuesUpdated => row.issuesUpdated
    case ImagesCreated => row.imagesCreated
    case ApiRequests => row.apiRequests
  }

  function OfStats(c: Counter, st: Stats): nat {
    match c
    case IssuesCreated => st.created
    case IssuesUpdated => st.updated
    case ImagesCreated => st.images
    case ApiRequests => st.requests
  }

  function OfRun(c: Counter, s: State): nat {
    match c
    case IssuesCreated => s.created
    case IssuesUpdated => s.updated
    case ImagesCreated => s.images
    case ApiRequests => s.requests
  }

  function SumRows(c: Counter, rows: seq<QueueRow>): int {
    if rows == [] then 0 else SumRows(c, rows[..|rows| - 1]) + OfRow(c, rows[|rows| - 1])
  }

  function SumLog(c: Counter, log: seq<Import>): nat {
    if log == [] then 0 else SumLog(c, log[..|log| - 1]) + OfStats(c, log[|log| - 1].stats)
  }

  lemma {:induction false} SumReset(c: Counter, rows: seq<QueueRow>)
    ensures SumRows(c, ResetThrottled(rows)) == SumRows(c, rows)
  {
    if rows != [] {
      var n := |rows| - 1;
      SumReset(c, rows[..n]);
      assert ResetThrottled(rows)[..n] == ResetThrottled(rows[..n]);
    }
  }

  lemma {:induction false} SumUpdate(c: Counter, rows: seq<QueueRow>, k: nat, row: QueueRow)
    requires k < |rows|
    ensures SumRows(c, rows[k := row]) == SumRows(c, rows) - OfRow(c, rows[k]) + OfRow(c, row)
  {
    var n := |rows| - 1;
    if k < n {
      SumUpdate(c, rows[..n], k, row);
      assert rows[k := row][..n] == rows[..n][k := row];
    } else {
      assert rows[k := row][..n] == rows[..n];
    }
  }

  lemma StepTotals(cfg: Config, s: State, r: Round, c: Counter)
    ensures var s' := Step(cfg, s, r);
            && SumRows(c, s'.rows) - OfRun(c, s') == SumRows(c, s.rows) - OfRun(c, s)
            && SumLog(c, s'.log) - OfRun(c, s') == SumLog(c, s.log) - OfRun(c, s)
  {
    var rows, s' := Requeued(cfg, s, r), Step(cfg, s, r);
    SumReset(c, s.rows);
    StepRows(cfg, s, r);
    StepCounters(cfg, s, r, c);
    if s'.log != s.log {
      assert s'.log[..|s.log|] == s.log;
    }
    if SelectNext(rows).Some? {
      var k := SelectNext(rows).value;
      SumUpdate(c, rows, k, s'.rows[k]);
      assert s'.rows == rows[k := s'.rows[k]];
    }
  }

  lemma StepTallies(cfg: Config, s: State, r: Round)
    ensures var s' := Step(cfg, s, r);
            if s'.log == s.log then
              s'.created == s.created && s'.updated == s.updated && s'.images == s.images && s'.requests == s.requests
            else
              && s'.log != []
              && var st := s'.log[|s'.log| - 1].stats;
                 && s'.created == s.created + st.created && s'.updated == s.updated + st.updated
                 && s'.images == s.images + st.images && s'.requests == s.requests + st.requests
  {
    StepShape(cfg, s, r);
  }

  lemma StepCounters(cfg: Config, s: State, r: Round, c: Counter)
    ensures var s' := Step(cfg, s, r);
            OfRun(c, s') == OfRun(c, s) + if s'.log == s.log then 0 else OfStats(c, s'.log[|s'.log| - 1].stats)
  {
    StepTallies(cfg, s, r);
    StepShape(cfg, s, r);
  }

  lemma {:induction false} RunTotals(cfg: Config, s: State, tape: seq<Round>, c: Counter)
    ensures var s' := Run(cfg, s, tape);
            && SumRows(c, s'.rows) - OfRun(c, s') == SumRows(c, s.rows) - OfRun(c, s)
            && SumLog(c, s'.log) - OfRun(c, s') == SumLog(c, s.log) - OfRun(c, s)
    decreases |tape|
  {
    if tape != [] && !s.stopped {
      StepTotals(cfg, s, tape[0], c);
      RunTotals(cfg, Step(cfg, s, tape[0]), tape[1..], c);
    }
  }

  function Count420(ledger: Ledger): nat {
    if ledger == [] then 0 else Count420(ledger[..|ledger| - 1]) + if ledger[|ledger| - 1].was420 then 1 else 0
  }

  lemma {:induction false} Count420Append(a: Ledger, b: Ledger)
    ensures Count420(a + b) == Count420(a) + Count420(b)
  {
    if b == [] {
      assert a + b == a;
    } else {
      var n := |b| - 1;
      Count420Append(a, b[..n]);
      assert (a + b)[..|a| + n] == a + b[..n];
    }
  }

  lemma {:induction false} OneImport420(entries: Ledger, throttled: bool)
    requires throttled ==> entries != []
    requires forall i :: 0 <= i < |entries| ==> (entries[i].was420 <==> throttled && i == |entries| - 1)
    ensures Count420(entries) == if throttled then 1 else 0
  {
    if entries != [] {
      OneImport420(entries[..|entries| - 1], false);
    }
  }

  lemma {:induction false} LogLedger(log: seq<Import>, now: int)
    requires forall i :: 0 <= i < |log| ==> GoodEntries(log[i], now)
    ensures |AllEntries(log)| == SumLog(ApiRequests, log) + Silent420(log)
    ensures Count420(AllEntries(log)) == ThrottledIn(log)
    decreases |log|
  {
    if log != [] {
      var n := |log| - 1;
      LogLedger(log[..n], now);
      OneImport420(log[n].entries, log[n].stats.throttled);
      Count420Append(AllEntries(log[..n]), log[n].entries);
    }
  }

  /**
   * Every counter of a run is the sum over its imports, and the growth of that
   * counter over the queue rows.
   */
  lemma CountersConserved(cfg: Config, rows: seq<QueueRow>, base: Ledger, tape: seq<Round>, c: Counter)
    ensures var s := Run(cfg, Start(rows, base), tape);
            OfRun(c, s) == SumLog(c, s.log) && SumRows(c, s.rows) == SumRows(c, rows) + OfRun(c, s)
  {
    RunTotals(cfg, Start(rows, base), tape, c);
  }

  /**
   * Over a whole run the ledger keeps what it held and grows by the requests the
   * run counted, plus one row for each throttled import that reported none; each
   * throttled import leaves exactly one 420.
   */
  lemma LedgerConserved(cfg: Config, rows: seq<QueueRow>, base: Ledger, tape: seq<Round>, from: int)
    requires ValidTape(tape, from)
    ensures var s := Run(cfg, Start(rows, base), tape);
            && base <= s.ledger
            && |s.ledger| == |base| + s.requests + Silent420(s.log)
            && Count420(s.ledger) == Count420(base) + ThrottledIn(s.log)
  {
    var s := Run(cfg, Start(rows, base), tape);
    var now := ClockAfter(tape, from);
    StartGoodLog(cfg, rows, base, tape, from);
    forall i | 0 <= i < |s.log|
      ensures GoodEntries(s.log[i], now)
    {
      GoodLogAt(cfg.limits, base, s.log, now, i);
    }
    LogLedger(s.log, now);
    Count420Append(base, AllEntries(s.log));
    CountersConserved(cfg, rows, base, tape, ApiRequests);
  }

  // ----- Rows are imported once -----

  predicate IsDone(row: QueueRow) { row.status == Imported || row.status == Failed }

  ghost predicate OncePerRow(rows0: seq<QueueRow>, rows: seq<QueueRow>, log: seq<Import>) {
    && |rows| == |rows0|
    && (forall k :: 0 <= k < |rows0| && !IsOpen(rows0[k]) ==> rows[k] == rows0[k])
    && (forall i :: 0 <= i < |log| ==> log[i].row < |rows0| && IsOpen(rows0[log[i].row]))
    && (forall i :: 0 <= i < |log| && !log[i].stats.throttled ==> IsDone(rows[log[i].row]))
    && (forall i, j :: 0 <= i < j < |log| && log[i].row == log[j].row ==> log[i].stats.throttled)
  }

  /** What a round does to the queue rows and the log. */
  lemma StepRows(cfg: Config, s: State, r: Round)
    ensures var s', rows := Step(cfg, s, r), Requeued(cfg, s, r);
            || (s'.rows == rows && s'.log == s.log)
            || (&& SelectNext(rows).Some?
                && var k := SelectNext(rows).value;
                   || (s'.rows == rows[k := rows[k].(status := Importing)] && s'.log == s.log)
                   || (&& r.result.Some? && s'.rows == rows[k := ApplyResult(rows[k], r.result.value)]
                       && s'.log == s.log + [Import(k, r.evaluateAt, r.result.value,
                                                    EntriesOf(r.result.value, r.times))]))
  {
  }

  lemma RequeuedOnce(rows0: seq<QueueRow>, rows: seq<QueueRow>, log: seq<Import>)
    requires OncePerRow(rows0, rows, log)
    ensures OncePerRow(rows0, ResetThrottled(rows), log)
  {
  }

  lemma ImportedOnce(rows0: seq<QueueRow>, rows: seq<QueueRow>, log: seq<Import>, imp: Import)
    requires OncePerRow(rows0, rows, log) && imp.row < |rows| && rows[imp.row].status == Pending
    ensures OncePerRow(rows0, rows[imp.row := ApplyResult(rows[imp.row], imp.stats)], log + [imp])
    ensures OncePerRow(rows0, rows[imp.row := rows[imp.row].(status := Importing)], log)
  {
    forall i | 0 <= i < |log|
      ensures (log + [imp])[i] == log[i] && (log[i].row == imp.row ==> log[i].stats.throttled)
    {
    }
  }

  lemma StepOnce(cfg: Config, rows0: seq<QueueRow>, s: State, r: Round)
    requires OncePerRow(rows0, s.rows, s.log)
    ensures OncePerRow(rows0, Step(cfg, s, r).rows, Step(cfg, s, r).log)
  {
    var rows := Requeued(cfg, s, r);
    RequeuedOnce(rows0, s.rows, s.log);
    StepRows(cfg, s, r);
    if SelectNext(rows).Some? {
      var k := SelectNext(rows).value;
      var st := if r.result.Some? then r.result.value else Stats(0, 0, 0, 0, false, false);
      ImportedOnce(rows0, rows, s.log, Import(k, r.evaluateAt, st, EntriesOf(st, r.times)));
    }
  }

  lemma {:induction false} RunOnce(cfg: Config, rows0: seq<QueueRow>, s: State, tape: seq<Round>)
    requires OncePerRow(rows0, s.rows, s.log)
    ensures OncePerRow(rows0, Run(cfg, s, tape).rows, Run(cfg, s, tape).log)
    decreases |tape|
  {
    if tape != [] && !s.stopped {
      StepOnce(cfg, rows0, s, tape[0]);
      RunOnce(cfg, rows0, Step(cfg, s, tape[0]), tape[1..]);
    }
  }

  /**
   * No run imports a row that was already imported, failed, exhausted or left
   * importing, and it imports a row again only after a 420 threw it back.
   */
  lemma NeverImportedTwice(cfg: Config, rows: seq<QueueRow>, ledger: Ledger, tape: seq<Round>)
    ensures var s := Run(cfg, Start(rows, ledger), tape);
            && |s.rows| == |rows|
            && (forall k :: 0 <= k < |rows| && !IsOpen(rows[k]) ==> s.rows[k] == rows[k])
            && (forall i :: 0 <= i < |s.log| ==> s.log[i].row < |rows| && IsOpen(rows[s.log[i].row]))
            && (forall i, j :: 0 <= i < j < |s.log| && s.log[i].row == s.log[j].row ==> s.log[i].stats.throttled)
  {
    RunOnce(cfg, rows, Start(rows, ledger), tape);
  }

  // ----- The status an import leaves -----

  /** What the queue shows of a row after its last import. */
  predicate Shows(st: Stats, status: Status) {
    if st.throttled then status == Throttled || status == Pending || status == Importing
    else if st.hasFailures then status == Failed
    else status == Imported
  }

  ghost predicate IsLastOf(log: seq<Import>, i: nat) {
    i < |log| && forall j :: i < j < |log| ==> log[j].row != log[i].row
  }

  ghost predicate LastsShown(rows: seq<QueueRow>, log: seq<Import>) {
    forall i: nat :: IsLastOf(log, i) ==> log[i].row < |rows| && Shows(log[i].stats, rows[log[i].row].status)
  }

  lemma RequeuedShown(rows: seq<QueueRow>, log: seq<Import>)
    requires LastsShown(rows, log)
    ensures LastsShown(ResetThrottled(rows), log)
  {
  }

  lemma MarkedShown(rows: seq<QueueRow>, log: seq<Import>, k: nat)
    requires LastsShown(rows, log) && k < |rows| && rows[k].status == Pending
    ensures LastsShown(rows[k := rows[k].(status := Importing)], log)
  {
  }

  lemma ImportShown(rows: seq<QueueRow>, log: seq<Import>, imp: Import)
    requires LastsShown(rows, log) && imp.row < |rows|
    ensures LastsShown(rows[imp.row := ApplyResult(rows[imp.row], imp.stats)], log + [imp])
  {
    var rows', all := rows[imp.row := ApplyResult(rows[imp.row], imp.stats)], log + [imp];
    forall i: nat | IsLastOf(all, i)
      ensures all[i].row < |rows'| && Shows(all[i].stats, rows'[all[i].row].status)
    {
      if i < |log| {
        assert all[|log|].row != all[i].row;
        forall j | i < j < |log|
          ensures log[j].row != log[i].row
        {
          assert all[j] == log[j];
        }
        assert IsLastOf(log, i);
      }
    }
  }

  lemma StepShown(cfg: Config, s: State, r: Round)
    requires LastsShown(s.rows, s.log)
    ensures LastsShown(Step(cfg, s, r).rows, Step(cfg, s, r).log)
  {
    var rows := Requeued(cfg, s, r);
    RequeuedShown(s.rows, s.log);
    StepRows(cfg, s, r);
    if SelectNext(rows).Some? {
      var k := SelectNext(rows).value;
      MarkedShown(rows, s.log, k);
      if r.result.Some? {
        ImportShown(rows, s.log, Import(k, r.evaluateAt, r.result.value, EntriesOf(r.result.value, r.times)));
      }
    }
  }

  lemma {:induction false} RunShown(cfg: Config, s: State, tape: seq<Round>)
    requires LastsShown(s.rows, s.log)
    ensures LastsShown(Run(cfg, s, tape).rows, Run(cfg, s, tape).log)
    decreases |tape|
  {
    if tape != [] && !s.stopped {
      StepShown(cfg, s, tape[0]);
      RunShown(cfg, Step(cfg, s, tape[0]), tape[1..]);
    }
  }

  /**
   * After every run, the status of a row that was imported tells how its last import
   * went: failed, imported, or thrown back by a 420 and perhaps taken up again.
   */
  lemma StatusTellsLastImport(cfg: Config, rows: seq<QueueRow>, base: Ledger, tape: seq<Round>, i: nat)
    requires IsLastOf(Run(cfg, Start(rows, base), tape).log, i)
    ensures var s := Run(cfg, Start(rows, base), tape);
            var st := s.log[i].stats;
            && s.log[i].row < |s.rows|
            && var status := s.rows[s.log[i].row].status;
               && (status == Failed <==> !st.throttled && st.hasFailures)
               && (status == Imported <==> !st.throttled && !st.hasFailures)
               && (st.throttled ==> status == Throttled || status == Pending || status == Importing)
  {
    RunShown(cfg, Start(rows, base), tape);
  }

  // ----- Which row is next, and what the end of a run says -----

  ghost predicate FirstInLine(rows: seq<QueueRow>, k: nat) {
    && k < |rows| && rows[k].status == Pending
    && forall j :: 0 <= j < |rows| && rows[j].status == Pending && j != k ==>
         || rows[k].priority < rows[j].priority
         || (rows[k].priority == rows[j].priority && rows[k].id <= rows[j].id)
  }

  /** The row taken is the pending one of least priority number, and of least id among those. */
  lemma NextInLine(rows: seq<QueueRow>)
    ensures SelectNext(rows).Some? ==> FirstInLine(rows, SelectNext(rows).value)
    ensures SelectNext(rows).None? <==> forall j :: 0 <= j < |rows| ==> rows[j].status != Pending
  {
  }

  /** A round that imports takes the first row in line, and leaves every row its id and priority. */
  lemma ImportsTheFirst(cfg: Config, s: State, r: Round)
    ensures var s' := Step(cfg, s, r);
            && |s'.rows| == |s.rows|
            && (forall k :: 0 <= k < |s.rows| ==> s'.rows[k].id == s.rows[k].id && s'.rows[k].priority == s.rows[k].priority)
            && (s'.log != s.log ==> s'.log != [] && FirstInLine(Requeued(cfg, s, r), s'.log[|s'.log| - 1].row))
  {
    NextInLine(Requeued(cfg, s, r));
    StepRows(cfg, s, r);
  }

  /** Why a run that has stopped did so. */
  ghost predicate Ended(cfg: Config, s: State) {
    match s.status
    case LimitReached => cfg.limit.Some? && |s.log| >= cfg.limit.value && s.log != [] && !s.log[|s.log| - 1].stats.throttled
    case QueueEmpty => forall k :: 0 <= k < |s.rows| ==> s.rows[k].status != Pending
    case DryRun => cfg.dryRun && exists k :: 0 <= k < |s.rows| && s.rows[k].status == Pending
    case Raised => exists k :: 0 <= k < |s.rows| && s.rows[k].status == Importing
    case Paused420 => exists e :: 0 <= e < |s.ledger| && s.ledger[e].was420
    case _ => true
  }

  lemma Has420(l: Limits, ledger: Ledger, now: int)
    requires ShouldPause(l, ledger, now)
    ensures exists e :: 0 <= e < |ledger| && ledger[e].was420
  {
  }

  lemma StepEnded(cfg: Config, s: State, r: Round)
    requires s.processed == |s.log| && (r.result.Some? ==> |r.times| == RecordCount(r.result.value))
    ensures Step(cfg, s, r).processed == |Step(cfg, s, r).log| && Ended(cfg, Step(cfg, s, r))
  {
    var s', rows := Step(cfg, s, r), Requeued(cfg, s, r);
    NextInLine(rows);
    if ShouldPause(cfg.limits, s.ledger, r.pauseCheck) {
      Has420(cfg.limits, s.ledger, r.pauseCheck);
    } else if Evaluate(cfg.limits, s.ledger, r.evaluateAt) == Ok && SelectNext(rows).Some? && !cfg.dryRun {
      var k := SelectNext(rows).value;
      if r.result.None? {
        assert s'.rows[k].status == Importing;
      } else if r.result.value.throttled {
        assert s'.ledger[|s'.ledger| - 1].was420;
      }
    }
  }

  lemma {:induction false} RunEnded(cfg: Config, s: State, tape: seq<Round>, from: int)
    requires s.processed == |s.log| && Ended(cfg, s) && ValidTape(tape, from)
    ensures Ended(cfg, Run(cfg, s, tape))
    decreases |tape|
  {
    if tape != [] && !s.stopped {
      StepEnded(cfg, s, tape[0]);
      RunEnded(cfg, Step(cfg, s, tape[0]), tape[1..], EndOf(tape[0]));
    }
  }

  /**
   * The reported status is true of the run: a limit was reached by an import that was
   * not throttled, an empty queue has no pending row, a pause has a 420 in the ledger.
   */
  lemma StatusIsTrue(cfg: Config, rows: seq<QueueRow>, base: Ledger, tape: seq<Round>, from: int)
    requires ValidTape(tape, from)
    ensures Ended(cfg, Run(cfg, Start(rows, base), tape))
  {
    RunEnded(cfg, Start(rows, base), tape, from);
  }
}
