/**
 * What holds over every run of the queue runner: the hourly request budget, and the
 * pause and the spacing after an import.
 */
module QueueRuns {
  import opened Common
  import opened RateBudget
  import opened QueueRunner

  // ----- The log of a run -----

  function AllEntries(log: seq<Import>): Ledger {
    if log == [] then [] else AllEntries(log[..|log| - 1]) + log[|log| - 1].entries
  }

  ghost predicate GoodEntries(imp: Import, now: int) {
    && |imp.entries| == RecordCount(imp.stats)
    && (forall i :: 0 <= i < |imp.entries| ==> imp.start <= imp.entries[i].at <= now)
    && (forall i :: 0 <= i < |imp.entries| ==>
          (imp.entries[i].was420 <==> imp.stats.throttled && i == |imp.entries| - 1))
  }

  /** Every import was let start by the budget, on the ledger as it stood then. */
  ghost predicate GoodLog(l: Limits, base: Ledger, log: seq<Import>, now: int) {
    log == [] ||
    var init, last := log[..|log| - 1], log[|log| - 1];
    && GoodLog(l, base, init, last.start)
    && Evaluate(l, base + AllEntries(init), last.start) == Ok
    && last.start <= now
    && GoodEntries(last, now)
  }

  lemma GoodLogLater(l: Limits, base: Ledger, log: seq<Import>, now: int, later: int)
    requires GoodLog(l, base, log, now) && now <= later
    ensures GoodLog(l, base, log, later)
  {
  }

  lemma AppendLog(log: seq<Import>, imp: Import)
    ensures (log + [imp])[..|log|] == log
    ensures AllEntries(log + [imp]) == AllEntries(log) + imp.entries
  {
    assert (log + [imp])[..|log|] == log;
  }

  /** What a round adds to the log: nothing, or one import the budget allowed. */
  lemma StepLog(cfg: Config, s: State, r: Round)
    ensures var s' := Step(cfg, s, r);
            || (s'.log == s.log && s'.ledger == s.ledger)
            || (&& r.result.Some? && Evaluate(cfg.limits, s.ledger, r.evaluateAt) == Ok
                && var imp := Import(SelectNext(Requeued(cfg, s, r)).value, r.evaluateAt, r.result.value,
                                     EntriesOf(r.result.value, r.times));
                   s'.log == s.log + [imp] && s'.ledger == s.ledger + imp.entries)
  {
  }

  lemma RoundEntries(r: Round, from: int, k: nat)
    requires Timed(r, from) && r.result.Some?
    ensures GoodEntries(Import(k, r.evaluateAt, r.result.value, EntriesOf(r.result.value, r.times)), EndOf(r))
  {
    var all := [r.evaluateAt] + r.times;
    forall i | 0 <= i < |r.times|
      ensures r.evaluateAt <= r.times[i] <= EndOf(r)
    {
      assert all[0] <= all[i + 1];
      if i + 1 < |r.times| {
        assert all[i + 1] <= all[|r.times|];
      }
    }
  }

  lemma EndOfIsLate(r: Round, from: int)
    requires Timed(r, from)
    ensures from <= r.evaluateAt <= EndOf(r)
  {
    if r.times != [] {
      var all := [r.evaluateAt] + r.times;
      assert all[0] <= all[|r.times|];
    }
  }

  lemma StepGoodLog(cfg: Config, base: Ledger, s: State, r: Round, from: int)
    requires Timed(r, from)
    requires s.ledger == base + AllEntries(s.log) && GoodLog(cfg.limits, base, s.log, from)
    ensures var s' := Step(cfg, s, r);
            s'.ledger == base + AllEntries(s'.log) && GoodLog(cfg.limits, base, s'.log, EndOf(r))
  {
    StepLog(cfg, s, r);
    EndOfIsLate(r, from);
    var s' := Step(cfg, s, r);
    if s'.log == s.log {
      GoodLogLater(cfg.limits, base, s.log, from, EndOf(r));
    } else {
      var imp := s'.log[|s.log|];
      RoundEntries(r, from, imp.row);
      AppendLog(s.log, imp);
      GoodLogLater(cfg.limits, base, s.log, from, r.evaluateAt);
      Assoc(base, AllEntries(s.log), imp.entries);
    }
  }

  /** Time at the end of the tape. */
  function ClockAfter(tape: seq<Round>, from: int): int {
    if tape == [] then from else ClockAfter(tape[1..], EndOf(tape[0]))
  }

  lemma {:induction false} ClockAdvances(tape: seq<Round>, from: int)
    requires ValidTape(tape, from)
    ensures from <= ClockAfter(tape, from)
    decreases |tape|
  {
    if tape != [] {
      EndOfIsLate(tape[0], from);
      ClockAdvances(tape[1..], EndOf(tape[0]));
    }
  }

  lemma {:induction false} RunGoodLog(cfg: Config, base: Ledger, s: State, tape: seq<Round>, from: int)
    requires ValidTape(tape, from)
    requires s.ledger == base + AllEntries(s.log) && GoodLog(cfg.limits, base, s.log, from)
    ensures var s' := Run(cfg, s, tape);
            s'.ledger == base + AllEntries(s'.log) && GoodLog(cfg.limits, base, s'.log, ClockAfter(tape, from))
    decreases |tape|
  {
    if tape != [] && !s.stopped {
      StepGoodLog(cfg, base, s, tape[0], from);
      RunGoodLog(cfg, base, Step(cfg, s, tape[0]), tape[1..], EndOf(tape[0]));
    } else {
      ClockAdvances(tape, from);
      GoodLogLater(cfg.limits, base, s.log, from, ClockAfter(tape, from));
    }
  }

  lemma StartGoodLog(cfg: Config, rows: seq<QueueRow>, base: Ledger, tape: seq<Round>, from: int)
    requires ValidTape(tape, from)
    ensures var s := Run(cfg, Start(rows, base), tape);
            s.ledger == base + AllEntries(s.log) && GoodLog(cfg.limits, base, s.log, ClockAfter(tape, from))
  {
    assert base + AllEntries([]) == base;
    RunGoodLog(cfg, base, Start(rows, base), tape, from);
  }

  // ----- The hourly budget -----

  function CountBetween(ledger: Ledger, lo: int, hi: int): nat {
    if ledger == [] then 0
    else
      var n := |ledger| - 1;
      CountBetween(ledger[..n], lo, hi) + if lo <= ledger[n].at <= hi then 1 else 0
  }

  lemma {:induction false} CountBetweenAppend(a: Ledger, b: Ledger, lo: int, hi: int)
    ensures CountBetween(a + b, lo, hi) == CountBetween(a, lo, hi) + CountBetween(b, lo, hi)
  {
    if b == [] {
      assert a + b == a;
    } else {
      var n := |b| - 1;
      CountBetweenAppend(a, b[..n], lo, hi);
      assert (a + b)[..|a| + n] == a + b[..n];
    }
  }

  lemma {:induction false} CountBetweenBounds(ledger: Ledger, lo: int, hi: int, cutoff: int)
    ensures CountBetween(ledger, lo, hi) <= |ledger|
    ensures cutoff <= lo ==> CountBetween(ledger, lo, hi) <= CountSince(ledger, cutoff)
    ensures (forall i :: 0 <= i < |ledger| ==> !(lo <= ledger[i].at <= hi)) ==> CountBetween(ledger, lo, hi) == 0
    ensures (forall i :: 0 <= i < |ledger| ==> lo <= ledger[i].at <= hi) ==> CountBetween(ledger, lo, hi) == |ledger|
  {
    if ledger != [] {
      CountBetweenBounds(ledger[..|ledger| - 1], lo, hi, cutoff);
    }
  }

  ghost predicate HasEntryIn(entries: Ledger, lo: int, hi: int) {
    exists i :: 0 <= i < |entries| && lo <= entries[i].at <= hi
  }

  ghost predicate ImportsAtMost(log: seq<Import>, m: nat) {
    forall i :: 0 <= i < |log| ==> |log[i].entries| <= m
  }

  lemma EntryInEitherPart(a: Ledger, b: Ledger, lo: int, hi: int)
    requires HasEntryIn(a + b, lo, hi)
    ensures HasEntryIn(a, lo, hi) || HasEntryIn(b, lo, hi)
  {
    var i :| 0 <= i < |a + b| && lo <= (a + b)[i].at <= hi;
    if i < |a| {
      assert lo <= a[i].at <= hi;
    } else {
      assert lo <= b[i - |a|].at <= hi;
    }
  }

  /**
   * The most an hour can hold: the cap less one plus the largest import, and that
   * import alone when the spacing keeps any two imports more than an hour apart.
   */
  function HourBound(l: Limits, m: nat): int {
    if Spacing(l) > HOUR then m else Cap(l) - 1 + m
  }

  /** Entries counted before the last import of the hour were counted when it was allowed. */
  lemma LastImportOfHour(l: Limits, before: Ledger, imp: Import, now: int, lo: int, m: nat)
    requires Evaluate(l, before, imp.start) == Ok && GoodEntries(imp, now) && |imp.entries| <= m
    requires HasEntryIn(imp.entries, lo, lo + HOUR)
    ensures CountBetween(before + imp.entries, lo, lo + HOUR) <= HourBound(l, m)
  {
    OkMeaning(l, before, imp.start);
    CountBetweenBounds(before, lo, lo + HOUR, imp.start - HOUR);
    CountBetweenBounds(imp.entries, lo, lo + HOUR, lo);
    CountBetweenAppend(before, imp.entries, lo, lo + HOUR);
  }

  lemma NoMoreInHour(before: Ledger, entries: Ledger, lo: int)
    requires !HasEntryIn(entries, lo, lo + HOUR)
    ensures CountBetween(before + entries, lo, lo + HOUR) == CountBetween(before, lo, lo + HOUR)
  {
    CountBetweenBounds(entries, lo, lo + HOUR, lo);
    CountBetweenAppend(before, entries, lo, lo + HOUR);
  }

  lemma {:induction false} LogWithinBudget(l: Limits, base: Ledger, log: seq<Import>, now: int, lo: int, m: nat)
    requires GoodLog(l, base, log, now) && ImportsAtMost(log, m)
    requires HasEntryIn(AllEntries(log), lo, lo + HOUR)
    ensures CountBetween(base + AllEntries(log), lo, lo + HOUR) <= HourBound(l, m)
    decreases |log|
  {
    var init, last := log[..|log| - 1], log[|log| - 1];
    var before := base + AllEntries(init);
    assert base + AllEntries(log) == before + last.entries;
    if HasEntryIn(last.entries, lo, lo + HOUR) {
      LastImportOfHour(l, before, last, now, lo, m);
    } else {
      EntryInEitherPart(AllEntries(init), last.entries, lo, lo + HOUR);
      LogWithinBudget(l, base, init, last.start, lo, m);
      NoMoreInHour(before, last.entries, lo);
    }
  }

  lemma CountedBudget(cfg: Config, rows: seq<QueueRow>, base: Ledger, tape: seq<Round>, from: int, lo: int, m: nat)
    requires ValidTape(tape, from)
    ensures var s := Run(cfg, Start(rows, base), tape);
            ImportsAtMost(s.log, m) && HasEntryIn(AllEntries(s.log), lo, lo + HOUR)
            ==> CountBetween(s.ledger, lo, lo + HOUR) <= HourBound(cfg.limits, m)
    ensures HourBound(cfg.limits, m) <= Cap(cfg.limits) - 1 + m
  {
    StartGoodLog(cfg, rows, base, tape, from);
    var s := Run(cfg, Start(rows, base), tape);
    if ImportsAtMost(s.log, m) && HasEntryIn(AllEntries(s.log), lo, lo + HOUR) {
      LogWithinBudget(cfg.limits, base, s.log, ClockAfter(tape, from), lo, m);
    }
  }

  lemma {:induction false} CountBetweenMeaning(ledger: Ledger, lo: int, hi: int)
    ensures CountBetween(ledger, lo, hi) == |Between(ledger, lo, hi)|
  {
    if ledger != [] {
      var n := |ledger| - 1;
      CountBetweenMeaning(ledger[..n], lo, hi);
      SetGrows(Between(ledger[..n], lo, hi), Between(ledger, lo, hi), n, lo <= ledger[n].at <= hi);
    }
  }

  /** The configured number of requests an hour; a number below one counts as one. */
  function Allowance(cfg: Config): int {
    if cfg.limits.maxPerHour < 1 then 1 else cfg.limits.maxPerHour
  }

  /**
   * In every rolling hour in which the run made a request, the ledger -- whatever it
   * held before -- has at most the configured number less one plus the requests of
   * the largest import; and that import's alone, if the spacing exceeds an hour.
   */
  lemma HourlyBudget(cfg: Config, rows: seq<QueueRow>, base: Ledger, tape: seq<Round>, from: int, lo: int, m: nat)
    requires ValidTape(tape, from)
    ensures var s, hi := Run(cfg, Start(rows, base), tape), lo + 3600 * 1_000_000;
            ImportsAtMost(s.log, m) && HasEntryIn(AllEntries(s.log), lo, hi)
            ==> && |Between(s.ledger, lo, hi)| <= Allowance(cfg) - 1 + m
                && (cfg.limits.spacing > 3600 * 1_000_000 ==> |Between(s.ledger, lo, hi)| <= m)
  {
    CountedBudget(cfg, rows, base, tape, from, lo, m);
    CountBetweenMeaning(Run(cfg, Start(rows, base), tape).ledger, lo, lo + HOUR);
  }

  // A run that meets the bound: a ledger one short of the cap (empty, if the spacing
  // exceeds an hour), one pending row, and one import once the spacing has passed.

  const ONE_PENDING := [QueueRow(1, 100, Pending, 0, 0, 0, 0)]

  function BurstBase(l: Limits): Ledger { FullLedger(if Spacing(l) > HOUR then 0 else Cap(l) - 1) }

  function BurstRound(at: int, m: nat): Round {
    Round(at, at, at, Some(Stats(0, 0, 0, m, false, false)), seq(m, _ => at))
  }

  function BurstEntries(at: int, m: nat): Ledger { EntriesOf(BurstRound(at, m).result.value, BurstRound(at, m).times) }

  function BurstRun(cfg: Config, m: nat): State {
    Run(cfg, Start(ONE_PENDING, BurstBase(cfg.limits)), [BurstRound(Spacing(cfg.limits), m)])
  }

  lemma BurstAllowed(l: Limits)
    ensures !ShouldPause(l, BurstBase(l), Spacing(l)) && Evaluate(l, BurstBase(l), Spacing(l)) == Ok
  {
    if Spacing(l) <= HOUR {
      FullLedgerCounts(Cap(l) - 1, Spacing(l) - HOUR);
    }
    OkMeaning(l, BurstBase(l), Spacing(l));
    PauseMeaning(l, BurstBase(l), Spacing(l));
  }

  lemma BurstRunResult(cfg: Config, m: nat)
    requires !cfg.dryRun
    ensures var r := BurstRound(Spacing(cfg.limits), m);
            BurstRun(cfg, m).log == [Import(0, Spacing(cfg.limits), r.result.value, EntriesOf(r.result.value, r.times))]
    ensures BurstRun(cfg, m).ledger == BurstBase(cfg.limits) + BurstEntries(Spacing(cfg.limits), m)
  {
    var at := Spacing(cfg.limits);
    var r, base := BurstRound(at, m), BurstBase(cfg.limits);
    var s0 := Start(ONE_PENDING, base);
    BurstAllowed(cfg.limits);
    assert ResetThrottled(ONE_PENDING) == ONE_PENDING;
    assert SelectNext(ONE_PENDING) == Some(0);
    assert Step(cfg, s0, r) == AfterImport(cfg, s0, r, ONE_PENDING, 0, r.result.value);
    RunOne(cfg, s0, r);
    assert [] + [Import(0, at, r.result.value, BurstEntries(at, m))] == [Import(0, at, r.result.value, BurstEntries(at, m))];
  }

  lemma RunOne(cfg: Config, s: State, r: Round)
    requires !s.stopped
    ensures Run(cfg, s, [r]) == Step(cfg, s, r)
  {
    assert [r][1..] == [];
    assert Run(cfg, Step(cfg, s, r), []) == Step(cfg, s, r);
  }

  lemma BurstTapeIsValid(at: int, m: nat)
    ensures ValidTape([BurstRound(at, m)], at)
  {
    assert [BurstRound(at, m)][1..] == [];
  }

  /** All of the base and the burst lie in one hour. */
  lemma BurstCounts(l: Limits, m: nat)
    ensures var lo := if Spacing(l) > HOUR then Spacing(l) else 0;
            CountBetween(BurstBase(l) + BurstEntries(Spacing(l), m), lo, lo + HOUR) == HourBound(l, m)
  {
    var lo := if Spacing(l) > HOUR then Spacing(l) else 0;
    CountBetweenBounds(BurstBase(l) + BurstEntries(Spacing(l), m), lo, lo + HOUR, 0);
  }

  lemma OneImportEntries(imp: Import)
    ensures AllEntries([imp]) == imp.entries
  {
    AppendLog([], imp);
    assert [] + [imp] == [imp];
  }

  lemma BurstLog(cfg: Config, m: nat, lo: int)
    requires !cfg.dryRun && m >= 1 && lo <= Spacing(cfg.limits) <= lo + HOUR
    ensures ImportsAtMost(BurstRun(cfg, m).log, m)
    ensures HasEntryIn(AllEntries(BurstRun(cfg, m).log), lo, lo + HOUR)
  {
    var at := Spacing(cfg.limits);
    BurstRunResult(cfg, m);
    OneImportEntries(Import(0, at, BurstRound(at, m).result.value, BurstEntries(at, m)));
    assert AllEntries(BurstRun(cfg, m).log)[0].at == at;
  }

  /**
   * The bound is met, whatever the limits, by imports of every size: with more than
   * one request the configured cap itself is exceeded, because the budget is asked
   * before each volume and not before each request.
   */
  lemma HourlyBudgetIsTight(cfg: Config, m: nat)
    requires !cfg.dryRun && m >= 1
    ensures ValidTape([BurstRound(Spacing(cfg.limits), m)], Spacing(cfg.limits))
    ensures var hour := 3600 * 1_000_000;
            var lo := if cfg.limits.spacing > hour then cfg.limits.spacing else 0;
            && ImportsAtMost(BurstRun(cfg, m).log, m) && HasEntryIn(AllEntries(BurstRun(cfg, m).log), lo, lo + hour)
            && |Between(BurstRun(cfg, m).ledger, lo, lo + hour)|
               == if cfg.limits.spacing > hour then m else Allowance(cfg) - 1 + m
  {
    var lo := if Spacing(cfg.limits) > HOUR then Spacing(cfg.limits) else 0;
    BurstTapeIsValid(Spacing(cfg.limits), m);
    BurstLog(cfg, m, lo);
    BurstRunResult(cfg, m);
    BurstCounts(cfg.limits, m);
    CountBetweenMeaning(BurstRun(cfg, m).ledger, lo, lo + HOUR);
  }

  /** In the hour from `lo`, if the run made a request in it, the ledger stays within the cap. */
  ghost predicate KeepsCap(cfg: Config, rows: seq<QueueRow>, base: Ledger, tape: seq<Round>, lo: int) {
    var s := Run(cfg, Start(rows, base), tape);
    HasEntryIn(AllEntries(s.log), lo, lo + HOUR) ==> |Between(s.ledger, lo, lo + HOUR)| <= Allowance(cfg)
  }

  ghost predicate PossibleRun(cfg: Config, rows: seq<QueueRow>, base: Ledger, tape: seq<Round>, from: int, m: nat) {
    ValidTape(tape, from) && ImportsAtMost(Run(cfg, Start(rows, base), tape).log, m)
  }

  lemma {:induction false} DryRunImportsNothing(cfg: Config, s: State, tape: seq<Round>)
    requires cfg.dryRun
    ensures Run(cfg, s, tape).log == s.log
    decreases |tape|
  {
    if tape != [] && !s.stopped {
      DryRunImportsNothing(cfg, Step(cfg, s, tape[0]), tape[1..]);
    }
  }

  /**
   * Every run with imports of at most `m` requests keeps the configured cap, in every
   * hour in which it made a request, exactly when no import makes more than one
   * request, or nothing is imported, or the spacing exceeds an hour and one import
   * alone stays within the cap.
   */
  lemma HourlyCapKeptIff(cfg: Config, m: nat)
    ensures (forall rows, base, tape, from, lo :: PossibleRun(cfg, rows, base, tape, from, m)
                                                  ==> KeepsCap(cfg, rows, base, tape, lo))
            <==> m <= 1 || cfg.dryRun || (cfg.limits.spacing > 3600 * 1_000_000 && m <= Allowance(cfg))
  {
    if m <= 1 || cfg.dryRun || (cfg.limits.spacing > HOUR && m <= Allowance(cfg)) {
      forall rows, base, tape, from, lo | PossibleRun(cfg, rows, base, tape, from, m)
        ensures KeepsCap(cfg, rows, base, tape, lo)
      {
        var s := Run(cfg, Start(rows, base), tape);
        if cfg.dryRun {
          DryRunImportsNothing(cfg, Start(rows, base), tape);
        } else if HasEntryIn(AllEntries(s.log), lo, lo + HOUR) {
          HourlyBudget(cfg, rows, base, tape, from, lo, m);
        }
      }
    } else {
      var at := Spacing(cfg.limits);
      HourlyBudgetIsTight(cfg, m);
      assert PossibleRun(cfg, ONE_PENDING, BurstBase(cfg.limits), [BurstRound(at, m)], at, m);
      assert !KeepsCap(cfg, ONE_PENDING, BurstBase(cfg.limits), [BurstRound(at, m)], if at > HOUR then at else 0);
    }
  }

  // ----- The pause after a 420, and the spacing -----

  lemma {:induction false} EntriesInLog(log: seq<Import>, i: nat, e: nat)
    requires i < |log| && e < |log[i].entries|
    ensures log[i].entries[e] in AllEntries(log)
    decreases |log|
  {
    var n := |log| - 1;
    if i == n {
      assert AllEntries(log)[|AllEntries(log[..n])| + e] == log[i].entries[e];
    } else {
      EntriesInLog(log[..n], i, e);
    }
  }

  lemma NextStart(l: Limits, base: Ledger, log: seq<Import>, start: int, i: nat, e: nat)
    requires GoodLog(l, base, log, start) && Evaluate(l, base + AllEntries(log), start) == Ok
    requires i < |log| && e < |log[i].entries|
    ensures start - log[i].entries[e].at >= Spacing(l)
    ensures log[i].entries[e].was420 ==> start - log[i].entries[e].at >= Pause(l)
  {
    var ledger := base + AllEntries(log);
    OkMeaning(l, ledger, start);
    EntriesInLog(log, i, e);
    var x :| 0 <= x < |AllEntries(log)| && AllEntries(log)[x] == log[i].entries[e];
    assert ledger[|base| + x] == log[i].entries[e];
    EntryTimes(l, base, log, start, i, e);
  }

  /** Every import was allowed on the ledger that the imports before it left. */
  lemma {:induction false} AllowedAt(l: Limits, base: Ledger, log: seq<Import>, now: int, j: nat)
    requires GoodLog(l, base, log, now) && j < |log|
    ensures GoodLog(l, base, log[..j], log[j].start)
    ensures Evaluate(l, base + AllEntries(log[..j]), log[j].start) == Ok
    decreases |log|
  {
    var n := |log| - 1;
    if j < n {
      AllowedAt(l, base, log[..n], log[n].start, j);
      assert log[..n][..j] == log[..j] && log[..n][j] == log[j];
    }
  }

  lemma LaterStarts(l: Limits, base: Ledger, log: seq<Import>, now: int, i: nat, j: nat, e: nat)
    requires GoodLog(l, base, log, now) && i < j < |log| && e < |log[i].entries|
    ensures log[j].start - log[i].entries[e].at >= Spacing(l)
    ensures log[i].entries[e].was420 ==> log[j].start - log[i].entries[e].at >= Pause(l)
  {
    AllowedAt(l, base, log, now, j);
    assert log[..j][i] == log[i];
    NextStart(l, base, log[..j], log[j].start, i, e);
  }

  lemma {:induction false} EntryTimes(l: Limits, base: Ledger, log: seq<Import>, now: int, i: nat, e: nat)
    requires GoodLog(l, base, log, now) && i < |log| && e < |log[i].entries|
    ensures log[i].entries[e].at <= now && GoodEntries(log[i], now)
    decreases |log|
  {
    var n := |log| - 1;
    if i < n {
      EntryTimes(l, base, log[..n], log[n].start, i, e);
    }
  }

  /**
   * After an import meets a 420 the next import of the run starts only when the
   * whole pause has passed since that 420; after any import, only when the spacing
   * has passed since its last request.
   */
  lemma PauseAfter420(cfg: Config, rows: seq<QueueRow>, base: Ledger, tape: seq<Round>, from: int, i: nat, j: nat)
    requires ValidTape(tape, from)
    requires i < j < |Run(cfg, Start(rows, base), tape).log|
    ensures var log := Run(cfg, Start(rows, base), tape).log;
            && (log[i].stats.throttled ==>
                  && log[i].entries != []
                  && log[j].start - log[i].entries[|log[i].entries| - 1].at >= cfg.limits.pause)
            && forall e :: 0 <= e < |log[i].entries| ==> log[j].start - log[i].entries[e].at >= cfg.limits.spacing
  {
    StartGoodLog(cfg, rows, base, tape, from);
    var log := Run(cfg, Start(rows, base), tape).log;
    var now := ClockAfter(tape, from);
    GoodLogAt(cfg.limits, base, log, now, i);
    forall e | 0 <= e < |log[i].entries|
      ensures log[j].start - log[i].entries[e].at >= Spacing(cfg.limits)
      ensures log[i].entries[e].was420 ==> log[j].start - log[i].entries[e].at >= Pause(cfg.limits)
    {
      LaterStarts(cfg.limits, base, log, now, i, j, e);
    }
  }

  /** The same holds of every 420 already in the ledger when the run begins. */
  lemma PauseAfterInherited420(cfg: Config, rows: seq<QueueRow>, base: Ledger, tape: seq<Round>, from: int, j: nat, b: nat)
    requires ValidTape(tape, from) && j < |Run(cfg, Start(rows, base), tape).log|
    requires b < |base| && base[b].was420 && cfg.limits.pause > 0
    ensures Run(cfg, Start(rows, base), tape).log[j].start - base[b].at >= cfg.limits.pause
  {
    StartGoodLog(cfg, rows, base, tape, from);
    var log := Run(cfg, Start(rows, base), tape).log;
    AllowedAt(cfg.limits, base, log, ClockAfter(tape, from), j);
    var ledger := base + AllEntries(log[..j]);
    assert ledger[b] == base[b];
    OkMeaning(cfg.limits, ledger, log[j].start);
  }

  lemma {:induction false} GoodLogAt(l: Limits, base: Ledger, log: seq<Import>, now: int, i: nat)
    requires GoodLog(l, base, log, now) && i < |log|
    ensures GoodEntries(log[i], now)
    decreases |log|
  {
    var n := |log| - 1;
    if i < n {
      GoodLogAt(l, base, log[..n], log[n].start, i);
    }
  }

  /**
   * A throttled row leaves its status only in a round whose re-queueing check
   * found the pause after every 420 in the ledger elapsed.
   */
  lemma ThrottledRowsWait(cfg: Config, s: State, r: Round, k: nat)
    requires k < |s.rows| && s.rows[k].status == Throttled
    ensures |Step(cfg, s, r).rows| == |s.rows|
    ensures Step(cfg, s, r).rows[k] != s.rows[k] ==> PauseElapsed(cfg.limits, s.ledger, r.resetCheck)
  {
    PauseMeaning(cfg.limits, s.ledger, r.resetCheck);
  }

  // ----- Throttled rows over a run -----

  lemma {:induction false} RunExtendsLog(cfg: Config, s: State, tape: seq<Round>)
    ensures s.log <= Run(cfg, s, tape).log
    decreases |tape|
  {
    if tape != [] && !s.stopped {
      StepLog(cfg, s, tape[0]);
      RunExtendsLog(cfg, Step(cfg, s, tape[0]), tape[1..]);
    }
  }

  ghost predicate ChecksBefore(tape: seq<Round>, until: int) {
    forall t :: 0 <= t < |tape| ==> tape[t].resetCheck < until
  }

  lemma {:induction false} ChecksAreOrdered(tape: seq<Round>, from: int, until: int)
    requires ValidTape(tape, from) && tape != [] && tape[|tape| - 1].resetCheck < until
    ensures from < until && ChecksBefore(tape, until)
    decreases |tape|
  {
    EndOfIsLate(tape[0], from);
    if |tape| > 1 {
      ChecksAreOrdered(tape[1..], EndOf(tape[0]), until);
      forall t | 0 <= t < |tape|
        ensures tape[t].resetCheck < until
      {
        if t > 0 {
          assert tape[t] == tape[1..][t - 1];
        }
      }
    }
  }

  lemma StepKeepsThrottled(cfg: Config, s: State, r: Round, k: nat, e: nat)
    requires k < |s.rows| && s.rows[k].status == Throttled
    requires e < |s.ledger| && s.ledger[e].was420 && s.ledger[e].at <= r.resetCheck < s.ledger[e].at + Pause(cfg.limits)
    ensures var s' := Step(cfg, s, r);
            k < |s'.rows| && s'.rows[k] == s.rows[k] && s.ledger <= s'.ledger
  {
    PauseMeaning(cfg.limits, s.ledger, r.resetCheck);
  }

  lemma {:induction false} StaysThrottled(cfg: Config, s: State, tape: seq<Round>, from: int, k: nat, e: nat)
    requires ValidTape(tape, from)
    requires k < |s.rows| && s.rows[k].status == Throttled
    requires e < |s.ledger| && s.ledger[e].was420 && s.ledger[e].at <= from
    requires ChecksBefore(tape, s.ledger[e].at + Pause(cfg.limits))
    ensures k < |Run(cfg, s, tape).rows| && Run(cfg, s, tape).rows[k] == s.rows[k]
    decreases |tape|
  {
    if tape != [] && !s.stopped {
      EndOfIsLate(tape[0], from);
      StepKeepsThrottled(cfg, s, tape[0], k, e);
      assert forall t :: 0 <= t < |tape[1..]| ==> tape[1..][t] == tape[t + 1];
      StaysThrottled(cfg, Step(cfg, s, tape[0]), tape[1..], EndOf(tape[0]), k, e);
    }
  }

  /** The time of the 420 that ended an import. */
  function TimeOf420(imp: Import): int {
    if imp.entries == [] then imp.start else imp.entries[|imp.entries| - 1].at
  }

  /** Right after a throttled import its row is throttled and its 420 is the last in the ledger. */
  lemma JustThrottled(cfg: Config, s: State, r: Round, from: int)
    requires Timed(r, from) && Step(cfg, s, r).log != s.log
    requires var log := Step(cfg, s, r).log; log != [] && log[|log| - 1].stats.throttled
    ensures var s' := Step(cfg, s, r);
            var imp := s'.log[|s'.log| - 1];
            && imp.row < |s'.rows| && s'.rows[imp.row].status == Throttled
            && s'.ledger != [] && s'.ledger[|s'.ledger| - 1] == Entry(TimeOf420(imp), true)
            && TimeOf420(imp) == EndOf(r)
  {
    StepLog(cfg, s, r);
  }

  lemma {:induction false} ThrottledSince(cfg: Config, s: State, tape: seq<Round>, from: int, i: nat)
    requires ValidTape(tape, from)
    requires |s.log| <= i < |Run(cfg, s, tape).log|
    requires var imp := Run(cfg, s, tape).log[i];
             imp.stats.throttled && ChecksBefore(tape, TimeOf420(imp) + Pause(cfg.limits))
    ensures var s' := Run(cfg, s, tape);
            s'.log[i].row < |s'.rows| && s'.rows[s'.log[i].row].status == Throttled
    decreases |tape|
  {
    var s1 := Step(cfg, s, tape[0]);
    assert forall t :: 0 <= t < |tape[1..]| ==> tape[1..][t] == tape[t + 1];
    if |s1.log| <= i {
      ThrottledSince(cfg, s1, tape[1..], EndOf(tape[0]), i);
    } else {
      StepLog(cfg, s, tape[0]);
      RunExtendsLog(cfg, s1, tape[1..]);
      ThrottledHere(cfg, s, tape[0], tape[1..], from);
    }
  }

  lemma ThrottledHere(cfg: Config, s: State, r: Round, rest: seq<Round>, from: int)
    requires Timed(r, from) && ValidTape(rest, EndOf(r)) && Step(cfg, s, r).log != s.log
    requires var log := Step(cfg, s, r).log;
             log != [] && log[|log| - 1].stats.throttled
             && ChecksBefore(rest, TimeOf420(log[|log| - 1]) + Pause(cfg.limits))
    ensures var s1, s' := Step(cfg, s, r), Run(cfg, Step(cfg, s, r), rest);
            var k := s1.log[|s1.log| - 1].row;
            k < |s'.rows| && s'.rows[k].status == Throttled
  {
    var s1 := Step(cfg, s, r);
    JustThrottled(cfg, s, r, from);
    StaysThrottled(cfg, s1, rest, EndOf(r), s1.log[|s1.log| - 1].row, |s1.ledger| - 1);
  }

  /**
   * In every run, a row that import `i` left throttled is still throttled after any
   * later round whose re-queueing check came before that import's 420 plus the pause.
   */
  lemma ThrottledUntilPauseEnds(cfg: Config, rows: seq<QueueRow>, base: Ledger, tape: seq<Round>, from: int, i: nat)
    requires ValidTape(tape, from) && i < |Run(cfg, Start(rows, base), tape).log|
    requires var imp := Run(cfg, Start(rows, base), tape).log[i];
             imp.stats.throttled && tape[|tape| - 1].resetCheck < TimeOf420(imp) + cfg.limits.pause
    ensures var s := Run(cfg, Start(rows, base), tape);
            s.log[i].row < |s.rows| && s.rows[s.log[i].row].status == Throttled
  {
    var imp := Run(cfg, Start(rows, base), tape).log[i];
    ChecksAreOrdered(tape, from, TimeOf420(imp) + Pause(cfg.limits));
    ThrottledSince(cfg, Start(rows, base), tape, from, i);
  }
}
