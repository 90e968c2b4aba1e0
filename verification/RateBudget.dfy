/**
 * The request budget (p97_comicvine_rate_budget.py). Times are whole microseconds,
 * the resolution of the original's clock; `now` is always an argument.
 */
module RateBudget {
  import opened Common

  datatype Entry = Entry(at: int, was420: bool)

  type Ledger = seq<Entry>

  datatype Limits = Limits(maxPerHour: int, spacing: int, pause: int)

  const HOUR := 3_600_000_000

  function Cap(l: Limits): int { if l.maxPerHour > 1 then l.maxPerHour else 1 }

  function Spacing(l: Limits): nat { if l.spacing > 0 then l.spacing else 0 }

  function Pause(l: Limits): nat { if l.pause > 0 then l.pause else 0 }

  function CountSince(ledger: Ledger, cutoff: int): nat {
    if ledger == [] then 0
    else
      var n := |ledger| - 1;
      CountSince(ledger[..n], cutoff) + if ledger[n].at >= cutoff then 1 else 0
  }

  function RequestsLastHour(ledger: Ledger, now: int): nat {
    CountSince(ledger, now - HOUR)
  }

  /** The latest time among the entries (of 420 responses only, if asked). */
  function Latest(ledger: Ledger, only420: bool): (r: Option<int>)
    ensures r.None? ==> forall i :: 0 <= i < |ledger| ==> only420 && !ledger[i].was420
    ensures r.Some? ==> forall i :: 0 <= i < |ledger| && (only420 ==> ledger[i].was420) ==> ledger[i].at <= r.value
    ensures r.Some? ==> exists i :: 0 <= i < |ledger| && (only420 ==> ledger[i].was420) && ledger[i].at == r.value
  {
    if ledger == [] then None
    else
      var n := |ledger| - 1;
      var r := Latest(ledger[..n], only420);
      if only420 && !ledger[n].was420 then r
      else if r.Some? && r.value >= ledger[n].at then r
      else Some(ledger[n].at)
  }

  /** The earliest time at or after the cutoff. */
  function OldestSince(ledger: Ledger, cutoff: int): (r: Option<int>)
    ensures r.None? ==> forall i :: 0 <= i < |ledger| ==> ledger[i].at < cutoff
    ensures r.Some? ==> r.value >= cutoff && forall i :: 0 <= i < |ledger| && ledger[i].at >= cutoff ==> r.value <= ledger[i].at
    ensures r.Some? ==> exists i :: 0 <= i < |ledger| && ledger[i].at == r.value
  {
    if ledger == [] then None
    else
      var n := |ledger| - 1;
      var r := OldestSince(ledger[..n], cutoff);
      if ledger[n].at < cutoff then r
      else if r.Some? && r.value <= ledger[n].at then r
      else Some(ledger[n].at)
  }

  function PauseUntil(l: Limits, ledger: Ledger): Option<int> {
    match Latest(ledger, true)
    case Some(last) => if Pause(l) == 0 then None else Some(last + Pause(l))
    case None => None
  }

  predicate ShouldPause(l: Limits, ledger: Ledger, now: int) {
    match PauseUntil(l, ledger)
    case Some(until) => now < until
    case None => false
  }

  function Max(a: int, b: int): int { if a > b then a else b }

  function SecondsUntilNext(l: Limits, ledger: Ledger, now: int): nat {
    if ShouldPause(l, ledger, now) then PauseUntil(l, ledger).value - now
    else
      var last := Latest(ledger, false);
      var spacingWait := if last.Some? && Spacing(l) > 0 then Spacing(l) - (now - last.value) else 0;
      var oldest := OldestSince(ledger, now - HOUR);
      var hourWait :=
        if RequestsLastHour(ledger, now) < Cap(l) then 0
        else if oldest.Some? then oldest.value + HOUR - now
        else 60_000_000;
      Max(0, Max(spacingWait, hourWait))
  }

  datatype Decision = Ok | PausedFor420 | HourlyBudgetExhausted | MinSpacing

  function Evaluate(l: Limits, ledger: Ledger, now: int): Decision {
    if ShouldPause(l, ledger, now) then PausedFor420
    else if RequestsLastHour(ledger, now) >= Cap(l) then HourlyBudgetExhausted
    else if SecondsUntilNext(l, ledger, now) > 0 then MinSpacing
    else Ok
  }

  ghost predicate PauseElapsed(l: Limits, ledger: Ledger, now: int) {
    l.pause > 0 ==> forall i :: 0 <= i < |ledger| && ledger[i].was420 ==> now - ledger[i].at >= l.pause
  }

  ghost predicate SpacingElapsed(l: Limits, ledger: Ledger, now: int) {
    l.spacing > 0 ==> forall i :: 0 <= i < |ledger| ==> now - ledger[i].at >= l.spacing
  }

  /** The entries of a span of time, both ends included. */
  function Between(ledger: Ledger, lo: int, hi: int): set<nat> {
    set i: nat | i < |ledger| && lo <= ledger[i].at <= hi
  }

  /** The entries at most one hour old (an hour is 3600 seconds), or newer than `now`. */
  function InLastHour(ledger: Ledger, now: int): set<nat> {
    set i: nat | i < |ledger| && now - ledger[i].at <= 3600 * 1_000_000
  }

  lemma SetGrows(s: set<nat>, s': set<nat>, n: nat, member: bool)
    requires n !in s && s' == s + if member then {n} else {}
    ensures |s'| == |s| + if member then 1 else 0
  {
  }

  lemma {:induction false} CountSinceMeaning(ledger: Ledger, now: int)
    ensures RequestsLastHour(ledger, now) == |InLastHour(ledger, now)|
  {
    if ledger != [] {
      var n := |ledger| - 1;
      CountSinceMeaning(ledger[..n], now);
      SetGrows(InLastHour(ledger[..n], now), InLastHour(ledger, now), n, ledger[n].at >= now - HOUR);
    }
  }

  /** A pause ends exactly when the configured window after every 420 has elapsed. */
  lemma PauseMeaning(l: Limits, ledger: Ledger, now: int)
    ensures !ShouldPause(l, ledger, now) <==> PauseElapsed(l, ledger, now)
  {
    var last := Latest(ledger, true);
    if last.Some? {
      var i :| 0 <= i < |ledger| && ledger[i].was420 && ledger[i].at == last.value;
    }
  }

  lemma OkMeaning(l: Limits, ledger: Ledger, now: int)
    ensures Evaluate(l, ledger, now) == Ok
            <==> && PauseElapsed(l, ledger, now)
                 && RequestsLastHour(ledger, now) < Cap(l)
                 && SpacingElapsed(l, ledger, now)
  {
    PauseMeaning(l, ledger, now);
    var last := Latest(ledger, false);
    if last.Some? {
      var i :| 0 <= i < |ledger| && ledger[i].at == last.value;
    }
  }

  /**
   * What the budget demands before it lets a request start, in the configured
   * numbers: neither more nor less.
   */
  lemma AllowedMeaning(l: Limits, ledger: Ledger, now: int)
    ensures Evaluate(l, ledger, now) == Ok
            <==> && (l.pause > 0 ==> forall i :: 0 <= i < |ledger| && ledger[i].was420 ==> now - ledger[i].at >= l.pause)
                 && |InLastHour(ledger, now)| < (if l.maxPerHour < 1 then 1 else l.maxPerHour)
                 && (l.spacing > 0 ==> forall i :: 0 <= i < |ledger| ==> now - ledger[i].at >= l.spacing)
  {
    OkMeaning(l, ledger, now);
    CountSinceMeaning(ledger, now);
  }

  /** The reason given: the pause before the hour, the hour before the spacing. */
  lemma ReasonMeaning(l: Limits, ledger: Ledger, now: int)
    ensures Evaluate(l, ledger, now) == PausedFor420 <==> !PauseElapsed(l, ledger, now)
    ensures Evaluate(l, ledger, now) == HourlyBudgetExhausted
            <==> PauseElapsed(l, ledger, now) && |InLastHour(ledger, now)| >= (if l.maxPerHour < 1 then 1 else l.maxPerHour)
  {
    PauseMeaning(l, ledger, now);
    CountSinceMeaning(ledger, now);
  }

  lemma {:induction false} CountSinceMonotone(ledger: Ledger, lo: int, hi: int)
    requires lo <= hi
    ensures CountSince(ledger, hi) <= CountSince(ledger, lo)
  {
    if ledger != [] {
      CountSinceMonotone(ledger[..|ledger| - 1], lo, hi);
    }
  }

  /** The first moment from `now` on at which the spacing to the latest entry has passed. */
  function NextSpaced(l: Limits, ledger: Ledger, now: int): int {
    var last := Latest(ledger, false);
    if last.Some? && Spacing(l) > 0 then Max(now, last.value + Spacing(l)) else now
  }

  lemma {:induction false} SameCountUpTo(ledger: Ledger, cutoff: int)
    ensures OldestSince(ledger, cutoff).None? ==> CountSince(ledger, cutoff) == 0
    ensures forall c :: OldestSince(ledger, cutoff).Some? && cutoff <= c <= OldestSince(ledger, cutoff).value
                        ==> CountSince(ledger, c) == CountSince(ledger, cutoff)
  {
    if ledger != [] {
      var n := |ledger| - 1;
      SameCountUpTo(ledger[..n], cutoff);
      if OldestSince(ledger[..n], cutoff).None? {
        forall c | cutoff <= c
          ensures CountSince(ledger[..n], c) == 0
        {
          CountSinceMonotone(ledger[..n], cutoff, c);
        }
      }
    }
  }

  /** Outside a pause, what is refused at the end of the reported wait is refused for the hour. */
  lemma AtReportedTime(l: Limits, ledger: Ledger, now: int)
    requires !ShouldPause(l, ledger, now)
    ensures Evaluate(l, ledger, now + SecondsUntilNext(l, ledger, now)) == Ok
            <==> CountSince(ledger, NextSpaced(l, ledger, now) - HOUR) < Cap(l)
  {
    var next := now + SecondsUntilNext(l, ledger, now);
    PauseMeaning(l, ledger, now);
    OkMeaning(l, ledger, next);
    SameCountUpTo(ledger, now - HOUR);
    CountSinceMonotone(ledger, now - HOUR, NextSpaced(l, ledger, now) - HOUR);
    assert next >= NextSpaced(l, ledger, now);
  }

  lemma AllowedLater(l: Limits, ledger: Ledger, at: int, later: int)
    requires Evaluate(l, ledger, at) == Ok && at <= later
    ensures Evaluate(l, ledger, later) == Ok
  {
    OkMeaning(l, ledger, at);
    CountSinceMonotone(ledger, at - HOUR, later - HOUR);
    OkMeaning(l, ledger, later);
  }

  /**
   * With no pause on and no new entries, the reported wait is enough -- at its end
   * and at any later time -- if and only if the entries of the last hour, as counted
   * when the spacing has passed, are below the cap.
   */
  lemma WaitSufficesIff(l: Limits, ledger: Ledger, now: int)
    requires !ShouldPause(l, ledger, now)
    ensures (forall later :: later >= now + SecondsUntilNext(l, ledger, now) ==> Evaluate(l, ledger, later) == Ok)
            <==> CountSince(ledger, NextSpaced(l, ledger, now) - HOUR) < Cap(l)
    ensures Evaluate(l, ledger, now + SecondsUntilNext(l, ledger, now)) == Ok
            <==> CountSince(ledger, NextSpaced(l, ledger, now) - HOUR) < Cap(l)
  {
    AtReportedTime(l, ledger, now);
    var next := now + SecondsUntilNext(l, ledger, now);
    if Evaluate(l, ledger, next) == Ok {
      forall later | later >= next
        ensures Evaluate(l, ledger, later) == Ok
      {
        AllowedLater(l, ledger, next, later);
      }
    }
  }

  /** In particular it is enough while the hourly budget has room. */
  lemma WaitSuffices(l: Limits, ledger: Ledger, now: int, later: int)
    requires !ShouldPause(l, ledger, now) && RequestsLastHour(ledger, now) < Cap(l)
    requires later >= now + SecondsUntilNext(l, ledger, now)
    ensures Evaluate(l, ledger, later) == Ok
  {
    WaitSufficesIff(l, ledger, now);
    CountSinceMonotone(ledger, now - HOUR, NextSpaced(l, ledger, now) - HOUR);
  }

  /** During a pause the reported wait ends with it, whatever spacing and hour still ask for. */
  lemma WaitDuringPause(l: Limits, ledger: Ledger, now: int)
    requires ShouldPause(l, ledger, now)
    ensures var until := PauseUntil(l, ledger).value;
            Evaluate(l, ledger, now + SecondsUntilNext(l, ledger, now)) == Ok
            <==> CountSince(ledger, until - HOUR) < Cap(l) && NextSpaced(l, ledger, until) == until
  {
    var until := PauseUntil(l, ledger).value;
    PauseMeaning(l, ledger, until);
    OkMeaning(l, ledger, until);
  }

  // A wait that is not enough: as many requests as the cap, all at the same moment.

  function FullLedger(n: nat): Ledger { seq(n, _ => Entry(0, false)) }

  lemma {:induction false} FullLedgerCounts(n: nat, cutoff: int)
    requires cutoff <= 0
    ensures CountSince(FullLedger(n), cutoff) == n
  {
    if n > 0 {
      FullLedgerCounts(n - 1, cutoff);
      assert FullLedger(n)[..n - 1] == FullLedger(n - 1);
    }
  }

  /**
   * Right after a burst that fills the hour, the reported wait is one hour (for any
   * spacing up to that) and the budget refuses again at its end: an entry exactly
   * one hour old still counts.
   */
  lemma HourlyWaitFallsShort(l: Limits)
    requires Spacing(l) <= HOUR
    ensures var ledger := FullLedger(Cap(l));
            && !ShouldPause(l, ledger, 0) && SecondsUntilNext(l, ledger, 0) == HOUR
            && Evaluate(l, ledger, HOUR) == HourlyBudgetExhausted
  {
    var ledger := FullLedger(Cap(l));
    FullLedgerCounts(Cap(l), -HOUR);
    FullLedgerCounts(Cap(l), 0);
    PauseMeaning(l, ledger, 0);
    PauseMeaning(l, ledger, HOUR);
    assert ledger[0].at == 0;
  }
}
