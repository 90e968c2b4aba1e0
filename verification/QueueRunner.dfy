/**
 * The volume queue and its runner (p97_run_volume_queue.py, `run_queue`;
 * p97_volume_queue_service.py): one round of the loop as a state change, and the
 * loop itself. The clock readings and the importer's results come from a tape.
 */
module QueueRunner {
  import opened Common
  import opened RateBudget

  // ----- The queue table -----

  datatype Status = Pending | Importing | Imported | Exhausted | Failed | Throttled

  datatype QueueRow = QueueRow(
    id: int, priority: int, status: Status,
    issuesCreated: int, issuesUpdated: int, imagesCreated: int, apiRequests: int)

  predicate Before(a: QueueRow, b: QueueRow) {
    a.priority < b.priority || (a.priority == b.priority && a.id < b.id)
  }

  /** `select_next_pending`: the pending row first by priority, then id. */
  function SelectNext(rows: seq<QueueRow>): (r: Option<nat>)
    ensures r.Some? ==> r.value < |rows| && rows[r.value].status == Pending
    ensures r.Some? ==> forall j :: 0 <= j < |rows| && rows[j].status == Pending ==> !Before(rows[j], rows[r.value])
    ensures r.None? ==> forall j :: 0 <= j < |rows| ==> rows[j].status != Pending
  {
    if rows == [] then None
    else
      var n := |rows| - 1;
      match SelectNext(rows[..n])
      case Some(k) => if rows[n].status == Pending && Before(rows[n], rows[k]) then Some(n) else Some(k)
      case None => if rows[n].status == Pending then Some(n) else None
  }

  function Requeue(row: QueueRow): QueueRow {
    if row.status == Throttled then row.(status := Pending) else row
  }

  /** `reset_throttled_to_pending` */
  function ResetThrottled(rows: seq<QueueRow>): seq<QueueRow> {
    Map(Requeue, rows)
  }

  /** What the importer reports for one volume. */
  datatype Stats = Stats(
    created: nat, updated: nat, images: nat, requests: nat, throttled: bool, hasFailures: bool)

  function FinalStatus(st: Stats): Status {
    if st.throttled then Throttled else if st.hasFailures then Failed else Imported
  }

  /** `apply_import_result` */
  function ApplyResult(row: QueueRow, st: Stats): QueueRow {
    QueueRow(row.id, row.priority, FinalStatus(st),
             row.issuesCreated + st.created, row.issuesUpdated + st.updated,
             row.imagesCreated + st.images, row.apiRequests + st.requests)
  }

  // ----- The ledger -----

  /** How many ledger rows one import leaves: a throttled one leaves at least its 420. */
  function RecordCount(st: Stats): nat {
    if st.throttled && st.requests == 0 then 1 else st.requests
  }

  /** The ledger rows of one import, given the times at which they are written. */
  function EntriesOf(st: Stats, times: seq<int>): (r: seq<Entry>)
    ensures |r| == |times|
  {
    seq(|times|, i requires 0 <= i < |times| => Entry(times[i], st.throttled && i == |times| - 1))
  }

  /** `record_requests_for_import` */
  method RecordRequests(ledger: Ledger, st: Stats, times: seq<int>) returns (ledger': Ledger)
    requires |times| == RecordCount(st)
    ensures ledger' == ledger + EntriesOf(st, times)
  {
    ledger' := ledger;
    var n := st.requests;
    var k := 0;
    if st.throttled {
      while k < n - 1
        invariant 0 <= k <= |times| - 1
        invariant ledger' == ledger + EntriesOf(st, times)[..k]
      {
        ledger' := ledger' + [Entry(times[k], false)];
        k := k + 1;
      }
      ledger' := ledger' + [Entry(times[k], true)];
      assert EntriesOf(st, times) == EntriesOf(st, times)[..k] + [Entry(times[k], true)];
      return;
    }
    while k < n
      invariant 0 <= k <= n
      invariant ledger' == ledger + EntriesOf(st, times)[..k]
    {
      ledger' := ledger' + [Entry(times[k], false)];
      k := k + 1;
    }
    assert EntriesOf(st, times)[..k] == EntriesOf(st, times);
  }

  // ----- One round of the loop -----

  datatype Config = Config(limits: Limits, limit: Option<int>, watch: bool, dryRun: bool)

  /**
   * What one round meets: its clock readings, and what the importer would do
   * (None if it raises) with the times at which its requests would be recorded.
   */
  datatype Round = Round(
    resetCheck: int, pauseCheck: int, evaluateAt: int, result: Option<Stats>, times: seq<int>)

  predicate Sorted(times: seq<int>) {
    forall i, j :: 0 <= i < j < |times| ==> times[i] <= times[j]
  }

  /** The clock never runs backwards, and every recorded request has its time. */
  predicate Timed(r: Round, from: int) {
    && from <= r.resetCheck <= r.pauseCheck <= r.evaluateAt
    && Sorted([r.evaluateAt] + r.times)
    && (r.result.Some? ==> |r.times| == RecordCount(r.result.value))
  }

  function EndOf(r: Round): int {
    if r.times == [] then r.evaluateAt else r.times[|r.times| - 1]
  }

  predicate ValidTape(tape: seq<Round>, from: int) {
    tape != [] ==> Timed(tape[0], from) && ValidTape(tape[1..], EndOf(tape[0]))
  }

  datatype RunStatus =
    | Idle | Paused420 | RateLimited | QueueEmpty | DryRun | Running | LimitReached | Raised

  /** A completed import: its queue row, when it was let start, its result and ledger rows. */
  datatype Import = Import(row: nat, start: int, stats: Stats, entries: seq<Entry>)

  datatype State = State(
    rows: seq<QueueRow>, ledger: Ledger,
    processed: nat, created: nat, updated: nat, images: nat, requests: nat,
    status: RunStatus, stopped: bool,
    log: seq<Import>)

  function Start(rows: seq<QueueRow>, ledger: Ledger): State {
    State(rows, ledger, 0, 0, 0, 0, 0, Idle, false, [])
  }

  /** Rows after the re-queueing check at the top of a round. */
  function Requeued(cfg: Config, s: State, r: Round): seq<QueueRow> {
    if ShouldPause(cfg.limits, s.ledger, r.resetCheck) then s.rows else ResetThrottled(s.rows)
  }

  predicate LimitHit(cfg: Config, processed: nat) {
    cfg.limit.Some? && processed >= cfg.limit.value
  }

  /** The state after importing row `k`, `rows` being the queue as the round found it. */
  function AfterImport(cfg: Config, s: State, r: Round, rows: seq<QueueRow>, k: nat, st: Stats): State
    requires k < |rows|
  {
    var entries := EntriesOf(st, r.times);
    var limitHit := !st.throttled && LimitHit(cfg, s.processed + 1);
    State(rows[k := ApplyResult(rows[k], st)], s.ledger + entries,
          s.processed + 1, s.created + st.created, s.updated + st.updated, s.images + st.images,
          s.requests + st.requests,
          if st.throttled then Paused420 else if limitHit then LimitReached else Running,
          if st.throttled then !cfg.watch else limitHit,
          s.log + [Import(k, r.evaluateAt, st, entries)])
  }

  function Step(cfg: Config, s: State, r: Round): State {
    var rows := Requeued(cfg, s, r);
    var s1 := s.(rows := rows);
    if ShouldPause(cfg.limits, s.ledger, r.pauseCheck) then s1.(status := Paused420, stopped := !cfg.watch)
    else if Evaluate(cfg.limits, s.ledger, r.evaluateAt) != Ok then s1.(status := RateLimited, stopped := !cfg.watch)
    else
      match SelectNext(rows)
      case None => s1.(status := QueueEmpty, stopped := !cfg.watch)
      case Some(k) =>
        if cfg.dryRun then s1.(status := DryRun, stopped := true)
        else
          match r.result
          case None => s1.(rows := rows[k := rows[k].(status := Importing)], status := Raised, stopped := true)
          case Some(st) => AfterImport(cfg, s, r, rows, k, st)
  }

  /** A run as far as the tape goes: every finite beginning of every run is one. */
  function Run(cfg: Config, s: State, tape: seq<Round>): State
    decreases |tape|
  {
    if tape == [] || s.stopped then s else Run(cfg, Step(cfg, s, tape[0]), tape[1..])
  }

  // ----- The loop -----

  lemma RunStep(cfg: Config, s: State, tape: seq<Round>, t: nat)
    requires t < |tape| && !s.stopped
    ensures Run(cfg, s, tape[t..]) == Run(cfg, Step(cfg, s, tape[t]), tape[t + 1..])
  {
    assert tape[t..][0] == tape[t] && tape[t..][1..] == tape[t + 1..];
  }

  /** `apply_import_result`, given whether the import counts as failed. */
  method StoreResult(row: QueueRow, st: Stats, failed: bool) returns (row': QueueRow)
    requires failed == (st.hasFailures && !st.throttled)
    ensures row' == ApplyResult(row, st)
  {
    row' := row.(issuesCreated := row.issuesCreated + st.created, issuesUpdated := row.issuesUpdated + st.updated,
                 imagesCreated := row.imagesCreated + st.images, apiRequests := row.apiRequests + st.requests);
    if st.throttled {
      row' := row'.(status := Throttled);
    } else if failed {
      row' := row'.(status := Failed);
    } else {
      row' := row'.(status := Imported);
    }
  }

  /** Mark the row, record the requests, store the result. */
  method ImportVolume(rows: seq<QueueRow>, ledger: Ledger, k: nat, st: Stats, times: seq<int>)
    returns (rows': seq<QueueRow>, ledger': Ledger)
    requires k < |rows| && |times| == RecordCount(st)
    ensures rows' == rows[k := ApplyResult(rows[k], st)]
    ensures ledger' == ledger + EntriesOf(st, times)
  {
    rows' := rows[k := rows[k].(status := Importing)];
    ledger' := RecordRequests(ledger, st, times);
    var failed := st.hasFailures && !st.throttled;
    var row := StoreResult(rows'[k], st, failed);
    rows' := rows'[k := row];
  }

  /** One pass through the body of the loop. */
  method RunRound(cfg: Config, s: State, r: Round) returns (s': State)
    requires r.result.Some? ==> |r.times| == RecordCount(r.result.value)
    ensures s' == Step(cfg, s, r)
  {
    s' := s;
    // Re-queue throttled rows only once the pause window has elapsed.
    if !ShouldPause(cfg.limits, s.ledger, r.resetCheck) {
      s' := s'.(rows := ResetThrottled(s'.rows));
    }
    if ShouldPause(cfg.limits, s'.ledger, r.pauseCheck) {
      return s'.(status := Paused420, stopped := !cfg.watch);
    }
    var decision := Evaluate(cfg.limits, s'.ledger, r.evaluateAt);
    if decision != Ok {
      return s'.(status := RateLimited, stopped := !cfg.watch);
    }
    var next := SelectNext(s'.rows);
    if next.None? {
      return s'.(status := QueueEmpty, stopped := !cfg.watch);
    }
    if cfg.dryRun {
      return s'.(status := DryRun, stopped := true);
    }
    var k := next.value;
    if r.result.None? {
      return s'.(rows := s'.rows[k := s'.rows[k].(status := Importing)], status := Raised, stopped := true);
    }
    var st := r.result.value;
    var rows, ledger := ImportVolume(s'.rows, s'.ledger, k, st, r.times);
    s' := s'.(rows := rows, ledger := ledger, processed := s'.processed + 1,
              created := s'.created + st.created, updated := s'.updated + st.updated,
              images := s'.images + st.images, requests := s'.requests + st.requests,
              log := s'.log + [Import(k, r.evaluateAt, st, EntriesOf(st, r.times))]);
    if st.throttled {
      return s'.(status := Paused420, stopped := !cfg.watch);
    }
    if LimitHit(cfg, s'.processed) {
      return s'.(status := LimitReached, stopped := true);
    }
    s' := s'.(status := Running, stopped := false);
  }

  method RunQueue(cfg: Config, rows: seq<QueueRow>, ledger: Ledger, tape: seq<Round>) returns (s: State)
    requires forall t :: 0 <= t < |tape| && tape[t].result.Some? ==> |tape[t].times| == RecordCount(tape[t].result.value)
    ensures s == Run(cfg, Start(rows, ledger), tape)
  {
    s := Start(rows, ledger);
    var t := 0;
    assert tape[0..] == tape;
    while t < |tape| && !s.stopped
      invariant 0 <= t <= |tape|
      invariant Run(cfg, s, tape[t..]) == Run(cfg, Start(rows, ledger), tape)
    {
      RunStep(cfg, s, tape, t);
      s := RunRound(cfg, s, tape[t]);
      t := t + 1;
    }
  }
}
