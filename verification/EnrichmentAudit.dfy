/**
 * The audit after an enrichment batch (p103_gcd_enrichment_write_batch_audit.py and
 * its helpers): the fallback to rollback snapshots, the count checks, and the
 * agreement of the fast and the full mode.
 */
module EnrichmentAudit {
  import opened Common

  datatype Written = Written(issueId: Option<int>, insertedUpc: bool, barcode: string)

  /** `written` is [] when the report has none; the other fields are None when absent. */
  datatype Report = Report(
    written: seq<Written>, updatedIssues: Option<int>, insertedUpcs: Option<int>, jobUpcIds: Option<seq<int>>)

  /** One issue id (if any) per snapshot; `upcIds` is None when the key is absent. */
  datatype Rollback = Rollback(snapshots: seq<Option<int>>, upcIds: Option<seq<int>>)

  function GetOr<T>(o: Option<T>, default: T): T {
    match o case Some(v) => v case None => default
  }

  // ----- The rows an audit works on -----

  function SnapshotRows(snapshots: seq<Option<int>>): seq<Written> {
    if snapshots == [] then []
    else (if snapshots[0].Some? then [Written(snapshots[0], false, "")] else []) + SnapshotRows(snapshots[1..])
  }

  /** `_effective_written_rows`: without written rows, one row per snapshot if their number fits. */
  function Effective(r: Report, rb: Rollback): seq<Written> {
    var expected := GetOr(r.updatedIssues, 0);
    if r.written != [] then r.written
    else if expected > 0 && |rb.snapshots| == expected then SnapshotRows(rb.snapshots)
    else r.written
  }

  function ExpectedUpdated(r: Report, rb: Rollback): int { GetOr(r.updatedIssues, |Effective(r, rb)|) }

  function ExpectedUpcs(r: Report): int { GetOr(r.insertedUpcs, 0) }

  function UpcFlags(written: seq<Written>): nat { Count((w: Written) => w.insertedUpc, written) }

  datatype Failure =
    | RowCount(rows: nat, updated: int)
    | FlagCount(flags: nat, upcs: int)
    | NoSnapshots
    | UpcIdCount(ids: nat, upcs: int)

  function When(condition: bool, f: Failure): seq<Failure> { if condition then [f] else [] }

  function CountFailures(r: Report, rb: Rollback): seq<Failure> {
    var written := Effective(r, rb);
    var (updated, upcs, ids) := (ExpectedUpdated(r, rb), ExpectedUpcs(r), |GetOr(rb.upcIds, [])|);
    When(|written| != updated, RowCount(|written|, updated))
    + When(UpcFlags(written) != upcs, FlagCount(UpcFlags(written), upcs))
    + When(rb.snapshots == [] && updated > 0, NoSnapshots)
    + When(ids != 0 && ids != upcs, UpcIdCount(ids, upcs))
  }

  /** `_confirm_report_counts` */
  method ConfirmReportCounts(r: Report, rb: Rollback) returns (failures: seq<Failure>)
    ensures failures == CountFailures(r, rb)
  {
    var written := Effective(r, rb);
    failures := [];
    var updated, upcs := ExpectedUpdated(r, rb), ExpectedUpcs(r);
    var flags := UpcFlags(written);
    if |written| != updated {
      failures := failures + [RowCount(|written|, updated)];
    }
    if flags != upcs {
      failures := failures + [FlagCount(flags, upcs)];
    }
    if rb.snapshots == [] && updated > 0 {
      failures := failures + [NoSnapshots];
    }
    var ids := GetOr(rb.upcIds, []);
    if ids != [] && |ids| != upcs {
      failures := failures + [UpcIdCount(|ids|, upcs)];
    }
  }

  lemma CountsOkMeaning(r: Report, rb: Rollback)
    ensures CountFailures(r, rb) == []
            <==> && |Effective(r, rb)| == ExpectedUpdated(r, rb)
                 && UpcFlags(Effective(r, rb)) == ExpectedUpcs(r)
                 && (rb.snapshots == [] ==> ExpectedUpdated(r, rb) <= 0)
                 && (GetOr(rb.upcIds, []) != [] ==> |GetOr(rb.upcIds, [])| == ExpectedUpcs(r))
  {
  }

  /** What the fast mode hands on: the effective rows and the expected numbers, re-packed. */
  function Repack(r: Report, rb: Rollback): Report {
    Report(Effective(r, rb), Some(ExpectedUpdated(r, rb)), Some(ExpectedUpcs(r)), None)
  }

  /** Falling back a second time changes nothing. */
  lemma EffectiveIsIdempotent(r: Report, rb: Rollback)
    ensures Effective(Repack(r, rb), rb) == Effective(r, rb)
  {
  }

  /** Fast and full mode find the same count failures in every report. */
  lemma SameCountFailures(r: Report, rb: Rollback)
    ensures CountFailures(Repack(r, rb), rb) == CountFailures(r, rb)
  {
    EffectiveIsIdempotent(r, rb);
  }

  lemma {:induction false} SnapshotRowsCount(snapshots: seq<Option<int>>)
    ensures |SnapshotRows(snapshots)| <= |snapshots|
    ensures |SnapshotRows(snapshots)| == |snapshots|
            <==> forall i :: 0 <= i < |snapshots| ==> snapshots[i].Some?
    ensures UpcFlags(SnapshotRows(snapshots)) == 0
  {
    if snapshots != [] {
      SnapshotRowsCount(snapshots[1..]);
      var head := if snapshots[0].Some? then [Written(snapshots[0], false, "")] else [];
      CountAppend((w: Written) => w.insertedUpc, head, SnapshotRows(snapshots[1..]));
      if forall i :: 0 <= i < |snapshots[1..]| ==> snapshots[1..][i].Some? {
        forall i | 1 <= i < |snapshots|
          ensures snapshots[i].Some?
        {
          assert snapshots[i] == snapshots[1..][i - 1];
        }
      }
    }
  }

  /**
   * When the rows come from the snapshots, the counts are in order exactly when
   * every snapshot carries an id and no inserted UPC is reported or recorded.
   */
  lemma FallbackCounts(r: Report, rb: Rollback)
    requires r.written == [] && GetOr(r.updatedIssues, 0) > 0 && |rb.snapshots| == GetOr(r.updatedIssues, 0)
    ensures CountFailures(r, rb) == []
            <==> && (forall i :: 0 <= i < |rb.snapshots| ==> rb.snapshots[i].Some?)
                 && ExpectedUpcs(r) == 0 && GetOr(rb.upcIds, []) == []
  {
    SnapshotRowsCount(rb.snapshots);
    CountsOkMeaning(r, rb);
  }

  // ----- Checks against the catalog -----

  function IdsOf(written: seq<Written>): set<int> {
    set w | w in written && w.issueId.Some? && w.issueId.value != 0 :: w.issueId.value
  }

  /** `fetch_existing_catalog_issue_ids`: in batches, the same for every batch size. */
  method FetchExisting(catalog: set<int>, ids: seq<int>, batchSize: nat) returns (found: set<int>)
    requires batchSize >= 1
    ensures found == (set id | id in ids) * catalog
  {
    found := {};
    var start := 0;
    while start < |ids|
      invariant 0 <= start <= |ids|
      invariant found == (set id | id in ids[..start]) * catalog
    {
      var end := if start + batchSize < |ids| then start + batchSize else |ids|;
      var batch := set id | id in ids[start..end];
      found := found + (batch * catalog);
      assert ids[..end] == ids[..start] + ids[start..end];
      start := end;
    }
    assert ids[..start] == ids;
  }

  // ----- Inserted barcodes -----

  predicate Counts(norm: string -> string, w: Written) {
    w.insertedUpc && w.barcode != "" && norm(w.barcode) != ""
  }

  ghost predicate RepeatsBarcode(norm: string -> string, written: seq<Written>) {
    exists i, j :: 0 <= i < j < |written| && Counts(norm, written[i]) && Counts(norm, written[j])
                   && norm(written[i].barcode) == norm(written[j].barcode)
  }

  /** `duplicate_barcodes_in_job_inserts`, whatever the normalisation does. */
  method DuplicateBarcodes(norm: string -> string, written: seq<Written>) returns (duplicates: seq<string>)
    ensures duplicates != [] <==> RepeatsBarcode(norm, written)
  {
    duplicates := [];
    var seen: set<string> := {};
    var k := 0;
    while k < |written|
      invariant 0 <= k <= |written|
      invariant forall b :: b in seen <==> exists i :: 0 <= i < k && Counts(norm, written[i]) && norm(written[i].barcode) == b
      invariant duplicates != [] <==> RepeatsBarcode(norm, written[..k])
    {
      var w := written[k];
      ghost var before := written[..k];
      ghost var now := written[..k + 1];
      assert forall i :: 0 <= i < k ==> now[i] == before[i];
      if Counts(norm, w) {
        var n := norm(w.barcode);
        if n in seen {
          duplicates := duplicates + [n];
          var i :| 0 <= i < k && Counts(norm, written[i]) && norm(written[i].barcode) == n;
          assert now[i] == written[i] && now[k] == w;
        } else {
          seen := seen + {n};
        }
      }
      k := k + 1;
    }
    assert written[..k] == written;
  }

  /** The catalog: issue ids, and the issue of the UPC row found for a normalised barcode. */
  datatype Catalog = Catalog(issues: set<int>, owners: map<string, Option<int>>)

  /** An inserted barcode has no UPC row, or one of another issue. */
  predicate Mismatched(catalog: Catalog, norm: string -> string, w: Written) {
    w.insertedUpc && w.barcode != "" &&
    var n := norm(w.barcode);
    n !in catalog.owners || GetOr(catalog.owners[n], 0) != GetOr(w.issueId, 0)
  }

  predicate SomeMismatch(catalog: Catalog, norm: string -> string, written: seq<Written>) {
    exists w <- written :: Mismatched(catalog, norm, w)
  }

  /** The per-row check of `run_full_audit`: the issue ids whose stored UPC disagrees. */
  method VerifyUpcs(catalog: Catalog, norm: string -> string, written: seq<Written>) returns (bad: seq<int>)
    ensures bad != [] <==> SomeMismatch(catalog, norm, written)
  {
    bad := [];
    for k := 0 to |written|
      invariant bad != [] <==> SomeMismatch(catalog, norm, written[..k])
    {
      assert written[..k + 1] == written[..k] + [written[k]];
      if Mismatched(catalog, norm, written[k]) {
        assert written[k] in written[..k + 1];
        bad := bad + [GetOr(written[k].issueId, 0)];
      }
    }
    assert written[..|written|] == written;
  }

  /** `resolve_job_upc_audit_fields`: whether inserts are tracked, and how many were made. */
  function JobUpcs(r: Report, rb: Rollback): (bool, Option<nat>) {
    match (r.jobUpcIds, rb.upcIds)
    case (Some(ids), _) => (true, Some(|ids|))
    case (None, Some(ids)) => (true, Some(|ids|))
    case (None, None) => (false, if r.written == [] then None else Some(UpcFlags(r.written)))
  }

  /** What else an audit meets: its sampled barcode lookups and the report's errors. */
  datatype Outcome = Outcome(lookupsOk: bool, errors: nat)

  const ERROR_LIMIT := 25

  predicate JobCountOk(tracks: bool, count: Option<nat>, expected: int) {
    tracks && count.Some? ==> count.value == expected
  }

  /** The fast mode counts inserts on the re-packed report, which lists no ids of its own. */
  predicate FastJobOk(r: Report, rb: Rollback) {
    var fast := JobUpcs(Repack(r, rb), rb).1;
    var (tracks, own) := JobUpcs(r, rb);
    JobCountOk(tracks, if fast.Some? then fast else own, ExpectedUpcs(r))
  }

  predicate FullJobOk(r: Report, rb: Rollback) {
    var (tracks, own) := JobUpcs(r, rb);
    JobCountOk(tracks, own, ExpectedUpcs(r))
  }

  ghost predicate CommonChecks(r: Report, rb: Rollback, catalog: Catalog, norm: string -> string, o: Outcome) {
    && CountFailures(r, rb) == []
    && |IdsOf(Effective(r, rb)) * catalog.issues| == ExpectedUpdated(r, rb)
    && !RepeatsBarcode(norm, Effective(r, rb)) && o.lookupsOk && o.errors <= ERROR_LIMIT
  }

  /** The overall verdict: `build_overall_assertion_failures` finds nothing. */
  ghost predicate FastPass(r: Report, rb: Rollback, catalog: Catalog, norm: string -> string, o: Outcome) {
    CommonChecks(r, rb, catalog, norm, o) && FastJobOk(r, rb)
  }

  ghost predicate FullPass(r: Report, rb: Rollback, catalog: Catalog, norm: string -> string, o: Outcome) {
    && CommonChecks(r, rb, catalog, norm, o) && FullJobOk(r, rb)
    && IdsOf(Effective(r, rb)) - catalog.issues == {}
    && !SomeMismatch(catalog, norm, Effective(r, rb))
  }

  lemma {:induction false} FewIds(written: seq<Written>)
    ensures |IdsOf(written)| <= |written|
    decreases |written|
  {
    if written != [] {
      var n := |written| - 1;
      FewIds(written[..n]);
      var ids, before := IdsOf(written), IdsOf(written[..n]);
      var last := if written[n].issueId.Some? then {written[n].issueId.value} else {};
      forall x | x in ids
        ensures x in before + last
      {
        var w :| w in written && w.issueId == Some(x) && x != 0;
        if w != written[n] {
          assert w in written[..n];
        }
      }
      SubsetSize(ids, before + last);
    }
  }

  lemma SubsetSize(a: set<int>, b: set<int>)
    requires a <= b
    ensures |a| <= |b| && (|a| == |b| ==> a == b)
  {
    assert b == a + (b - a);
    assert |b| == |a| + |b - a|;
  }

  /**
   * Once the counts are in order and as many issues exist as were updated, none is
   * missing: what the full mode asks in addition is already settled.
   */
  lemma NoneMissing(r: Report, rb: Rollback, catalog: Catalog, norm: string -> string, o: Outcome)
    requires CommonChecks(r, rb, catalog, norm, o)
    ensures IdsOf(Effective(r, rb)) <= catalog.issues && |IdsOf(Effective(r, rb))| == |Effective(r, rb)|
  {
    var written := Effective(r, rb);
    CountsOkMeaning(r, rb);
    FewIds(written);
    SubsetSize(IdsOf(written) * catalog.issues, IdsOf(written));
  }

  /** Without a list of inserted UPC ids in the report, both modes judge the inserts alike. */
  lemma JobChecksAgree(r: Report, rb: Rollback)
    requires CountFailures(r, rb) == [] && r.jobUpcIds.None?
    ensures FastJobOk(r, rb) <==> FullJobOk(r, rb)
  {
  }

  /**
   * For such a report the full mode passes exactly when the fast mode does and no
   * stored UPC disagrees with its row.
   */
  lemma ModesAgree(r: Report, rb: Rollback, catalog: Catalog, norm: string -> string, o: Outcome)
    requires r.jobUpcIds.None?
    ensures FullPass(r, rb, catalog, norm, o)
            <==> FastPass(r, rb, catalog, norm, o) && !SomeMismatch(catalog, norm, Effective(r, rb))
  {
    if CommonChecks(r, rb, catalog, norm, o) {
      NoneMissing(r, rb, catalog, norm, o);
      JobChecksAgree(r, rb);
    }
  }

  /**
   * A report that does list its inserted UPC ids is held to that list by the full
   * mode only; the fast mode looks at the rollback, and at the list just when there
   * is neither a rollback entry nor a row.
   */
  lemma ModesWithOwnList(r: Report, rb: Rollback, catalog: Catalog, norm: string -> string, o: Outcome)
    requires CommonChecks(r, rb, catalog, norm, o) && r.jobUpcIds.Some?
    requires !SomeMismatch(catalog, norm, Effective(r, rb))
    ensures FullPass(r, rb, catalog, norm, o) <==> |r.jobUpcIds.value| == ExpectedUpcs(r)
    ensures FastPass(r, rb, catalog, norm, o)
            <==> match rb.upcIds
                 case Some(ids) => ids == [] ==> ExpectedUpcs(r) == 0
                 case None => Effective(r, rb) == [] ==> |r.jobUpcIds.value| == ExpectedUpcs(r)
  {
    NoneMissing(r, rb, catalog, norm, o);
    CountsOkMeaning(r, rb);
  }

  // ----- The verdicts in so many words -----

  ghost predicate HasRow(written: seq<Written>, id: Option<int>) {
    exists w <- written :: w.issueId == id
  }

  /** The rows an audit works on: the written ones, or one per snapshot with an id if their number fits. */
  lemma {:induction false} SnapshotRowsAre(snapshots: seq<Option<int>>)
    ensures forall i :: 0 <= i < |SnapshotRows(snapshots)| ==>
              SnapshotRows(snapshots)[i].insertedUpc == false && SnapshotRows(snapshots)[i].barcode == ""
    ensures forall x: Option<int> :: HasRow(SnapshotRows(snapshots), x) <==> x.Some? && x in snapshots
  {
    if snapshots != [] {
      SnapshotRowsAre(snapshots[1..]);
      var tail := SnapshotRows(snapshots[1..]);
      var head: seq<Written> := if snapshots[0].Some? then [Written(snapshots[0], false, "")] else [];
      assert SnapshotRows(snapshots) == head + tail;
      assert snapshots == [snapshots[0]] + snapshots[1..];
      forall x: Option<int>
        ensures HasRow(head + tail, x) <==> x.Some? && x in snapshots
      {
        assert HasRow(head + tail, x) <==> HasRow(head, x) || HasRow(tail, x);
        assert HasRow(head, x) <==> x.Some? && x == snapshots[0] by {
          if x.Some? && x == snapshots[0] {
            assert head[0] in head && head[0].issueId == x;
          }
        }
      }
    }
  }

  lemma EffectiveMeaning(r: Report, rb: Rollback)
    ensures r.written != [] ==> Effective(r, rb) == r.written
    ensures r.written == [] ==>
              if exists n :: r.updatedIssues == Some(n) && n > 0 && |rb.snapshots| == n
              then Effective(r, rb) == SnapshotRows(rb.snapshots) else Effective(r, rb) == []
  {
  }

  function Flagged(written: seq<Written>): set<nat> {
    set i: nat | i < |written| && written[i].insertedUpc
  }

  function FoundIds(written: seq<Written>, catalog: Catalog): set<int> {
    set id | id in catalog.issues && id != 0 && exists w <- written :: w.issueId == Some(id)
  }

  /** Both rows have an inserted barcode, and the two have the same normal form, which is not empty. */
  ghost predicate SameBarcode(norm: string -> string, a: Written, b: Written) {
    && a.insertedUpc && b.insertedUpc && a.barcode != "" && b.barcode != ""
    && norm(a.barcode) == norm(b.barcode) != ""
  }

  ghost predicate FastVerdict(written: seq<Written>, updated: int, upcs: int, r: Report, rb: Rollback, catalog: Catalog,
                              norm: string -> string, o: Outcome)
  {
    && |written| == updated && |Flagged(written)| == upcs
    && (rb.snapshots == [] ==> updated <= 0)
    && (forall ids :: rb.upcIds == Some(ids) && ids != [] ==> |ids| == upcs)
    && |FoundIds(written, catalog)| == updated
    && (forall i, j :: 0 <= i < j < |written| ==> !SameBarcode(norm, written[i], written[j]))
    && o.lookupsOk && o.errors <= 25
  }

  ghost predicate NoStrangeUpc(written: seq<Written>, catalog: Catalog, norm: string -> string) {
    forall w <- written :: w.insertedUpc && w.barcode != "" ==>
      && norm(w.barcode) in catalog.owners
      && match (catalog.owners[norm(w.barcode)], w.issueId)
         case (Some(owner), Some(id)) => owner == id
         case (Some(owner), None) => owner == 0
         case (None, Some(id)) => id == 0
         case (None, None) => true
  }

  lemma FoundIdsAre(written: seq<Written>, catalog: Catalog)
    ensures IdsOf(written) * catalog.issues == FoundIds(written, catalog)
  {
    forall id | id in catalog.issues && id != 0 && exists w <- written :: w.issueId == Some(id)
      ensures id in IdsOf(written)
    {
      var w :| w in written && w.issueId == Some(id);
      assert w.issueId.value == id;
    }
  }

  /** The checks both modes share. */
  lemma CommonMeaning(r: Report, rb: Rollback, catalog: Catalog, norm: string -> string, o: Outcome)
    ensures var written := Effective(r, rb);
            var updated := match r.updatedIssues case Some(n) => n case None => |written|;
            var upcs := match r.insertedUpcs case Some(n) => n case None => 0;
            CommonChecks(r, rb, catalog, norm, o) <==> FastVerdict(written, updated, upcs, r, rb, catalog, norm, o)
  {
    var written := Effective(r, rb);
    CountsOkMeaning(r, rb);
    FoundIdsAre(written, catalog);
    CountMeaning((w: Written) => w.insertedUpc, written);
    assert Where((w: Written) => w.insertedUpc, written) == Flagged(written);
    assert RepeatsBarcode(norm, written)
           <==> exists i, j :: 0 <= i < j < |written| && SameBarcode(norm, written[i], written[j]);
  }

  /** The row-by-row check of the full mode. */
  lemma MismatchMeaning(catalog: Catalog, norm: string -> string, written: seq<Written>)
    ensures !SomeMismatch(catalog, norm, written) <==> NoStrangeUpc(written, catalog, norm)
  {
  }

  /** How many inserts are on record, and what that asks of the report's number. */
  lemma JobMeaning(r: Report, rb: Rollback)
    ensures var upcs := match r.insertedUpcs case Some(n) => n case None => 0;
            FullJobOk(r, rb) <==> match (r.jobUpcIds, rb.upcIds)
                                  case (Some(ids), _) => |ids| == upcs
                                  case (None, Some(ids)) => |ids| == upcs
                                  case (None, None) => true
  {
  }

  const INSERTED := Written(Some(1), true, "761941341927")

  const ALL_WELL := Outcome(true, 0)

  /** A catalog that has the issue and its UPC. */
  function InCatalog(norm: string -> string): Catalog {
    Catalog({1}, map[norm(INSERTED.barcode) := Some(1)])
  }

  lemma OneInserted(norm: string -> string)
    ensures UpcFlags([INSERTED]) == 1 && IdsOf([INSERTED]) == {1}
    ensures IdsOf([INSERTED]) * InCatalog(norm).issues == {1} && IdsOf([INSERTED]) - InCatalog(norm).issues == {}
    ensures !RepeatsBarcode(norm, [INSERTED]) && !SomeMismatch(InCatalog(norm), norm, [INSERTED])
  {
    CountOne((w: Written) => w.insertedUpc, INSERTED);
    assert INSERTED in [INSERTED];
  }

  lemma CountOne(p: Written -> bool, w: Written)
    ensures Count(p, [w]) == if p(w) then 1 else 0
  {
    assert [w][1..] == [] && Count(p, []) == 0;
  }

  /** A list in the report and an empty one in the rollback: the full mode passes, the fast one fails. */
  lemma OwnListPassesFullOnly(norm: string -> string)
    ensures var r, rb := Report([INSERTED], Some(1), Some(1), Some([9])), Rollback([Some(1)], Some([]));
            && FullPass(r, rb, InCatalog(norm), norm, ALL_WELL)
            && !FastPass(r, rb, InCatalog(norm), norm, ALL_WELL)
  {
    OneInserted(norm);
  }

  /** A list that does not match the report's number: the fast mode passes, the full one fails. */
  lemma WrongListPassesFastOnly(norm: string -> string)
    ensures var r, rb := Report([INSERTED], Some(1), Some(1), Some([])), Rollback([Some(1)], None);
            && FastPass(r, rb, InCatalog(norm), norm, ALL_WELL)
            && !FullPass(r, rb, InCatalog(norm), norm, ALL_WELL)
  {
    OneInserted(norm);
  }
}
