/**
 * The audit after a catalog write batch (p102_write_batch_audit.py): what a PASS
 * of the fast mode entails, and how the fast and the full mode relate.
 */
module BatchAudit {
  import opened Common

  /** A row of the write report. A missing or zero id does not count as one. */
  datatype Written = Written(issueId: Option<int>, insertedUpc: bool, barcode: string, gcdId: Option<int>)

  datatype CatalogIssue = CatalogIssue(seriesId: int, number: string, gcdId: Option<int>)

  datatype Upc = Upc(upc: string, issueId: Option<int>, fromGcd: bool)

  datatype Catalog = Catalog(issues: map<int, CatalogIssue>, upcs: seq<Upc>)

  datatype Report = Report(
    written: seq<Written>, expectedIssues: int, expectedUpcs: int, errors: nat, stoppedEarly: bool)

  type IssueKey = (int, string)

  function KeyOf(issue: CatalogIssue): IssueKey { (issue.seriesId, issue.number) }

  predicate HasId(r: Written) { r.issueId.Some? && r.issueId.value != 0 }

  // ----- The report on its own -----

  function IdsOf(written: seq<Written>): set<int> {
    set r | r in written && HasId(r) :: r.issueId.value
  }

  function UpcFlags(written: seq<Written>): nat {
    Count((r: Written) => r.insertedUpc, written)
  }

  /** `_confirm_report_counts` without its messages. */
  predicate CountsOk(r: Report) {
    && |r.written| == r.expectedIssues
    && |IdsOf(r.written)| == r.expectedIssues
    && UpcFlags(r.written) == r.expectedUpcs
  }

  ghost predicate AllHaveDistinctIds(written: seq<Written>) {
    && (forall i :: 0 <= i < |written| ==> HasId(written[i]))
    && (forall i, j :: 0 <= i < j < |written| ==> written[i].issueId != written[j].issueId)
  }

  lemma IdsOfMore(init: seq<Written>, last: Written)
    ensures IdsOf(init + [last]) == IdsOf(init) + if HasId(last) then {last.issueId.value} else {}
  {
    forall x | x in IdsOf(init)
      ensures x in IdsOf(init + [last])
    {
      var r :| r in init && HasId(r) && r.issueId.value == x;
      assert r in init + [last];
    }
    if HasId(last) {
      assert last in init + [last];
    }
  }

  lemma DistinctIdsMore(init: seq<Written>, last: Written)
    ensures AllHaveDistinctIds(init + [last])
            <==> AllHaveDistinctIds(init) && HasId(last) && last.issueId.value !in IdsOf(init)
  {
    var all, n := init + [last], |init|;
    assert forall i :: 0 <= i < n ==> all[i] == init[i];
    assert all[n] == last;
    if AllHaveDistinctIds(all) {
      assert AllHaveDistinctIds(init);
      forall r | r in init
        ensures r.issueId != last.issueId
      {
        var i :| 0 <= i < n && init[i] == r;
        assert all[i].issueId != all[n].issueId;
      }
    } else if AllHaveDistinctIds(init) && HasId(last) && last.issueId.value !in IdsOf(init) {
      forall i | 0 <= i < n
        ensures all[i].issueId != all[n].issueId
      {
        assert init[i] in init;
      }
    }
  }

  /** Pigeonhole: as many distinct ids as rows means an id of its own for every row. */
  lemma {:induction false} Pigeonhole(written: seq<Written>)
    ensures |IdsOf(written)| <= |written|
    ensures |IdsOf(written)| == |written| <==> AllHaveDistinctIds(written)
  {
    if written != [] {
      var n := |written| - 1;
      var init, last := written[..n], written[n];
      Pigeonhole(init);
      assert written == init + [last];
      IdsOfMore(init, last);
      DistinctIdsMore(init, last);
    }
  }

  /** The report's counts are in order exactly when every row has an id of its own. */
  lemma CountsOkMeaning(r: Report)
    ensures CountsOk(r) <==> && |r.written| == r.expectedIssues && AllHaveDistinctIds(r.written)
                             && UpcFlags(r.written) == r.expectedUpcs
  {
    Pigeonhole(r.written);
  }

  // ----- The fast duplicate check -----

  ghost predicate DistinctKeys(catalog: Catalog, ids: set<int>) {
    forall a, b :: a in ids && b in ids && a in catalog.issues && b in catalog.issues && a != b
                   ==> KeyOf(catalog.issues[a]) != KeyOf(catalog.issues[b])
  }

  /** The ids with the given key among those already grouped. */
  ghost predicate Grouped(catalog: Catalog, done: set<int>, byKey: map<IssueKey, seq<int>>) {
    && (forall id :: id in done ==> id in catalog.issues && KeyOf(catalog.issues[id]) in byKey)
    && (forall k :: k in byKey ==> byKey[k] != [] && Distinct(byKey[k]))
    && (forall k, id :: k in byKey ==> (id in byKey[k] <==> id in done && KeyOf(catalog.issues[id]) == k))
  }

  lemma AddToGroup(catalog: Catalog, done: set<int>, byKey: map<IssueKey, seq<int>>, id: int)
    requires Grouped(catalog, done, byKey) && id !in done && id in catalog.issues
    ensures var k := KeyOf(catalog.issues[id]);
            Grouped(catalog, done + {id}, byKey[k := (if k in byKey then byKey[k] else []) + [id]])
  {
  }

  lemma GroupsAreSingle(catalog: Catalog, done: set<int>, byKey: map<IssueKey, seq<int>>)
    requires Grouped(catalog, done, byKey)
    ensures (forall k :: k in byKey ==> |byKey[k]| <= 1) <==> DistinctKeys(catalog, done)
  {
    if forall k :: k in byKey ==> |byKey[k]| <= 1 {
      forall a, b | a in done && b in done && a != b
        ensures KeyOf(catalog.issues[a]) != KeyOf(catalog.issues[b])
      {
        var ka, kb := KeyOf(catalog.issues[a]), KeyOf(catalog.issues[b]);
        assert a in byKey[ka] && b in byKey[kb];
      }
    } else {
      var k :| k in byKey && |byKey[k]| > 1;
      var a, b := byKey[k][0], byKey[k][1];
      assert a in byKey[k] && b in byKey[k] && a != b;
      assert a in done && b in done && KeyOf(catalog.issues[a]) == k == KeyOf(catalog.issues[b]);
    }
  }

  /**
   * `_duplicates_within_inserted_ids`: group the catalog rows of the given ids by
   * key; report every group of two or more, and ids without a catalog row.
   */
  method DuplicatesWithinIds(catalog: Catalog, ids: set<int>) returns (clean: bool, found: nat)
    ensures found == |ids * catalog.issues.Keys|
    ensures clean <==> ids <= catalog.issues.Keys && DistinctKeys(catalog, ids)
  {
    var rows := ids * catalog.issues.Keys;
    var byKey: map<IssueKey, seq<int>> := map[];
    var left := rows;
    ghost var done: set<int> := {};
    while |left| > 0
      invariant done + left == rows && done !! left
      invariant Grouped(catalog, done, byKey)
      decreases |left|
    {
      SomeElement(left);
      var id :| id in left;
      left := left - {id};
      var key := KeyOf(catalog.issues[id]);
      AddToGroup(catalog, done, byKey, id);
      byKey := byKey[key := (if key in byKey then byKey[key] else []) + [id]];
      done := done + {id};
    }
    assert left == {} && done == rows;
    GroupsAreSingle(catalog, rows, byKey);
    found := |rows|;
    SubsetBySize(ids, catalog.issues.Keys);
    var missing := |ids| - found;
    clean := missing == 0 && forall k <- byKey :: |byKey[k]| <= 1;
  }

  lemma SubsetBySize(a: set<int>, b: set<int>)
    ensures |a * b| <= |a|
    ensures |a * b| == |a| <==> a <= b
  {
    assert a == (a * b) + (a - b);
    assert |a| == |a * b| + |a - b|;
  }

  // ----- The full scan -----

  /** How many catalog issues carry this key. */
  function SameKey(catalog: Catalog, key: IssueKey): set<int> {
    set id | id in catalog.issues && KeyOf(catalog.issues[id]) == key
  }

  /**
   * The full scan of one row: Crash where the original would raise (no id, or no
   * expected id for a row that exists).
   */
  datatype RowCheck = Fine | Missing | WrongGcdId | Crash

  function CheckRow(catalog: Catalog, r: Written): RowCheck {
    if r.issueId.None? then Crash
    else if r.issueId.value !in catalog.issues then Missing
    else if r.gcdId.None? then Crash
    else if catalog.issues[r.issueId.value].gcdId != r.gcdId then WrongGcdId
    else Fine
  }

  predicate DuplicatedInCatalog(catalog: Catalog, r: Written) {
    && r.issueId.Some? && r.issueId.value in catalog.issues
    && |SameKey(catalog, KeyOf(catalog.issues[r.issueId.value]))| > 1
  }

  ghost predicate ScanRuns(catalog: Catalog, written: seq<Written>) {
    forall i :: 0 <= i < |written| ==> CheckRow(catalog, written[i]) != Crash
  }

  ghost predicate ScanClean(catalog: Catalog, written: seq<Written>) {
    forall i :: 0 <= i < |written| ==> CheckRow(catalog, written[i]) == Fine
  }

  ghost predicate NoCatalogDuplicates(catalog: Catalog, written: seq<Written>) {
    forall i :: 0 <= i < |written| ==> !DuplicatedInCatalog(catalog, written[i])
  }

  /** The per-row loop of `run_full_audit`. */
  method FullScan(catalog: Catalog, written: seq<Written>) returns (ran: bool, rowsOk: bool, noDuplicates: bool)
    ensures ran <==> ScanRuns(catalog, written)
    ensures ran ==> (rowsOk <==> ScanClean(catalog, written))
    ensures ran ==> (noDuplicates <==> NoCatalogDuplicates(catalog, written))
  {
    ran, rowsOk, noDuplicates := true, true, true;
    var k := 0;
    while k < |written|
      invariant 0 <= k <= |written| && ran
      invariant ScanRuns(catalog, written[..k])
      invariant rowsOk <==> ScanClean(catalog, written[..k])
      invariant noDuplicates <==> NoCatalogDuplicates(catalog, written[..k])
    {
      var r := written[k];
      var check := CheckRow(catalog, r);
      assert written[..k + 1] == written[..k] + [r];
      if check == Crash {
        ran := false;
        return;
      }
      if check != Fine {
        rowsOk := false;
      }
      if check != Missing && DuplicatedInCatalog(catalog, r) {
        noDuplicates := false;
      }
      k := k + 1;
    }
    assert written[..k] == written;
  }

  // ----- The verdicts -----

  function GcdUpcs(catalog: Catalog, ids: set<int>): nat {
    Count((u: Upc) => u.fromGcd && u.issueId.Some? && u.issueId.value in ids, catalog.upcs)
  }

  predicate UpcKnown(catalog: Catalog, barcode: string) {
    exists u <- catalog.upcs :: u.upc == barcode
  }

  function ResolvedBarcodes(catalog: Catalog, written: seq<Written>): nat {
    Count((r: Written) => r.insertedUpc && r.barcode != "" && UpcKnown(catalog, r.barcode), written)
  }

  const MAX_ERRORS := 25

  ghost predicate CommonChecks(catalog: Catalog, r: Report, lookups: seq<bool>) {
    && GcdUpcs(catalog, IdsOf(r.written)) == r.expectedUpcs
    && (forall i :: 0 <= i < |lookups| ==> lookups[i])
    && r.errors <= MAX_ERRORS && !r.stoppedEarly
  }

  /** The pass decision of the fast mode; `lookups` are the outcomes of the sampled barcode lookups. */
  ghost predicate FastPass(catalog: Catalog, r: Report, lookups: seq<bool>) {
    var ids := IdsOf(r.written);
    && CountsOk(r)
    && |ids * catalog.issues.Keys| == r.expectedIssues
    && ids <= catalog.issues.Keys && DistinctKeys(catalog, ids)
    && CommonChecks(catalog, r, lookups)
  }

  ghost predicate FullPass(catalog: Catalog, r: Report, lookups: seq<bool>) {
    && ScanRuns(catalog, r.written)
    && |r.written| == r.expectedIssues && ScanClean(catalog, r.written)
    && ResolvedBarcodes(catalog, r.written) == r.expectedUpcs
    && NoCatalogDuplicates(catalog, r.written)
    && CommonChecks(catalog, r, lookups)
  }

  ghost predicate InCatalogWithDistinctKeys(catalog: Catalog, written: seq<Written>) {
    && (forall i :: 0 <= i < |written| ==> HasId(written[i]) && written[i].issueId.value in catalog.issues)
    && (forall i, j :: 0 <= i < j < |written| ==>
          KeyOf(catalog.issues[written[i].issueId.value]) != KeyOf(catalog.issues[written[j].issueId.value]))
  }

  lemma IdIsIn(written: seq<Written>, i: nat)
    requires i < |written| && HasId(written[i])
    ensures written[i].issueId.value in IdsOf(written)
  {
    assert written[i] in written;
  }

  /**
   * What a fast PASS entails: every written row has an id of its own, each is in
   * the catalog, and no two have the same series and number.
   */
  lemma FastPassMeaning(catalog: Catalog, r: Report, lookups: seq<bool>)
    ensures FastPass(catalog, r, lookups)
            <==> && |r.written| == r.expectedIssues && UpcFlags(r.written) == r.expectedUpcs
                 && AllHaveDistinctIds(r.written) && InCatalogWithDistinctKeys(catalog, r.written)
                 && CommonChecks(catalog, r, lookups)
  {
    CountsOkMeaning(r);
    if AllHaveDistinctIds(r.written) {
      RowsAndIdsAgree(catalog, r.written);
      Pigeonhole(r.written);
      SubsetBySize(IdsOf(r.written), catalog.issues.Keys);
    }
  }

  /** With distinct ids, what holds of the ids holds of the rows. */
  lemma RowsAndIdsAgree(catalog: Catalog, written: seq<Written>)
    requires AllHaveDistinctIds(written)
    ensures IdsOf(written) <= catalog.issues.Keys && DistinctKeys(catalog, IdsOf(written))
            <==> InCatalogWithDistinctKeys(catalog, written)
  {
    var ids := IdsOf(written);
    forall i | 0 <= i < |written|
      ensures written[i].issueId.value in ids
    {
      IdIsIn(written, i);
    }
    if InCatalogWithDistinctKeys(catalog, written) {
      forall a, b | a in ids && b in ids
        ensures a in catalog.issues
        ensures a != b ==> b in catalog.issues && KeyOf(catalog.issues[a]) != KeyOf(catalog.issues[b])
      {
        var i :| 0 <= i < |written| && HasId(written[i]) && written[i].issueId.value == a;
        var j :| 0 <= j < |written| && HasId(written[j]) && written[j].issueId.value == b;
      }
    }
  }

  /** A key met twice among existing ids is a duplicate in the whole catalog. */
  lemma CleanScanSeparatesKeys(catalog: Catalog, written: seq<Written>)
    requires AllHaveDistinctIds(written) && NoCatalogDuplicates(catalog, written)
    requires forall i :: 0 <= i < |written| ==> written[i].issueId.value in catalog.issues
    ensures InCatalogWithDistinctKeys(catalog, written)
  {
    forall i, j | 0 <= i < j < |written|
      ensures KeyOf(catalog.issues[written[i].issueId.value]) != KeyOf(catalog.issues[written[j].issueId.value])
    {
      var a, b := written[i].issueId.value, written[j].issueId.value;
      var same := SameKey(catalog, KeyOf(catalog.issues[a]));
      assert !DuplicatedInCatalog(catalog, written[i]);
      assert a in same;
      if b in same {
        assert {a, b} <= same && |{a, b}| == 2;
        SubsetBySize({a, b}, same);
        assert {a, b} * same == same * {a, b};
        SubsetBySize(same, {a, b});
      }
    }
  }

  /**
   * When the full mode passes, the fast mode passes with the same lookups exactly
   * if the written ids are real and distinct and the report flags as many UPC rows
   * as it claims: the full mode checks neither.
   */
  lemma FullVersusFast(catalog: Catalog, r: Report, lookups: seq<bool>)
    requires FullPass(catalog, r, lookups)
    ensures FastPass(catalog, r, lookups)
            <==> AllHaveDistinctIds(r.written) && UpcFlags(r.written) == r.expectedUpcs
  {
    FastPassMeaning(catalog, r, lookups);
    if AllHaveDistinctIds(r.written) {
      forall i | 0 <= i < |r.written|
        ensures r.written[i].issueId.value in catalog.issues
      {
        assert CheckRow(catalog, r.written[i]) == Fine;
      }
      CleanScanSeparatesKeys(catalog, r.written);
    }
  }

  // ----- The verdicts in so many words -----

  function Flagged(written: seq<Written>): set<nat> {
    set i: nat | i < |written| && written[i].insertedUpc
  }

  function NamesId(written: seq<Written>, id: int): bool {
    exists w <- written :: w.issueId == Some(id) && id != 0
  }

  /** The GCD UPC rows of the issues the report names. */
  function GcdRows(catalog: Catalog, written: seq<Written>): set<nat> {
    set u: nat | u < |catalog.upcs| && catalog.upcs[u].fromGcd && catalog.upcs[u].issueId.Some?
                 && NamesId(written, catalog.upcs[u].issueId.value)
  }

  /** The inserted barcodes that some UPC row has. */
  function KnownBarcodes(catalog: Catalog, written: seq<Written>): set<nat> {
    set i: nat | i < |written| && written[i].insertedUpc && written[i].barcode != ""
                 && exists u <- catalog.upcs :: u.upc == written[i].barcode
  }

  ghost predicate SameSeriesAndNumber(a: CatalogIssue, b: CatalogIssue) {
    a.seriesId == b.seriesId && a.number == b.number
  }

  ghost predicate SharedVerdict(catalog: Catalog, r: Report, lookups: seq<bool>) {
    && |GcdRows(catalog, r.written)| == r.expectedUpcs
    && (forall i :: 0 <= i < |lookups| ==> lookups[i])
    && r.errors <= 25 && !r.stoppedEarly
  }

  ghost predicate Registered(catalog: Catalog, w: Written) {
    w.issueId.Some? && w.issueId.value in catalog.issues
  }

  /** Every row names an issue of the catalog, no two the same one or issues alike in series and number. */
  ghost predicate NamesItsOwn(catalog: Catalog, written: seq<Written>) {
    && (forall i :: 0 <= i < |written| ==> Registered(catalog, written[i]) && written[i].issueId != Some(0))
    && (forall i, j :: 0 <= i < j < |written| ==>
          && written[i].issueId != written[j].issueId
          && !SameSeriesAndNumber(catalog.issues[written[i].issueId.value], catalog.issues[written[j].issueId.value]))
  }

  lemma NamesItsOwnMeaning(catalog: Catalog, written: seq<Written>)
    ensures AllHaveDistinctIds(written) && InCatalogWithDistinctKeys(catalog, written) <==> NamesItsOwn(catalog, written)
  {
  }

  ghost predicate FastVerdict(catalog: Catalog, r: Report, lookups: seq<bool>) {
    && |r.written| == r.expectedIssues && |Flagged(r.written)| == r.expectedUpcs
    && NamesItsOwn(catalog, r.written) && SharedVerdict(catalog, r, lookups)
  }

  ghost predicate FullVerdict(catalog: Catalog, r: Report, lookups: seq<bool>) {
    && |r.written| == r.expectedIssues && |KnownBarcodes(catalog, r.written)| == r.expectedUpcs
    && (forall i :: 0 <= i < |r.written| ==>
          && Registered(catalog, r.written[i]) && r.written[i].gcdId.Some?
          && catalog.issues[r.written[i].issueId.value].gcdId == r.written[i].gcdId
          && (forall id :: id in catalog.issues
                           && SameSeriesAndNumber(catalog.issues[id], catalog.issues[r.written[i].issueId.value])
                           ==> Some(id) == r.written[i].issueId))
    && SharedVerdict(catalog, r, lookups)
  }

  lemma SharedMeaning(catalog: Catalog, r: Report, lookups: seq<bool>)
    ensures CommonChecks(catalog, r, lookups) <==> SharedVerdict(catalog, r, lookups)
  {
    var ids := IdsOf(r.written);
    var p := (u: Upc) => u.fromGcd && u.issueId.Some? && u.issueId.value in ids;
    CountMeaning(p, catalog.upcs);
    forall id
      ensures id in ids <==> NamesId(r.written, id)
    {
      if w :| w in r.written && w.issueId == Some(id) && id != 0 {
        assert HasId(w) && w.issueId.value == id;
      }
    }
    assert Where(p, catalog.upcs) == GcdRows(catalog, r.written);
  }

  /** What a fast PASS says. */
  lemma FastVerdictMeaning(catalog: Catalog, r: Report, lookups: seq<bool>)
    ensures FastPass(catalog, r, lookups) <==> FastVerdict(catalog, r, lookups)
  {
    FastPassMeaning(catalog, r, lookups);
    NamesItsOwnMeaning(catalog, r.written);
    SharedMeaning(catalog, r, lookups);
    CountMeaning((w: Written) => w.insertedUpc, r.written);
    assert Where((w: Written) => w.insertedUpc, r.written) == Flagged(r.written);
  }

  lemma SingleMeaning(catalog: Catalog, id: int)
    requires id in catalog.issues
    ensures |SameKey(catalog, KeyOf(catalog.issues[id]))| <= 1
            <==> forall x :: x in catalog.issues && SameSeriesAndNumber(catalog.issues[x], catalog.issues[id]) ==> x == id
  {
    var same := SameKey(catalog, KeyOf(catalog.issues[id]));
    assert forall x :: x in same <==> x in catalog.issues && SameSeriesAndNumber(catalog.issues[x], catalog.issues[id]);
    if |same| <= 1 {
      forall x | x in same
        ensures x == id
      {
        var pair := {x, id};
        SubsetBySize(pair, same);
        assert pair * same == pair;
        SubsetBySize(same, pair);
        assert same * pair == pair * same;
      }
    }
    assert (forall x :: x in same ==> x == id) ==> same == {id};
  }

  /** The scan ends without raising when every row has an id, and an expected GCD id if its issue exists. */
  lemma ScanRunsMeaning(catalog: Catalog, written: seq<Written>)
    ensures ScanRuns(catalog, written)
            <==> forall i :: 0 <= i < |written| ==>
                   written[i].issueId.Some? && (Registered(catalog, written[i]) ==> written[i].gcdId.Some?)
  {
    assert forall i :: 0 <= i < |written| && CheckRow(catalog, written[i]) == Crash ==>
             written[i].issueId.None? || (Registered(catalog, written[i]) && written[i].gcdId.None?);
  }

  /** What a full PASS says. */
  lemma FullVerdictMeaning(catalog: Catalog, r: Report, lookups: seq<bool>)
    ensures FullPass(catalog, r, lookups) <==> FullVerdict(catalog, r, lookups)
  {
    SharedMeaning(catalog, r, lookups);
    var p := (w: Written) => w.insertedUpc && w.barcode != "" && UpcKnown(catalog, w.barcode);
    CountMeaning(p, r.written);
    assert Where(p, r.written) == KnownBarcodes(catalog, r.written);
    forall i | 0 <= i < |r.written| && Registered(catalog, r.written[i])
      ensures DuplicatedInCatalog(catalog, r.written[i])
              <==> !(forall x :: x in catalog.issues
                                 && SameSeriesAndNumber(catalog.issues[x], catalog.issues[r.written[i].issueId.value])
                                 ==> x == r.written[i].issueId.value)
    {
      SingleMeaning(catalog, r.written[i].issueId.value);
    }
  }

  // ----- Where the modes part -----

  lemma {:induction false} NothingFlagged(catalog: Catalog, written: seq<Written>)
    requires forall i :: 0 <= i < |written| ==> !written[i].insertedUpc
    ensures UpcFlags(written) == 0 && ResolvedBarcodes(catalog, written) == 0
  {
    if written != [] {
      NothingFlagged(catalog, written[1..]);
    }
  }

  const ROW := Written(Some(1), false, "", Some(7))

  const REPEATED := Report([ROW, ROW], 2, 0, 0, false)

  const ONE_ISSUE := Catalog(map[1 := CatalogIssue(1, "1", Some(7))], [])

  /** A report that names one issue twice passes the full audit and fails the fast one. */
  lemma FullPassesRepeatedId()
    ensures FullPass(ONE_ISSUE, REPEATED, []) && !FastPass(ONE_ISSUE, REPEATED, [])
  {
    assert SameKey(ONE_ISSUE, (1, "1")) == {1};
    NothingFlagged(ONE_ISSUE, REPEATED.written);
    FastPassMeaning(ONE_ISSUE, REPEATED, []);
    assert REPEATED.written[0].issueId == REPEATED.written[1].issueId;
  }

  const SINGLE := Report([ROW], 1, 0, 0, false)

  const OTHER_COPY := Catalog(map[1 := CatalogIssue(1, "1", Some(7)), 2 := CatalogIssue(1, "1", None)], [])

  /** A duplicate of an issue outside the batch fails the full audit only. */
  lemma FastPassesOutsideDuplicate()
    ensures FastPass(OTHER_COPY, SINGLE, []) && !FullPass(OTHER_COPY, SINGLE, [])
  {
    assert SameKey(OTHER_COPY, (1, "1")) == {1, 2};
    NothingFlagged(OTHER_COPY, SINGLE.written);
    assert AllHaveDistinctIds(SINGLE.written);
    FastPassMeaning(OTHER_COPY, SINGLE, []);
    assert DuplicatedInCatalog(OTHER_COPY, SINGLE.written[0]);
  }
}
