/**
 * The slim barcode database (build_slim_gcd_barcode_db.py) and the lookup it is
 * meant to answer (gcd_barcode_search_service.py).
 */
module SlimDb {
  import opened Common
  import opened PyText
  import opened Decimal

  datatype Issue = Issue(
    id: int, number: Option<string>, seriesId: Option<int>, keyDate: Option<string>, title: Option<string>,
    barcode: Option<string>, notes: Option<string>, isbn: Option<string>)

  datatype Series = Series(name: Option<string>, yearBegan: Option<int>, publisherId: Option<int>)

  datatype Publisher = Publisher(name: Option<string>)

  /** Issues in table order; series and publishers by their primary key. */
  datatype Db = Db(issues: seq<Issue>, series: map<int, Series>, publishers: map<int, Publisher>)

  // ----- What is kept -----

  /** `column IS NOT NULL AND TRIM(column) <> ''`: TRIM takes off spaces only. */
  predicate Filled(column: Option<string>) {
    column.Some? && exists i :: 0 <= i < |column.value| && column.value[i] != ' '
  }

  /** `text LIKE '%word%'` for a word in lower case without wildcards. */
  predicate LikeWord(text: string, word: string) {
    Find(Lower(text), word).Some?
  }

  predicate MentionsBarcode(notes: string) {
    LikeWord(notes, "upc") || LikeWord(notes, "barcode") || LikeWord(notes, "bar code")
  }

  predicate Retained(i: Issue) {
    Filled(i.barcode) || Filled(i.isbn) || (i.notes.Some? && MentionsBarcode(i.notes.value))
  }

  /** At some position the text holds the word, each letter in either case. */
  ghost predicate Holds(text: string, lower: string, upper: string)
    requires |lower| == |upper|
  {
    exists p: nat :: p + |lower| <= |text| && MatchesAt(text, lower, upper, p)
  }

  ghost predicate MatchesAt(text: string, lower: string, upper: string, p: nat)
    requires |lower| == |upper| && p + |lower| <= |text|
  {
    forall m :: 0 <= m < |lower| ==> text[p + m] == lower[m] || text[p + m] == upper[m]
  }

  ghost predicate SomeNonBlank(column: Option<string>) {
    column.Some? && exists m :: 0 <= m < |column.value| && column.value[m] != ' '
  }

  /** What an issue needs to be kept, in so many words. */
  ghost predicate WorthKeeping(i: Issue) {
    || SomeNonBlank(i.barcode)
    || SomeNonBlank(i.isbn)
    || (i.notes.Some? && (|| Holds(i.notes.value, "upc", "UPC")
                          || Holds(i.notes.value, "barcode", "BARCODE")
                          || Holds(i.notes.value, "bar code", "BAR CODE")))
  }

  /** Each letter of the word in lower case stands opposite itself in upper case. */
  predicate CasePair(lower: string, upper: string) {
    |lower| == |upper| &&
    forall m :: 0 <= m < |lower| ==>
      || ('a' <= lower[m] <= 'z' && lower[m] as int - upper[m] as int == 32)
      || (lower[m] == upper[m] && !('a' <= lower[m] <= 'z') && !('A' <= upper[m] <= 'Z'))
  }

  lemma LikeMeaning(text: string, lower: string, upper: string)
    requires CasePair(lower, upper)
    ensures LikeWord(text, lower) <==> Holds(text, lower, upper)
  {
    var low := Lower(text);
    forall p: nat | p + |lower| <= |text|
      ensures OccursAt(low, lower, p) <==> MatchesAt(text, lower, upper, p)
    {
      assert |low[p..p + |lower|]| == |lower|;
      forall m | 0 <= m < |lower|
        ensures low[p..p + |lower|][m] == lower[m] <==> text[p + m] == lower[m] || text[p + m] == upper[m]
      {
        assert low[p + m] == LowerChar(text[p + m]);
      }
    }
    if LikeWord(text, lower) {
      assert OccursAt(low, lower, Find(low, lower).value);
    }
  }

  lemma RetainedMeaning(i: Issue)
    ensures Retained(i) <==> WorthKeeping(i)
  {
    if i.notes.Some? {
      LikeMeaning(i.notes.value, "upc", "UPC");
      LikeMeaning(i.notes.value, "barcode", "BARCODE");
      LikeMeaning(i.notes.value, "bar code", "BAR CODE");
    }
  }

  ghost predicate SeriesNeeded(issues: seq<Issue>, sid: int) {
    exists k :: 0 <= k < |issues| && issues[k].seriesId == Some(sid)
  }

  ghost predicate PublisherNeeded(series: map<int, Series>, pid: int) {
    exists s :: s in series && series[s].publisherId == Some(pid)
  }

  /** The slice: retained issues, the series they name, the publishers those name. */
  ghost predicate IsSlimOf(slim: Db, src: Db) {
    && slim.issues == Filter(Retained, src.issues)
    && (forall s :: s in slim.series <==> s in src.series && SeriesNeeded(slim.issues, s))
    && (forall s :: s in slim.series ==> slim.series[s] == src.series[s])
    && (forall p :: p in slim.publishers <==> p in src.publishers && PublisherNeeded(slim.series, p))
    && (forall p :: p in slim.publishers ==> slim.publishers[p] == src.publishers[p])
  }

  ghost predicate DistinctIds(issues: seq<Issue>) {
    forall i, j :: 0 <= i < j < |issues| ==> issues[i].id != issues[j].id
  }

  lemma {:induction false} FilterKeepsDistinctIds(p: Issue -> bool, issues: seq<Issue>)
    requires DistinctIds(issues)
    ensures DistinctIds(Filter(p, issues))
    ensures forall i :: i in Filter(p, issues) ==> i in issues
  {
    if issues != [] {
      FilterKeepsDistinctIds(p, issues[1..]);
      var rest := Filter(p, issues[1..]);
      forall j | 0 <= j < |rest|
        ensures rest[j].id != issues[0].id
      {
        assert rest[j] in issues[1..];
      }
    }
  }

  /** Insert an issue; SQLite would reject an id already in the table. */
  method InsertIssue(table: seq<Issue>, row: Issue) returns (table': seq<Issue>)
    requires forall k :: 0 <= k < |table| ==> table[k].id != row.id
    ensures table' == table + [row]
  {
    table' := table + [row];
  }

  method InsertIssues(rows: seq<Issue>) returns (table: seq<Issue>)
    requires DistinctIds(rows)
    ensures table == rows
  {
    table := [];
    for k := 0 to |rows|
      invariant table == rows[..k]
    {
      table := InsertIssue(table, rows[k]);
    }
  }

  /** Insert a row under a new primary key; SQLite would reject a key already there. */
  method InsertNew<T>(table: map<int, T>, key: int, row: T) returns (table': map<int, T>)
    requires key !in table
    ensures table' == table[key := row]
  {
    table' := table[key := row];
  }

  method SelectIssues(src: Db) returns (rows: seq<Issue>)
    ensures rows == Filter(Retained, src.issues)
  {
    rows := [];
    var k := 0;
    assert src.issues[0..] == src.issues;
    while k < |src.issues|
      invariant 0 <= k <= |src.issues|
      invariant Filter(Retained, src.issues) == rows + Filter(Retained, src.issues[k..])
    {
      assert src.issues[k..][1..] == src.issues[k + 1..];
      if Retained(src.issues[k]) {
        rows := rows + [src.issues[k]];
      }
      k := k + 1;
    }
    assert src.issues[k..] == [];
  }

  method CollectSeries(src: Db, issues: seq<Issue>) returns (series: map<int, Series>, pubIds: set<int>)
    ensures forall s :: s in series <==> s in src.series && SeriesNeeded(issues, s)
    ensures forall s :: s in series ==> series[s] == src.series[s]
    ensures forall p :: p in pubIds <==> PublisherNeeded(series, p)
  {
    var seriesIds := set i | i in issues && i.seriesId.Some? :: i.seriesId.value;
    assert forall s :: s in seriesIds <==> SeriesNeeded(issues, s);
    series, pubIds := map[], {};
    var left := seriesIds;
    while |left| > 0
      invariant left <= seriesIds
      invariant forall s :: s in series <==> s in src.series && s in seriesIds && s !in left
      invariant forall s :: s in series ==> series[s] == src.series[s]
      invariant forall p :: p in pubIds <==> PublisherNeeded(series, p)
      decreases |left|
    {
      SomeElement(left);
      var sid :| sid in left;
      ghost var before := series;
      left := left - {sid};
      if sid in src.series {
        var row := src.series[sid];
        series := InsertNew(series, sid, row);
        if row.publisherId.Some? {
          pubIds := pubIds + {row.publisherId.value};
        }
        forall p
          ensures PublisherNeeded(series, p) <==> PublisherNeeded(before, p) || row.publisherId == Some(p)
        {
          if PublisherNeeded(before, p) {
            var s :| s in before && before[s].publisherId == Some(p);
            assert s in series && series[s].publisherId == Some(p);
          }
          if row.publisherId == Some(p) {
            assert sid in series && series[sid].publisherId == Some(p);
          }
        }
      }
    }
  }

  method CollectPublishers(src: Db, pubIds: set<int>) returns (publishers: map<int, Publisher>)
    ensures forall p :: p in publishers <==> p in src.publishers && p in pubIds
    ensures forall p :: p in publishers ==> publishers[p] == src.publishers[p]
  {
    publishers := map[];
    var left := pubIds;
    while |left| > 0
      invariant left <= pubIds
      invariant forall p :: p in publishers <==> p in src.publishers && p in pubIds && p !in left
      invariant forall p :: p in publishers ==> publishers[p] == src.publishers[p]
      decreases |left|
    {
      SomeElement(left);
      var pid :| pid in left;
      left := left - {pid};
      if pid in src.publishers {
        publishers := InsertNew(publishers, pid, src.publishers[pid]);
      }
    }
  }

  /**
   * `build`: the ids are visited in no particular order, and no key is inserted
   * twice into any of the three tables, ids being primary keys of the source too.
   */
  method Build(src: Db) returns (slim: Db)
    requires DistinctIds(src.issues)
    ensures IsSlimOf(slim, src) && DistinctIds(slim.issues)
    ensures forall i :: i in slim.issues <==> i in src.issues && WorthKeeping(i)
  {
    var rows := SelectIssues(src);
    FilterKeepsDistinctIds(Retained, src.issues);
    var issues := InsertIssues(rows);
    var series, pubIds := CollectSeries(src, issues);
    var publishers := CollectPublishers(src, pubIds);
    slim := Db(issues, series, publishers);
    KeptIff(slim, src);
  }

  /** Exactly the issues worth keeping are kept. */
  lemma KeptIff(slim: Db, src: Db)
    requires IsSlimOf(slim, src)
    ensures forall i :: i in slim.issues <==> i in src.issues && WorthKeeping(i)
  {
    FilterMembers(Retained, src.issues);
    forall i
      ensures Retained(i) <==> WorthKeeping(i)
    {
      RetainedMeaning(i);
    }
  }

  // ----- What it answers -----

  /** A row of the barcode search: the issue with its series, and its publisher if there is one. */
  datatype Hit = Hit(issue: Issue, series: Series, publisher: Option<Publisher>)

  /** `JOIN gcd_series ... LEFT JOIN gcd_publisher` for one issue. */
  function Join(db: Db, i: Issue): Option<Hit> {
    if i.seriesId.Some? && i.seriesId.value in db.series then
      var s := db.series[i.seriesId.value];
      Some(Hit(i, s,
               if s.publisherId.Some? && s.publisherId.value in db.publishers
               then Some(db.publishers[s.publisherId.value]) else None))
    else None
  }

  /**
   * The search condition: some text column is filled and the pattern test -- any
   * test on its text, such as LIKE with the scanned digits -- succeeds.
   */
  predicate Matches(hit: string -> bool, i: Issue) {
    || (Filled(i.barcode) && hit(i.barcode.value))
    || (Filled(i.notes) && hit(i.notes.value))
    || (Filled(i.isbn) && hit(i.isbn.value))
  }

  function SearchRows(db: Db, issues: seq<Issue>, hit: string -> bool): seq<Hit> {
    if issues == [] then []
    else
      (if Matches(hit, issues[0]) && Join(db, issues[0]).Some? then [Join(db, issues[0]).value] else [])
      + SearchRows(db, issues[1..], hit)
  }

  function Search(db: Db, hit: string -> bool): seq<Hit> {
    SearchRows(db, db.issues, hit)
  }

  /** What the search answers, in so many words. */
  ghost predicate IsAnswer(db: Db, i: Issue, hit: string -> bool, h: Hit) {
    && i in db.issues && h.issue == i
    && (|| (SomeNonBlank(i.barcode) && hit(i.barcode.value))
        || (SomeNonBlank(i.notes) && hit(i.notes.value))
        || (SomeNonBlank(i.isbn) && hit(i.isbn.value)))
    && i.seriesId.Some? && i.seriesId.value in db.series && h.series == db.series[i.seriesId.value]
    && match h.series.publisherId
       case Some(p) => h.publisher == if p in db.publishers then Some(db.publishers[p]) else None
       case None => h.publisher == None
  }

  lemma {:induction false} RowsMeaning(db: Db, issues: seq<Issue>, hit: string -> bool, h: Hit)
    requires forall i :: i in issues ==> i in db.issues
    ensures h in SearchRows(db, issues, hit) <==> h.issue in issues && IsAnswer(db, h.issue, hit, h)
  {
    if issues != [] {
      assert issues == [issues[0]] + issues[1..];
      RowsMeaning(db, issues[1..], hit, h);
    }
  }

  /** A search finds exactly the issues with a matching column and a series, joined as they should be. */
  lemma SearchMeaning(db: Db, hit: string -> bool, h: Hit)
    ensures h in Search(db, hit) <==> IsAnswer(db, h.issue, hit, h)
  {
    RowsMeaning(db, db.issues, hit, h);
  }

  lemma {:induction false} FilterMembers(p: Issue -> bool, s: seq<Issue>)
    ensures forall i :: i in Filter(p, s) <==> i in s && p(i)
  {
    if s != [] {
      FilterMembers(p, s[1..]);
    }
  }

  /** A retained issue joins to the same series and publisher in both databases. */
  lemma RetainedJoinsAlike(slim: Db, src: Db, i: Issue)
    requires IsSlimOf(slim, src) && i in src.issues && Retained(i)
    ensures Join(slim, i) == Join(src, i)
  {
    FilterMembers(Retained, src.issues);
    var k :| 0 <= k < |slim.issues| && slim.issues[k] == i;
    if i.seriesId.Some? {
      var sid := i.seriesId.value;
      assert SeriesNeeded(slim.issues, sid);
      assert sid in slim.series <==> sid in src.series;
      if sid in src.series && src.series[sid].publisherId.Some? {
        SamePublisher(slim, src, sid, src.series[sid].publisherId.value);
      }
    }
  }

  lemma SamePublisher(slim: Db, src: Db, sid: int, pid: int)
    requires IsSlimOf(slim, src) && sid in slim.series && slim.series[sid].publisherId == Some(pid)
    ensures pid in slim.publishers <==> pid in src.publishers
    ensures pid in slim.publishers ==> slim.publishers[pid] == src.publishers[pid]
  {
    assert PublisherNeeded(slim.series, pid);
  }

  /** Nothing is kept in vain: every series and publisher is reached from a kept issue. */
  lemma KeptRowsAreReached(slim: Db, src: Db)
    requires IsSlimOf(slim, src)
    ensures forall s :: s in slim.series ==> exists i :: i in slim.issues && i.seriesId == Some(s)
    ensures forall p :: p in slim.publishers ==>
              exists i :: i in slim.issues && Join(slim, i).Some? && Join(slim, i).value.series.publisherId == Some(p)
  {
    forall s | s in slim.series
      ensures exists i :: i in slim.issues && i.seriesId == Some(s)
    {
      var k :| 0 <= k < |slim.issues| && slim.issues[k].seriesId == Some(s);
      assert slim.issues[k] in slim.issues;
    }
    forall p | p in slim.publishers
      ensures exists i :: i in slim.issues && Join(slim, i).Some? && Join(slim, i).value.series.publisherId == Some(p)
    {
      var s :| s in slim.series && slim.series[s].publisherId == Some(p);
      var i :| i in slim.issues && i.seriesId == Some(s);
      assert Join(slim, i).Some?;
    }
  }

  // ----- When the answers agree -----

  ghost predicate Overlooked(src: Db, issues: seq<Issue>, hit: string -> bool) {
    exists i :: i in issues && Matches(hit, i) && Join(src, i).Some? && !Retained(i)
  }

  lemma {:induction false} SearchOverFilter(slim: Db, src: Db, issues: seq<Issue>, hit: string -> bool)
    requires IsSlimOf(slim, src) && forall i :: i in issues ==> i in src.issues
    ensures |SearchRows(slim, Filter(Retained, issues), hit)| <= |SearchRows(src, issues, hit)|
    ensures SearchRows(slim, Filter(Retained, issues), hit) == SearchRows(src, issues, hit)
            <==> !Overlooked(src, issues, hit)
    ensures Overlooked(src, issues, hit)
            ==> |SearchRows(slim, Filter(Retained, issues), hit)| < |SearchRows(src, issues, hit)|
    decreases |issues|
  {
    if issues != [] {
      var i, rest := issues[0], issues[1..];
      assert issues == [i] + rest;
      SearchOverFilter(slim, src, rest, hit);
      OverlookedSplit(src, i, rest, hit);
      if Retained(i) {
        RetainedJoinsAlike(slim, src, i);
        SearchOneMore(slim, i, Filter(Retained, rest), hit);
        assert Filter(Retained, issues) == [i] + Filter(Retained, rest);
      } else {
        assert Filter(Retained, issues) == Filter(Retained, rest);
      }
      SearchOneMore(src, i, rest, hit);
    }
  }

  lemma OverlookedSplit(src: Db, i: Issue, rest: seq<Issue>, hit: string -> bool)
    ensures Overlooked(src, [i] + rest, hit)
            <==> (Matches(hit, i) && Join(src, i).Some? && !Retained(i)) || Overlooked(src, rest, hit)
  {
    if Matches(hit, i) && Join(src, i).Some? && !Retained(i) {
      assert i in [i] + rest;
    } else if Overlooked(src, rest, hit) {
      var x :| x in rest && Matches(hit, x) && Join(src, x).Some? && !Retained(x);
      assert x in [i] + rest;
    }
  }

  lemma SearchOneMore(db: Db, i: Issue, rest: seq<Issue>, hit: string -> bool)
    ensures SearchRows(db, [i] + rest, hit)
            == (if Matches(hit, i) && Join(db, i).Some? then [Join(db, i).value] else []) + SearchRows(db, rest, hit)
  {
    assert ([i] + rest)[1..] == rest;
  }

  /**
   * A search gives the same rows over the slim database as over the full one if
   * and only if every issue it finds there is a retained one.
   */
  lemma SearchAgreesIff(slim: Db, src: Db, hit: string -> bool)
    requires IsSlimOf(slim, src)
    ensures Search(slim, hit) == Search(src, hit)
            <==> forall i :: i in src.issues && Matches(hit, i) && Join(src, i).Some? ==> Retained(i)
  {
    SearchOverFilter(slim, src, src.issues, hit);
  }

  /** Only the notes can make a difference: barcode and isbn matches are always found. */
  lemma OnlyNotesAreOverlooked(src: Db, hit: string -> bool, i: Issue)
    requires Matches(hit, i) && !Retained(i)
    ensures Filled(i.notes) && hit(i.notes.value) && !MentionsBarcode(i.notes.value)
    ensures !Filled(i.barcode) && !Filled(i.isbn)
  {
  }

  lemma NoWordInDigits(digits: string, word: string)
    requires AllDigits(digits) && word != "" && !IsDigit(word[0])
    ensures !LikeWord(digits, word)
  {
    var low := Lower(digits);
    forall k | 0 <= k <= |low| - |word|
      ensures !OccursAt(low, word, k)
    {
      assert low[k..k + |word|][0] == low[k] && IsDigit(low[k]);
    }
  }

  /** An issue with nothing but notes to find it by. */
  function Noted(text: string): Issue {
    Issue(1, Some("1"), Some(10), None, None, None, Some(text), None)
  }

  function NotedDb(text: string): Db {
    Db([Noted(text)], map[10 := Series(Some("Series"), Some(2011), None)], map[])
  }

  /**
   * So the slim database does not answer every lookup: whatever digits an issue's
   * notes consist of, the full database finds them there and the slim one does not.
   */
  lemma NotesLookupIsLost(digits: string, slim: Db)
    requires digits != "" && AllDigits(digits) && IsSlimOf(slim, NotedDb(digits))
    ensures Search(NotedDb(digits), text => Find(text, digits).Some?) == [Join(NotedDb(digits), Noted(digits)).value]
    ensures Search(slim, text => Find(text, digits).Some?) == []
  {
    NoWordInDigits(digits, "upc");
    NoWordInDigits(digits, "barcode");
    NoWordInDigits(digits, "bar code");
    assert IsDigit(digits[0]);
    assert !Retained(Noted(digits));
    var db := NotedDb(digits);
    assert OccursAt(digits, digits, 0);
    assert db.issues[1..] == [] && Filter(Retained, db.issues) == [];
    assert Filled(Noted(digits).notes);
    assert SearchRows(db, [], text => Find(text, digits).Some?) == [];
    SearchOneMore(db, Noted(digits), [], text => Find(text, digits).Some?);
    assert [Noted(digits)] + [] == db.issues;
  }

  ghost predicate AlwaysAgrees(hit: string -> bool) {
    forall src, slim :: IsSlimOf(slim, src) ==> Search(slim, hit) == Search(src, hit)
  }

  const EMPTY_DB := Db([], map[], map[])

  lemma NothingRetained(text: string)
    requires !MentionsBarcode(text)
    ensures !Retained(Noted(text)) && IsSlimOf(EMPTY_DB, NotedDb(text))
  {
    assert NotedDb(text).issues[1..] == [];
    assert Filter(Retained, NotedDb(text).issues) == [];
    assert forall sid :: !SeriesNeeded([], sid);
  }

  /**
   * In terms of the test alone: a lookup is answered alike by every database and its
   * slice if and only if the texts it finds all mention a UPC or a barcode.
   */
  lemma LookupAgreesIff(hit: string -> bool)
    ensures AlwaysAgrees(hit) <==> forall text :: Filled(Some(text)) && hit(text) ==> MentionsBarcode(text)
  {
    if forall text :: Filled(Some(text)) && hit(text) ==> MentionsBarcode(text) {
      forall src, slim | IsSlimOf(slim, src)
        ensures Search(slim, hit) == Search(src, hit)
      {
        SearchAgreesIff(slim, src, hit);
      }
    } else {
      var text :| Filled(Some(text)) && hit(text) && !MentionsBarcode(text);
      var src, slim := NotedDb(text), EMPTY_DB;
      NothingRetained(text);
      assert Noted(text) in src.issues && Matches(hit, Noted(text)) && Join(src, Noted(text)).Some?;
      SearchAgreesIff(slim, src, hit);
    }
  }
}
