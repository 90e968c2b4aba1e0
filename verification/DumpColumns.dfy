/**
 * What the loader stores, column by column: for every described dump, the row under
 * an id holds the values that stand under the named columns, wherever the CREATE
 * TABLE or the INSERT lists them.
 */
module DumpColumns {
  import opened Common
  import opened Decimal
  import opened ValueTuples
  import opened Sqlite
  import opened DumpStatements
  import opened DumpLoader
  import opened DumpLaws
  import opened DumpText
  import opened DumpRoundTrip
  import opened DumpOrder

  // ----- Values by column name -----

  /** A row of values with the names of its columns. */
  datatype Named = Named(names: seq<string>, row: Row)

  /** The row reaches as far as the column. */
  ghost predicate Reaches(n: Named, column: string) {
    exists p: nat :: FirstAt(n.names, column, p) && p < |n.row|
  }

  ghost predicate FirstAt(names: seq<string>, column: string, p: nat) {
    p < |names| && names[p] == column && forall q :: 0 <= q < p ==> names[q] != column
  }

  /** The value under the column: that at its first position (NULL where the row is too short). */
  ghost function Under(n: Named, column: string): Value {
    if Reaches(n, column) then
      var p: nat :| FirstAt(n.names, column, p) && p < |n.row|;
      n.row[p]
    else Null
  }

  ghost function TextUnder(n: Named, column: string): Cell {
    match Under(n, column)
    case Null => NullCell
    case Text(t) => TextCell(t)
  }

  /** NULL, too, when the text is not an integer. */
  ghost function NumberUnder(n: Named, column: string): Cell {
    match Under(n, column)
    case Null => NullCell
    case Text(t) => match ParseInt(t) case Some(i) => IntCell(i) case None => NullCell
  }

  datatype Column = Number(name: string) | Words(name: string)

  const PUBLISHER_COLUMNS := [Number("id"), Words("name")]
  const SERIES_COLUMNS := [Number("id"), Words("name"), Number("year_began"), Number("publisher_id")]
  const ISSUE_COLUMNS := [Number("id"), Words("number"), Words("barcode"), Words("key_date"), Number("series_id")]

  ghost predicate Complete(columns: seq<Column>, n: Named) {
    forall i :: 0 <= i < |columns| ==> Reaches(n, columns[i].name)
  }

  ghost function CellUnder(n: Named, c: Column): Cell {
    if c.Number? then NumberUnder(n, c.name) else TextUnder(n, c.name)
  }

  ghost function TupleOf(columns: seq<Column>, n: Named): (r: Record)
    ensures |r| == |columns| && forall i :: 0 <= i < |r| ==> r[i] == CellUnder(n, columns[i])
  {
    seq(|columns|, i requires 0 <= i < |columns| => CellUnder(n, columns[i]))
  }

  /** The rows that reach every column. */
  ghost function CompleteRows(columns: seq<Column>, ns: seq<Named>): seq<Named> {
    if ns == [] then []
    else (if Complete(columns, ns[0]) then [ns[0]] else []) + CompleteRows(columns, ns[1..])
  }

  ghost function TuplesOf(columns: seq<Column>, ns: seq<Named>): (r: seq<Record>)
    ensures |r| == |ns| && forall i :: 0 <= i < |r| ==> r[i] == TupleOf(columns, ns[i])
  {
    seq(|ns|, i requires 0 <= i < |ns| => TupleOf(columns, ns[i]))
  }

  function NameRows(names: seq<string>, rows: seq<Row>): (r: seq<Named>)
    ensures |r| == |rows| && forall i :: 0 <= i < |r| ==> r[i] == Named(names, rows[i])
  {
    seq(|rows|, i requires 0 <= i < |rows| => Named(names, rows[i]))
  }

  /** The rows a dump gives for a table, in file order, each with its columns. */
  function RowsFor(schema: map<string, seq<string>>, dump: seq<Statement>, table: string): seq<Named>
    decreases |dump|
  {
    if dump == [] then []
    else
      (if dump[0].Insert? && dump[0].table == table
       then NameRows(NamesOf(schema, dump[0]), RowsMeaning(dump[0].rows)) else [])
      + RowsFor(SchemaOf(schema, dump[0]), dump[1..], table)
  }

  // ----- The loader's projection is by name -----

  predicate AreTarget(columns: seq<Column>, wanted: seq<string>) {
    && |columns| == |wanted| && wanted != []
    && forall i :: 0 <= i < |wanted| ==> wanted[i] == columns[i].name && (IsIntColumn(wanted[i]) <==> columns[i].Number?)
  }

  lemma FirstIsIndex(names: seq<string>, column: string, p: nat)
    requires IndexOf(names, column) == Some(p)
    ensures FirstAt(names, column, p)
    ensures forall q: nat :: FirstAt(names, column, q) ==> q == p
  {
    forall q | 0 <= q < p
      ensures names[q] != column
    {
      assert names[..p][q] == names[q];
    }
  }

  lemma CellIs(n: Named, c: Column, p: nat)
    requires IndexOf(n.names, c.name) == Some(p) && (IsIntColumn(c.name) <==> c.Number?)
    ensures Reaches(n, c.name) <==> p < |n.row|
    ensures p < |n.row| ==> CellUnder(n, c) == PickCell(c.name, n.row[p])
  {
    FirstIsIndex(n.names, c.name, p);
  }

  lemma RowIs(columns: seq<Column>, wanted: seq<string>, n: Named, ps: seq<nat>)
    requires AreTarget(columns, wanted) && Positions(n.names, wanted) == Some(ps)
    ensures MaxOf(ps) < |n.row| <==> Complete(columns, n)
    ensures MaxOf(ps) < |n.row| ==> PickRow(wanted, ps, n.row) == TupleOf(columns, n)
  {
    PositionsMeaning(n.names, wanted);
    forall i | 0 <= i < |columns|
      ensures Reaches(n, columns[i].name) <==> ps[i] < |n.row|
      ensures ps[i] < |n.row| ==> CellUnder(n, columns[i]) == PickCell(wanted[i], n.row[ps[i]])
    {
      CellIs(n, columns[i], ps[i]);
    }
    var k :| 0 <= k < |ps| && ps[k] == MaxOf(ps);
  }

  lemma {:induction false} RecordsAre(columns: seq<Column>, wanted: seq<string>, names: seq<string>, ps: seq<nat>,
                                      rows: seq<Row>)
    requires AreTarget(columns, wanted) && Positions(names, wanted) == Some(ps)
    ensures Records(wanted, ps, rows) == TuplesOf(columns, CompleteRows(columns, NameRows(names, rows)))
  {
    var ns := NameRows(names, rows);
    if rows != [] {
      RecordsAre(columns, wanted, names, ps, rows[1..]);
      assert ns[1..] == NameRows(names, rows[1..]);
      RowIs(columns, wanted, ns[0], ps);
    }
  }

  lemma {:induction false} CompleteAppend(columns: seq<Column>, a: seq<Named>, b: seq<Named>)
    ensures CompleteRows(columns, a + b) == CompleteRows(columns, a) + CompleteRows(columns, b)
  {
    if a == [] {
      assert a + b == b;
    } else {
      CompleteAppend(columns, a[1..], b);
      assert (a + b)[1..] == a[1..] + b && (a + b)[0] == a[0];
      Assoc(if Complete(columns, a[0]) then [a[0]] else [], CompleteRows(columns, a[1..]), CompleteRows(columns, b));
    }
  }

  lemma StatementIs(columns: seq<Column>, schema: map<string, seq<string>>, s: Statement, table: string)
    requires AreTarget(columns, TargetColumns(table)) && HasColumns(schema, s)
    requires s.Insert? && s.table == table
    ensures DescribedBy(schema, s, table)
            == TuplesOf(columns, CompleteRows(columns, NameRows(NamesOf(schema, s), RowsMeaning(s.rows))))
  {
    var wanted, names := TargetColumns(table), NamesOf(schema, s);
    ContributionSucceedsIff(table, wanted, names, RowsMeaning(s.rows));
    RecordsAre(columns, wanted, names, Positions(names, wanted).value, RowsMeaning(s.rows));
  }

  lemma TuplesAppend(columns: seq<Column>, a: seq<Named>, b: seq<Named>)
    ensures TuplesOf(columns, CompleteRows(columns, a + b))
            == TuplesOf(columns, CompleteRows(columns, a)) + TuplesOf(columns, CompleteRows(columns, b))
  {
    CompleteAppend(columns, a, b);
  }

  lemma {:induction false} DescribedIs(columns: seq<Column>, schema: map<string, seq<string>>, dump: seq<Statement>,
                                       table: string)
    requires AreTarget(columns, TargetColumns(table)) && DumpRoundTrip.Complete(schema, dump)
    ensures Described(schema, dump, table) == TuplesOf(columns, CompleteRows(columns, RowsFor(schema, dump, table)))
    decreases |dump|
  {
    if dump != [] {
      var s, rest := dump[0], RowsFor(SchemaOf(schema, dump[0]), dump[1..], table);
      DescribedIs(columns, SchemaOf(schema, s), dump[1..], table);
      var own := if s.Insert? && s.table == table then NameRows(NamesOf(schema, s), RowsMeaning(s.rows)) else [];
      OwnRows(columns, schema, s, table, own);
      TuplesAppend(columns, own, rest);
    }
  }

  lemma OwnRows(columns: seq<Column>, schema: map<string, seq<string>>, s: Statement, table: string, own: seq<Named>)
    requires AreTarget(columns, TargetColumns(table))
    requires s.Insert? && s.table == table ==> HasColumns(schema, s)
    requires own == if s.Insert? && s.table == table then NameRows(NamesOf(schema, s), RowsMeaning(s.rows)) else []
    ensures DescribedBy(schema, s, table) == TuplesOf(columns, CompleteRows(columns, own))
  {
    if s.Insert? && s.table == table {
      StatementIs(columns, schema, s, table);
    }
  }

  /** Row `j` is the last one with this id. */
  ghost predicate LastWithId(log: seq<Named>, k: int, j: nat) {
    && j < |log| && NumberUnder(log[j], "id") == IntCell(k)
    && forall i :: j < i < |log| ==> NumberUnder(log[i], "id") != IntCell(k)
  }

  lemma StoredTuple(columns: seq<Column>, dump: seq<Statement>, table: string, k: int, j: nat)
    requires AreTarget(columns, TargetColumns(table)) && columns[0] == Number("id")
    requires AllWellFormed(dump)
    ensures var log, st := CompleteRows(columns, RowsFor(map[], dump, table)), Load(FileOf(dump));
            st.error == None ==>
              && CountOf(st, table) == |log|
              && (LastWithId(log, k, j) ==>
                    k in TableOf(st, table).rows && TableOf(st, table).rows[k] == TupleOf(columns, log[j])[1..])
  {
    var log := CompleteRows(columns, RowsFor(map[], dump, table));
    if Load(FileOf(dump)).error == None {
      LoadSucceedsIff(dump);
      DescribedIs(columns, map[], dump, table);
      DescribedTable(dump, table, k);
      var rs := TuplesOf(columns, log);
      if LastWithId(log, k, j) {
        assert LastNaming(rs, k, j);
        LastNamingWins(EMPTY_TABLE, rs, k, j);
      }
    }
  }

  // ----- The three tables -----

  lemma ColumnsAreTarget()
    ensures AreTarget(PUBLISHER_COLUMNS, TargetColumns("gcd_publisher"))
    ensures AreTarget(SERIES_COLUMNS, TargetColumns("gcd_series"))
    ensures AreTarget(ISSUE_COLUMNS, TargetColumns("gcd_issue"))
  {
  }

  const PUBLISHER_NAMES := ["id", "name"]
  const SERIES_NAMES := ["id", "name", "year_began", "publisher_id"]
  const ISSUE_NAMES := ["id", "number", "barcode", "key_date", "series_id"]

  predicate AreNames(columns: seq<Column>, names: seq<string>) {
    |names| == |columns| && forall i :: 0 <= i < |names| ==> names[i] == columns[i].name
  }

  lemma NamesAreRight()
    ensures AreNames(PUBLISHER_COLUMNS, PUBLISHER_NAMES)
    ensures AreNames(SERIES_COLUMNS, SERIES_NAMES)
    ensures AreNames(ISSUE_COLUMNS, ISSUE_NAMES)
  {
  }

  ghost function PublisherRow(n: Named): Record { [TextUnder(n, "name")] }

  ghost function SeriesRow(n: Named): Record {
    [TextUnder(n, "name"), NumberUnder(n, "year_began"), NumberUnder(n, "publisher_id")]
  }

  ghost function IssueRow(n: Named): Record {
    [TextUnder(n, "number"), TextUnder(n, "barcode"), TextUnder(n, "key_date"), NumberUnder(n, "series_id")]
  }

  lemma TuplesAreRows(n: Named)
    ensures TupleOf(PUBLISHER_COLUMNS, n)[1..] == PublisherRow(n)
    ensures TupleOf(SERIES_COLUMNS, n)[1..] == SeriesRow(n)
    ensures TupleOf(ISSUE_COLUMNS, n)[1..] == IssueRow(n)
  {
  }

  ghost predicate ReachesAll(n: Named, columns: seq<string>) {
    forall i :: 0 <= i < |columns| ==> Reaches(n, columns[i])
  }

  /** The rows of a dump for a table that are long enough to have all these columns. */
  ghost function LongRows(columns: seq<string>, ns: seq<Named>): seq<Named> {
    if ns == [] then [] else (if ReachesAll(ns[0], columns) then [ns[0]] else []) + LongRows(columns, ns[1..])
  }

  lemma {:induction false} LongRowsAre(columns: seq<Column>, names: seq<string>, ns: seq<Named>)
    requires AreNames(columns, names)
    ensures LongRows(names, ns) == CompleteRows(columns, ns)
  {
    if ns != [] {
      LongRowsAre(columns, names, ns[1..]);
    }
  }

  ghost predicate Holds(st: LoadState, table: string, k: int, row: Record) {
    k in TableOf(st, table).rows && TableOf(st, table).rows[k] == row
  }

  /** A publisher is stored as the text under "name" of the last row with its id. */
  lemma StoredPublisher(dump: seq<Statement>, k: int, j: nat)
    requires AllWellFormed(dump)
    ensures var log, st := LongRows(PUBLISHER_NAMES, RowsFor(map[], dump, "gcd_publisher")), Load(FileOf(dump));
            st.error == None ==>
              && CountOf(st, "gcd_publisher") == |log|
              && (LastWithId(log, k, j) ==> Holds(st, "gcd_publisher", k, PublisherRow(log[j])))
  {
    ColumnsAreTarget();
    NamesAreRight();
    LongRowsAre(PUBLISHER_COLUMNS, PUBLISHER_NAMES, RowsFor(map[], dump, "gcd_publisher"));
    StoredTuple(PUBLISHER_COLUMNS, dump, "gcd_publisher", k, j);
    var log := LongRows(PUBLISHER_NAMES, RowsFor(map[], dump, "gcd_publisher"));
    if j < |log| {
      TuplesAreRows(log[j]);
    }
  }

  /** A series: the text under "name" and the integers under "year_began" and "publisher_id". */
  lemma StoredSeries(dump: seq<Statement>, k: int, j: nat)
    requires AllWellFormed(dump)
    ensures var log, st := LongRows(SERIES_NAMES, RowsFor(map[], dump, "gcd_series")), Load(FileOf(dump));
            st.error == None ==>
              && CountOf(st, "gcd_series") == |log|
              && (LastWithId(log, k, j) ==> Holds(st, "gcd_series", k, SeriesRow(log[j])))
  {
    ColumnsAreTarget();
    NamesAreRight();
    LongRowsAre(SERIES_COLUMNS, SERIES_NAMES, RowsFor(map[], dump, "gcd_series"));
    StoredTuple(SERIES_COLUMNS, dump, "gcd_series", k, j);
    var log := LongRows(SERIES_NAMES, RowsFor(map[], dump, "gcd_series"));
    if j < |log| {
      TuplesAreRows(log[j]);
    }
  }

  /**
   * An issue: the text under "number", under "barcode" and under "key_date", and the
   * integer under "series_id", of the last long enough row with its id -- whatever
   * order the CREATE TABLE or the INSERT lists the columns in.
   */
  lemma StoredIssue(dump: seq<Statement>, k: int, j: nat)
    requires AllWellFormed(dump)
    ensures var log, st := LongRows(ISSUE_NAMES, RowsFor(map[], dump, "gcd_issue")), Load(FileOf(dump));
            st.error == None ==>
              && CountOf(st, "gcd_issue") == |log|
              && (LastWithId(log, k, j) ==> Holds(st, "gcd_issue", k, IssueRow(log[j])))
  {
    ColumnsAreTarget();
    NamesAreRight();
    LongRowsAre(ISSUE_COLUMNS, ISSUE_NAMES, RowsFor(map[], dump, "gcd_issue"));
    StoredTuple(ISSUE_COLUMNS, dump, "gcd_issue", k, j);
    var log := LongRows(ISSUE_NAMES, RowsFor(map[], dump, "gcd_issue"));
    if j < |log| {
      TuplesAreRows(log[j]);
    }
  }
}
