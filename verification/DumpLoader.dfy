/**
 * The streaming loader (gcd_load_sqlite.py, `convert_dump_to_sqlite`), proved to
 * compute a simple fold over the statements of the file.
 */
module DumpLoader {
  import opened Common
  import opened PyText
  import opened Decimal
  import opened ValueTuples
  import opened Sqlite
  import opened DumpStatements

  // ----- Projection by column name -----

  predicate IsIntColumn(column: string) {
    column in ["id", "year_began", "publisher_id", "series_id"]
  }

  /** `_to_int` for an integer column; other columns are stored as they are. */
  function PickCell(column: string, v: Value): Cell {
    if IsIntColumn(column) then
      match v
      case Null => NullCell
      case Text(t) => match ParseInt(t) case Some(n) => IntCell(n) case None => NullCell
    else
      match v
      case Null => NullCell
      case Text(t) => TextCell(t)
  }

  function IndexOf(columns: seq<string>, column: string): (r: Option<nat>)
    ensures r.Some? ==> r.value < |columns| && columns[r.value] == column && column !in columns[..r.value]
    ensures r.None? <==> column !in columns
  {
    if columns == [] then None
    else if columns[0] == column then Some(0)
    else
      match IndexOf(columns[1..], column)
      case Some(k) => Some(k + 1)
      case None => None
  }

  /** The position of every wanted column, None when one is missing. */
  function Positions(columns: seq<string>, wanted: seq<string>): (r: Option<seq<nat>>)
    ensures r.Some? ==> |r.value| == |wanted|
  {
    if wanted == [] then Some([])
    else
      match (IndexOf(columns, wanted[0]), Positions(columns, wanted[1..]))
      case (Some(k), Some(rest)) => Some([k] + rest)
      case _ => None
  }

  function MaxOf(ps: seq<nat>): (m: nat)
    requires ps != []
    ensures m in ps && forall i :: 0 <= i < |ps| ==> ps[i] <= m
  {
    if |ps| == 1 then ps[0]
    else var rest := MaxOf(ps[1..]); if ps[0] > rest then ps[0] else rest
  }

  function PickRow(wanted: seq<string>, ps: seq<nat>, row: Row): Record
    requires |ps| == |wanted|
    requires forall i :: 0 <= i < |ps| ==> ps[i] < |row|
  {
    seq(|wanted|, i requires 0 <= i < |wanted| => PickCell(wanted[i], row[ps[i]]))
  }

  /** The stored tuples of some parsed rows: rows too short to project are dropped. */
  function Records(wanted: seq<string>, ps: seq<nat>, rows: seq<Row>): seq<Record>
    requires |ps| == |wanted| && ps != []
  {
    if rows == [] then []
    else
      (if MaxOf(ps) >= |rows[0]| then [] else [PickRow(wanted, ps, rows[0])]) + Records(wanted, ps, rows[1..])
  }

  // ----- The simple specification -----

  /** `_explicit_columns` */
  function QuotedNames(s: string): seq<string>
    decreases |s|
  {
    if s == "" then []
    else
      match ColumnName(s)
      case Some(name) => [name] + QuotedNames(s[|name| + 2..])
      case None => QuotedNames(s[1..])
  }

  function ExplicitColumns(head: string): seq<string> {
    match Find(head, "(")
    case Some(k) => QuotedNames(head[k..])
    case None => []
  }

  datatype LoadError = NoColumns(table: string) | MissingColumn(table: string)

  datatype LoadState = LoadState(
    schema: map<string, seq<string>>,
    tables: map<string, Table>,
    counts: map<string, nat>,
    error: Option<LoadError>)

  const TARGETS := {"gcd_publisher", "gcd_series", "gcd_issue"}

  function InitialState(): LoadState {
    LoadState(map[], map t | t in TARGETS :: EMPTY_TABLE, map t | t in TARGETS :: 0, None)
  }

  /** Text before and after the first " VALUES"; None when nothing follows one. */
  function SplitValues(statement: string): (r: Option<(string, string)>)
    ensures r.Some? ==> statement == r.value.0 + VALUES + r.value.1 && r.value.1 != ""
  {
    match Find(statement, VALUES)
    case Some(k) =>
      var values := statement[k + |VALUES|..];
      if values == "" then None else Some((statement[..k], values))
    case None => None
  }

  /** What one INSERT contributes: an error, or tuples for its table. */
  datatype Contribution = Tuples(records: seq<Record>) | Failed(error: LoadError)

  function ColumnsFor(schema: map<string, seq<string>>, table: string, head: string): seq<string> {
    var explicit := ExplicitColumns(head);
    if explicit != [] then explicit else if table in schema then schema[table] else []
  }

  function ContributionOf(table: string, wanted: seq<string>, columns: seq<string>, rows: seq<Row>): Contribution
    requires wanted != []
  {
    if columns == [] then Failed(NoColumns(table))
    else
      match Positions(columns, wanted)
      case Some(ps) => Tuples(Records(wanted, ps, rows))
      case None => Failed(MissingColumn(table))
  }

  /** None for an INSERT without a payload, which is passed over. */
  function StatementContribution(schema: map<string, seq<string>>, table: string, statement: string)
    : Option<Contribution>
    requires IsTarget(table)
  {
    match SplitValues(statement)
    case Some((head, values)) =>
      Some(ContributionOf(table, TargetColumns(table), ColumnsFor(schema, table, head), Parse(values)))
    case None => None
  }

  function TableOf(st: LoadState, table: string): Table {
    if table in st.tables then st.tables[table] else EMPTY_TABLE
  }

  function CountOf(st: LoadState, table: string): nat {
    if table in st.counts then st.counts[table] else 0
  }

  function Store(st: LoadState, table: string, c: Contribution): LoadState {
    match c
    case Tuples(rs) =>
      st.(tables := st.tables[table := InsertAll(TableOf(st, table), rs)],
          counts := st.counts[table := CountOf(st, table) + |rs|])
    case Failed(e) => st.(error := Some(e))
  }

  predicate OnTargets(items: seq<Item>) {
    forall i :: 0 <= i < |items| ==> IsTarget(items[i].table)
  }

  function ApplyItem(st: LoadState, item: Item): LoadState
    requires IsTarget(item.table)
  {
    match item
    case TableDef(t, columns) => st.(schema := st.schema[t := columns])
    case RowsOf(t, text) =>
      match StatementContribution(st.schema, t, text)
      case Some(c) => Store(st, t, c)
      case None => st
  }

  function ApplyAll(st: LoadState, items: seq<Item>): LoadState
    requires OnTargets(items)
    decreases |items|
  {
    if items == [] || st.error.Some? then st else ApplyAll(ApplyItem(st, items[0]), items[1..])
  }

  lemma {:induction false} ItemsOnTargets(lines: seq<string>)
    ensures OnTargets(Items(lines))
    decreases |lines|
  {
    if lines != [] {
      ItemsOnTargets(lines[1..]);
      match KindOf(lines[0])
      case Definition(t) => ItemsOnTargets(lines[1..][CreateBody(lines[1..]).1..]);
      case KeptInsert(t) => ItemsOnTargets(lines[StatementLength(lines)..]);
      case OtherInsert => ItemsOnTargets(lines[StatementLength(lines)..]);
      case Other =>
    }
  }

  function Load(lines: seq<string>): LoadState {
    ItemsOnTargets(lines);
    ApplyAll(InitialState(), Items(lines))
  }

  // ----- The streaming loader -----

  lemma {:induction false} RecordsAppend(wanted: seq<string>, ps: seq<nat>, a: seq<Row>, b: seq<Row>)
    requires |ps| == |wanted| && ps != []
    ensures Records(wanted, ps, a + b) == Records(wanted, ps, a) + Records(wanted, ps, b)
  {
    if a == [] {
      assert a + b == b;
    } else {
      RecordsAppend(wanted, ps, a[1..], b);
      assert (a + b)[1..] == a[1..] + b;
      Assoc(if MaxOf(ps) >= |a[0]| then [] else [PickRow(wanted, ps, a[0])],
            Records(wanted, ps, a[1..]), Records(wanted, ps, b));
    }
  }

  lemma RecordsNext(wanted: seq<string>, ps: seq<nat>, rows: seq<Row>, r: nat)
    requires |ps| == |wanted| && ps != [] && r < |rows|
    ensures Records(wanted, ps, rows[..r + 1]) == Records(wanted, ps, rows[..r])
              + (if MaxOf(ps) >= |rows[r]| then [] else [PickRow(wanted, ps, rows[r])])
  {
    RecordsAppend(wanted, ps, rows[..r], [rows[r]]);
    assert rows[..r + 1] == rows[..r] + [rows[r]];
    assert Records(wanted, ps, []) == [];
    assert [rows[r]][1..] == [];
  }

  method PickFields(wanted: seq<string>, ps: seq<nat>, row: Row) returns (picked: Record)
    requires |ps| == |wanted|
    requires forall i :: 0 <= i < |ps| ==> ps[i] < |row|
    ensures picked == PickRow(wanted, ps, row)
  {
    picked := [];
    var k := 0;
    while k < |wanted|
      invariant 0 <= k <= |wanted|
      invariant picked == PickRow(wanted, ps, row)[..k]
    {
      picked := picked + [PickCell(wanted[k], row[ps[k]])];
      k := k + 1;
    }
  }

  /** Project rows one by one and write them in batches of at most `batchSize`. */
  method WriteRows(db: Database, table: string, wanted: seq<string>, ps: seq<nat>, rows: seq<Row>, batchSize: nat)
    returns (written: nat)
    requires batchSize >= 1
    requires table in db.tables && |ps| == |wanted| && ps != []
    modifies db
    ensures db.tables == old(db.tables)[table := InsertAll(old(db.tables[table]), Records(wanted, ps, rows))]
    ensures written == |Records(wanted, ps, rows)|
  {
    ghost var t0 := db.tables[table];
    var batch: seq<Record> := [];
    written := 0;
    var r := 0;
    while r < |rows|
      invariant 0 <= r <= |rows| && table in db.tables
      invariant InsertAll(db.tables[table], batch) == InsertAll(t0, Records(wanted, ps, rows[..r]))
      invariant written + |batch| == |Records(wanted, ps, rows[..r])|
      invariant db.tables == old(db.tables)[table := db.tables[table]]
    {
      RecordsNext(wanted, ps, rows, r);
      ghost var sofar := Records(wanted, ps, rows[..r]);
      var row := rows[r];
      r := r + 1;
      if MaxOf(ps) >= |row| {
        assert sofar + [] == sofar;
        continue;
      }
      var picked := PickFields(wanted, ps, row);
      InsertAllAppend(db.tables[table], batch, [picked]);
      InsertAllAppend(t0, sofar, [picked]);
      batch := batch + [picked];
      if |batch| >= batchSize {
        db.ExecuteMany(table, batch);
        written := written + |batch|;
        batch := [];
      }
    }
    assert rows[..r] == rows;
    if batch != [] {
      db.ExecuteMany(table, batch);
      written := written + |batch|;
    }
  }

  method ParsePayload(values: string) returns (rows: seq<Row>)
    ensures rows == Parse(values)
  {
    TerminatorIsIrrelevant(values);
    rows := ParseValueTuples(RstripSemicolons(Rstrip(values)));
  }

  /** Resolve the column positions, then load a parsed payload. */
  method LoadValues(db: Database, schema: map<string, seq<string>>, counts: map<string, nat>, table: string,
                    wanted: seq<string>, columns: seq<string>, values: string, batchSize: nat)
    returns (counts': map<string, nat>, error: Option<LoadError>)
    requires batchSize >= 1 && table in db.tables && table in counts && wanted != []
    modifies db
    ensures LoadState(schema, db.tables, counts', error)
            == Store(LoadState(schema, old(db.tables), counts, None), table,
                     ContributionOf(table, wanted, columns, Parse(values)))
    ensures db.tables.Keys == old(db.tables.Keys) && counts'.Keys == counts.Keys
  {
    counts', error := counts, None;
    if columns == [] {
      error := Some(NoColumns(table));
      return;
    }
    var positions := Positions(columns, wanted);
    if positions.None? {
      error := Some(MissingColumn(table));
      return;
    }
    var rows := ParsePayload(values);
    var written := WriteRows(db, table, wanted, positions.value, rows, batchSize);
    counts' := counts[table := counts[table] + written];
  }

  /** Load one assembled INSERT statement of a kept table. */
  method LoadStatement(db: Database, schema: map<string, seq<string>>, counts: map<string, nat>,
                       table: string, statement: string, batchSize: nat)
    returns (counts': map<string, nat>, error: Option<LoadError>)
    requires batchSize >= 1 && IsTarget(table) && table in db.tables && table in counts
    modifies db
    ensures LoadState(schema, db.tables, counts', error)
            == ApplyItem(LoadState(schema, old(db.tables), counts, None), RowsOf(table, statement))
    ensures db.tables.Keys == old(db.tables.Keys) && counts'.Keys == counts.Keys
  {
    var split := SplitValues(statement);
    if split.None? {
      return counts, None;
    }
    var (head, values) := split.value;
    counts', error := LoadValues(db, schema, counts, table, TargetColumns(table),
                                 ColumnsFor(schema, table, head), values, batchSize);
  }

  predicate AllTargetsIn(names: set<string>) {
    forall t :: t in TARGETS ==> t in names
  }

  /** One round of the main loop: a line was read, and its statement may need more lines. */
  method ProcessLine(handle: LineCursor, db: Database, schema: map<string, seq<string>>, counts: map<string, nat>,
                     line: string, batchSize: nat)
    returns (schema': map<string, seq<string>>, counts': map<string, nat>, error: Option<LoadError>)
    requires batchSize >= 1 && handle.Valid()
    requires AllTargetsIn(db.tables.Keys) && AllTargetsIn(counts.Keys)
    modifies handle, db
    ensures handle.Valid() && |handle.Rest()| <= old(|handle.Rest()|)
    ensures AllTargetsIn(db.tables.Keys) && AllTargetsIn(counts'.Keys)
    ensures var st' := LoadState(schema', db.tables, counts', error);
            Continue(LoadState(schema, old(db.tables), counts, None), [line] + old(handle.Rest()))
            == if error.None? then Continue(st', handle.Rest()) else st'
  {
    schema', counts', error := schema, counts, None;
    ghost var rest := [line] + handle.Rest();
    ghost var st := LoadState(schema, db.tables, counts, None);
    assert rest[1..] == handle.Rest();
    match KindOf(line)
    case Definition(table) =>
      var cols := handle.ReadCreateColumns();
      ContinueItem(st, rest, TableDef(table, cols), handle.Rest());
      schema' := schema[table := cols];
    case Other =>
      ContinueSkip(st, rest, handle.Rest());
    case OtherInsert =>
      LstripKeepsEnding(line);
      handle.SkipStatement(Lstrip(line));
      ContinueSkip(st, rest, handle.Rest());
    case KeptInsert(table) =>
      TargetsAreListed(table);
      var statement := handle.AssembleStatement(line);
      ContinueItem(st, rest, RowsOf(table, statement), handle.Rest());
      counts', error := LoadStatement(db, schema, counts, table, statement, batchSize);
  }

  /**
   * Stream the lines and load the kept tables. The database, the counts and the
   * error are those of the whole-file specification, for every batch size.
   */
  method ConvertDump(lines: seq<string>, batchSize: nat)
    returns (db: Database, counts: map<string, nat>, error: Option<LoadError>)
    requires batchSize >= 1
    ensures fresh(db)
    ensures db.tables == Load(lines).tables && counts == Load(lines).counts && error == Load(lines).error
  {
    db := new Database(TARGETS);
    counts := map t | t in TARGETS :: 0;
    error := None;
    var schema: map<string, seq<string>> := map[];
    var handle := new LineCursor(lines);
    assert handle.Rest() == lines;
    while true
      invariant handle.Valid() && fresh(handle) && fresh(db) && error == None
      invariant AllTargetsIn(db.tables.Keys) && AllTargetsIn(counts.Keys)
      invariant Continue(LoadState(schema, db.tables, counts, None), handle.Rest()) == Load(lines)
      decreases |handle.Rest()|
    {
      ghost var rest := handle.Rest();
      var next := handle.Next();
      if next.None? {
        return;
      }
      assert rest == [next.value] + handle.Rest();
      schema, counts, error := ProcessLine(handle, db, schema, counts, next.value, batchSize);
      if error.Some? {
        return;
      }
    }
  }

  /** The specification's result from some point of the file on. */
  function Continue(st: LoadState, rest: seq<string>): LoadState {
    ItemsOnTargets(rest);
    ApplyAll(st, Items(rest))
  }

  lemma TargetsAreListed(table: string)
    ensures IsTarget(table) <==> table in TARGETS
  {
  }

  lemma ContinueSkip(st: LoadState, rest: seq<string>, rest': seq<string>)
    requires Items(rest) == Items(rest')
    ensures Continue(st, rest) == Continue(st, rest')
  {
  }

  lemma ContinueItem(st: LoadState, rest: seq<string>, item: Item, rest': seq<string>)
    requires st.error == None && Items(rest) == [item] + Items(rest')
    ensures IsTarget(item.table) && Continue(st, rest) == Continue(ApplyItem(st, item), rest')
  {
    ItemsOnTargets(rest);
    assert Items(rest)[0] == item && Items(rest)[1..] == Items(rest');
  }
}
