/**
 * The loader end to end: what a described dump leaves in each table, and a table
 * that is dumped and loaded back.
 */
module DumpRoundTrip {
  import opened Common
  import opened PyText
  import opened Decimal
  import opened ValueTuples
  import opened Sqlite
  import opened DumpStatements
  import opened DumpLoader
  import opened DumpLaws
  import opened DumpText

  // ----- The tables of a described dump -----

  function SchemaOf(schema: map<string, seq<string>>, s: Statement): map<string, seq<string>> {
    if s.Create? then schema[s.table := ColumnNames(s.body)] else schema
  }

  /** The tuples one statement describes for a table, its columns taken by name. */
  function DescribedBy(schema: map<string, seq<string>>, s: Statement, table: string): seq<Record> {
    if s.Insert? && s.table == table && IsTarget(table) then
      var names := if s.columns != [] then s.columns else if table in schema then schema[table] else [];
      match ContributionOf(table, TargetColumns(table), names, RowsMeaning(s.rows))
      case Tuples(rs) => rs
      case Failed(_) => []
    else []
  }

  function Described(schema: map<string, seq<string>>, dump: seq<Statement>, table: string): seq<Record>
    decreases |dump|
  {
    if dump == [] then []
    else DescribedBy(schema, dump[0], table) + Described(SchemaOf(schema, dump[0]), dump[1..], table)
  }

  lemma InsertAppends(st: LoadState, s: Statement, table: string)
    requires WellFormed(s) && st.error == None
    ensures s.Insert? && Effect(st, s).error == None ==>
              && TableOf(Effect(st, s), table) == InsertAll(TableOf(st, table), DescribedBy(st.schema, s, table))
              && CountOf(Effect(st, s), table) == CountOf(st, table) + |DescribedBy(st.schema, s, table)|
              && Effect(st, s).schema == st.schema
  {
    if s.Insert? && Effect(st, s).error == None {
      var names := if s.columns != [] then s.columns else if s.table in st.schema then st.schema[s.table] else [];
      StoreAppends(st, s.table, ContributionOf(s.table, TargetColumns(s.table), names, RowsMeaning(s.rows)), table);
    }
  }

  lemma EffectAppends(st: LoadState, s: Statement, table: string)
    requires WellFormed(s) && st.error == None
    ensures Effect(st, s).error == None ==>
              && TableOf(Effect(st, s), table) == InsertAll(TableOf(st, table), DescribedBy(st.schema, s, table))
              && CountOf(Effect(st, s), table) == CountOf(st, table) + |DescribedBy(st.schema, s, table)|
              && Effect(st, s).schema == SchemaOf(st.schema, s)
  {
    if s.Insert? {
      InsertAppends(st, s, table);
    }
  }

  lemma EffectsKeepErrors(st: LoadState, dump: seq<Statement>)
    requires AllWellFormed(dump)
    ensures st.error != None ==> Effects(st, dump).error != None
  {
  }

  lemma {:induction false} EffectsAppend(st: LoadState, dump: seq<Statement>, table: string)
    requires AllWellFormed(dump) && st.error == None
    ensures Effects(st, dump).error == None ==>
              && TableOf(Effects(st, dump), table) == InsertAll(TableOf(st, table), Described(st.schema, dump, table))
              && CountOf(Effects(st, dump), table) == CountOf(st, table) + |Described(st.schema, dump, table)|
    decreases |dump|
  {
    if dump != [] && Effects(st, dump).error == None {
      var st' := Effect(st, dump[0]);
      EffectsKeepErrors(st', dump[1..]);
      EffectAppends(st, dump[0], table);
      EffectsAppend(st', dump[1..], table);
      InsertAllAppend(TableOf(st, table), DescribedBy(st.schema, dump[0], table),
                      Described(st'.schema, dump[1..], table));
    }
  }

  lemma InitialTables(table: string)
    requires IsTarget(table)
    ensures TableOf(InitialState(), table) == EMPTY_TABLE && CountOf(InitialState(), table) == 0
  {
    TargetsAreListed(table);
  }

  /**
   * For every well-formed dump that names all columns it must: each table holds,
   * for every key, the last described tuple with that key, holds nothing else, and
   * its count is the number of described tuples.
   */
  lemma DescribedTable(dump: seq<Statement>, table: string, k: int)
    requires AllWellFormed(dump) && IsTarget(table)
    ensures var log, st := Described(map[], dump, table), Load(FileOf(dump));
            st.error == None ==>
              && CountOf(st, table) == |log|
              && TableOf(st, table) == InsertAll(EMPTY_TABLE, log)
              && (Keyed(log) ==>
                    && (k in TableOf(st, table).rows <==> Mentions(log, k))
                    && forall j :: LastFor(log, k, j) ==>
                         k in TableOf(st, table).rows && TableOf(st, table).rows[k] == log[j][1..])
  {
    DumpLoadsAsDescribed(dump);
    InitialTables(table);
    EffectsAppend(InitialState(), dump, table);
    var log := Described(map[], dump, table);
    if Keyed(log) {
      LastWriteWins(EMPTY_TABLE, log, k);
    }
  }

  // ----- When a described dump loads -----

  /** Every INSERT for a kept table has all its columns: its own list, else the last CREATE TABLE's. */
  ghost predicate Complete(schema: map<string, seq<string>>, dump: seq<Statement>)
    decreases |dump|
  {
    dump == [] || (HasColumns(schema, dump[0]) && Complete(SchemaOf(schema, dump[0]), dump[1..]))
  }

  ghost predicate HasColumns(schema: map<string, seq<string>>, s: Statement) {
    s.Insert? ==>
      var names := if s.columns != [] then s.columns else if s.table in schema then schema[s.table] else [];
      forall i :: 0 <= i < |TargetColumns(s.table)| ==> TargetColumns(s.table)[i] in names
  }

  lemma ContributionSucceedsIff(table: string, wanted: seq<string>, names: seq<string>, rows: seq<Row>)
    requires wanted != []
    ensures ContributionOf(table, wanted, names, rows).Tuples?
            <==> forall i :: 0 <= i < |wanted| ==> wanted[i] in names
  {
    PositionsMeaning(names, wanted);
    if names == [] {
      assert wanted[0] !in names;
    }
  }

  lemma EffectSucceedsIff(st: LoadState, s: Statement)
    requires WellFormed(s) && st.error == None
    ensures Effect(st, s).error == None <==> HasColumns(st.schema, s)
    ensures Effect(st, s).schema == SchemaOf(st.schema, s)
  {
    if s.Insert? {
      var names := if s.columns != [] then s.columns else if s.table in st.schema then st.schema[s.table] else [];
      ContributionSucceedsIff(s.table, TargetColumns(s.table), names, RowsMeaning(s.rows));
    }
  }

  lemma {:induction false} EffectsSucceedIff(st: LoadState, dump: seq<Statement>)
    requires AllWellFormed(dump) && st.error == None
    ensures Effects(st, dump).error == None <==> Complete(st.schema, dump)
    decreases |dump|
  {
    if dump != [] {
      var st' := Effect(st, dump[0]);
      EffectSucceedsIff(st, dump[0]);
      EffectsKeepErrors(st', dump[1..]);
      if st'.error == None {
        EffectsSucceedIff(st', dump[1..]);
      }
    }
  }

  /** A well-formed dump loads without an error exactly when no INSERT lacks a column it needs. */
  lemma LoadSucceedsIff(dump: seq<Statement>)
    requires AllWellFormed(dump)
    ensures Load(FileOf(dump)).error == None <==> Complete(map[], dump)
  {
    DumpLoadsAsDescribed(dump);
    EffectsSucceedIff(InitialState(), dump);
  }

  // ----- Dump a table, load it back -----

  function CellField(c: Cell): Field {
    match c
    case NullCell => Bare("NULL")
    case IntCell(n) => Bare(ShowInt(n))
    case TextCell(s) => Quoted(QuotePieces(s))
  }

  /** Integers in integer columns, text in the others, NULL anywhere. */
  predicate Fits(column: string, c: Cell) {
    c.NullCell? || (c.IntCell? <==> IsIntColumn(column))
  }

  predicate FitsTable(columns: seq<string>, r: Record) {
    |r| == |columns| && forall i :: 0 <= i < |r| ==> Fits(columns[i], r[i])
  }

  lemma ShowIntIsToken(n: int)
    ensures '\'' !in ShowInt(n) && ',' !in ShowInt(n) && ')' !in ShowInt(n)
    ensures Strip(ShowInt(n)) == ShowInt(n) && !IsNullWord(ShowInt(n))
  {
    var digits := ShowNat(if n < 0 then -n else n);
    var s := ShowInt(n);
    assert s[|s| - 1] == digits[|digits| - 1] && IsDigit(s[|s| - 1]);
    forall i | 0 <= i < |s|
      ensures IsDigit(s[i]) || s[i] == '-'
    {
      assert n < 0 && i > 0 ==> s[i] == digits[i - 1];
    }
    StripKeeps(s);
  }

  lemma CellSurvives(column: string, c: Cell)
    requires Fits(column, c)
    ensures WellFormedField(CellField(c)) && PickCell(column, Meaning(CellField(c))) == c
  {
    match c
    case NullCell => ValueFieldMeans(Null);
    case IntCell(n) =>
      ShowIntIsToken(n);
      ParseIntShow(n);
    case TextCell(s) => ValueFieldMeans(Text(s));
  }

  function RecordFields(r: Record): seq<Field> {
    Map(CellField, r)
  }

  /** What the printed tuples parse to. */
  function Reread(rs: seq<Record>): seq<Row> {
    RowsMeaning(Map(RecordFields, rs))
  }

  ghost predicate IsIdentity(ps: seq<nat>) {
    forall i :: 0 <= i < |ps| ==> ps[i] == i
  }

  lemma RecordIsWellFormed(columns: seq<string>, r: Record)
    requires columns != [] && FitsTable(columns, r)
    ensures RecordFields(r) != [] && WellFormedRow(RecordFields(r))
  {
    forall i | 0 <= i < |r|
      ensures WellFormedField(CellField(r[i]))
    {
      CellSurvives(columns[i], r[i]);
    }
  }

  lemma RecordSurvives(columns: seq<string>, ps: seq<nat>, r: Record)
    requires columns != [] && FitsTable(columns, r) && |ps| == |columns| && IsIdentity(ps)
    ensures Records(columns, ps, [RowMeaning(RecordFields(r))]) == [r]
  {
    var row := RowMeaning(RecordFields(r));
    forall i | 0 <= i < |r|
      ensures PickCell(columns[i], row[i]) == r[i]
    {
      CellSurvives(columns[i], r[i]);
    }
    assert PickRow(columns, ps, row) == r;
    assert [row][1..] == [];
  }

  lemma RereadLast(rs: seq<Record>)
    requires rs != []
    ensures Reread(rs) == Reread(rs[..|rs| - 1]) + [RowMeaning(RecordFields(rs[|rs| - 1]))]
  {
  }

  lemma {:induction false} RecordsSurvive(columns: seq<string>, ps: seq<nat>, rs: seq<Record>)
    requires columns != [] && |ps| == |columns| && IsIdentity(ps)
    requires forall i :: 0 <= i < |rs| ==> FitsTable(columns, rs[i])
    ensures Records(columns, ps, Reread(rs)) == rs
  {
    if rs != [] {
      var init, last := rs[..|rs| - 1], rs[|rs| - 1];
      RecordsSurvive(columns, ps, init);
      RecordSurvives(columns, ps, last);
      RereadLast(rs);
      RecordsAppend(columns, ps, Reread(init), [RowMeaning(RecordFields(last))]);
      assert rs == init + [last];
    }
  }

  lemma PositionsOfItself(columns: seq<string>)
    requires Distinct(columns)
    ensures Positions(columns, columns).Some? && IsIdentity(Positions(columns, columns).value)
  {
    PositionsMeaning(columns, columns);
    forall i | 0 <= i < |columns|
      ensures IndexOf(columns, columns[i]) == Some(i)
    {
      assert columns[i] in columns;
      var k := IndexOf(columns, columns[i]).value;
      assert columns[k] == columns[i];
    }
  }

  lemma TargetColumnsAreGood(table: string)
    requires IsTarget(table)
    ensures Distinct(TargetColumns(table))
    ensures forall i :: 0 <= i < |TargetColumns(table)| ==> IsName(TargetColumns(table)[i])
  {
  }

  /** Lower-case letters and underscores. */
  predicate IsWord(s: string) {
    forall i :: 0 <= i < |s| ==> 'a' <= s[i] <= 'z' || s[i] == '_'
  }

  lemma TargetNamesAreWords(table: string)
    requires IsTarget(table)
    ensures IsWord(table)
    ensures forall i :: 0 <= i < |TargetColumns(table)| ==> IsWord(TargetColumns(table)[i])
  {
  }

  lemma WordLacks(s: string, c: char)
    requires IsWord(s) && c in "V\n'\\;"
    ensures c !in s
  {
  }

  lemma {:induction false} ListLacks(columns: seq<string>, c: char)
    requires c !in "`,)" && forall i :: 0 <= i < |columns| ==> c !in columns[i]
    ensures c !in ColumnList(columns)
  {
    if columns != [] {
      ListLacks(columns[1..], c);
    }
  }

  /** The head of a table's INSERT is letters, underscores, backticks, blanks, commas and parentheses. */
  lemma HeadLacks(table: string, c: char)
    requires IsTarget(table) && c in "V\n'\\;"
    ensures c !in Head(table, TargetColumns(table))
  {
    var columns := TargetColumns(table);
    TargetNamesAreWords(table);
    WordLacks(table, c);
    forall i | 0 <= i < |columns|
      ensures c !in columns[i]
    {
      WordLacks(columns[i], c);
    }
    ListLacks(columns, c);
    PartsLack(table, columns, c);
  }

  lemma PartsLack(table: string, columns: seq<string>, c: char)
    requires c !in table && c !in ColumnList(columns) && c in "V\n'\\;"
    ensures c !in Head(table, columns)
  {
    assert c !in INSERT && c !in " `" && c !in "`" && c !in " (";
  }

  lemma HeadHasNoValues(table: string)
    requires IsTarget(table)
    ensures Find(Head(table, TargetColumns(table)), VALUES) == None
  {
    var head := Head(table, TargetColumns(table));
    HeadLacks(table, 'V');
    forall k | 0 <= k <= |head| - |VALUES|
      ensures !OccursAt(head, VALUES, k)
    {
      assert head[k..k + |VALUES|][1] == head[k + 1];
      assert VALUES[1] == 'V';
    }
  }

  /** One INSERT with all columns and rows of a table. */
  function TableDump(table: string, rs: seq<Record>): Statement {
    PrintedInsert(table, TargetColumns(table), Map(RecordFields, rs))
  }

  function TableText(table: string, rs: seq<Record>): string {
    InsertText(table, TargetColumns(table), Map(RecordFields, rs))
  }

  predicate FitTable(table: string, rs: seq<Record>) {
    IsTarget(table) && forall i :: 0 <= i < |rs| ==> FitsTable(TargetColumns(table), rs[i])
  }

  lemma TableDumpIsWellFormed(table: string, rs: seq<Record>)
    requires FitTable(table, rs) && EndsOnce(TableText(table, rs))
    ensures WellFormed(TableDump(table, rs))
  {
    var columns := TargetColumns(table);
    TargetColumnsAreGood(table);
    HeadHasNoValues(table);
    forall i | 0 <= i < |rs|
      ensures RecordFields(rs[i]) != [] && WellFormedRow(RecordFields(rs[i]))
    {
      RecordIsWellFormed(columns, rs[i]);
    }
    PrintedInsertIsWellFormed(table, columns, Map(RecordFields, rs));
  }

  lemma TableDumpContributes(table: string, columns: seq<string>, rs: seq<Record>)
    requires columns != [] && Distinct(columns) && forall i :: 0 <= i < |rs| ==> FitsTable(columns, rs[i])
    ensures ContributionOf(table, columns, columns, Reread(rs)) == Tuples(rs)
  {
    PositionsOfItself(columns);
    RecordsSurvive(columns, Positions(columns, columns).value, rs);
  }

  lemma OneEffect(st: LoadState, s: Statement)
    requires WellFormed(s) && st.error == None
    ensures Effects(st, [s]) == Effect(st, s) && FileOf([s]) == LinesOf(s)
  {
    assert [s][1..] == [];
    assert Effects(Effect(st, s), []) == Effect(st, s);
    assert LinesOf(s) + [] == LinesOf(s);
  }

  lemma TableDumpEffect(st: LoadState, table: string, rs: seq<Record>)
    requires FitTable(table, rs) && EndsOnce(TableText(table, rs))
    ensures WellFormed(TableDump(table, rs))
    ensures Effect(st, TableDump(table, rs)) == Store(st, table, Tuples(rs))
  {
    TableDumpIsWellFormed(table, rs);
    TargetColumnsAreGood(table);
    TableDumpContributes(table, TargetColumns(table), rs);
  }

  lemma TableDumpLoads(table: string, rs: seq<Record>)
    requires FitTable(table, rs) && EndsOnce(TableText(table, rs))
    ensures Load(SplitLines(TableText(table, rs))) == Store(InitialState(), table, Tuples(rs))
  {
    var s, st := TableDump(table, rs), InitialState();
    TableDumpEffect(st, table, rs);
    DumpLoadsAsDescribed([s]);
    OneEffect(st, s);
  }

  /**
   * Dump a table and load the text: every list of tuples that fits the columns --
   * integers, NULLs and strings of any characters -- is written exactly as it was,
   * as long as no line but the last ends in a semicolon.
   */
  lemma TableRoundTrip(table: string, rs: seq<Record>)
    requires FitTable(table, rs) && EndsOnce(TableText(table, rs))
    ensures var st := Load(SplitLines(TableText(table, rs)));
            st.error == None && TableOf(st, table) == InsertAll(EMPTY_TABLE, rs) && CountOf(st, table) == |rs|
  {
    TableDumpLoads(table, rs);
    InitialTables(table);
    StoreAppends(InitialState(), table, Tuples(rs), table);
  }

  // ----- Strings without line feeds -----

  predicate Free(s: string) {
    '\n' !in s
  }

  lemma {:induction false} PiecesFree(ps: seq<Piece>)
    requires forall i :: 0 <= i < |ps| ==> ps[i].c != '\n'
    ensures Free(PieceText(ps))
  {
    if ps != [] {
      PiecesFree(ps[1..]);
    }
  }

  predicate CellFree(c: Cell) {
    c.TextCell? ==> Free(c.s)
  }

  lemma CellTextFree(c: Cell)
    requires CellFree(c)
    ensures Free(FieldText(CellField(c)))
  {
    match c
    case NullCell =>
    case IntCell(n) =>
      var s, digits := ShowInt(n), ShowNat(if n < 0 then -n else n);
      forall i | 0 <= i < |s|
        ensures s[i] != '\n'
      {
        assert n < 0 && i > 0 ==> s[i] == digits[i - 1];
      }
    case TextCell(s) =>
      PiecesFree(QuotePieces(s));
  }

  lemma {:induction false} JoinFree(parts: seq<string>)
    requires forall i :: 0 <= i < |parts| ==> Free(parts[i])
    ensures Free(Join(",", parts))
    decreases |parts|
  {
    if |parts| > 1 {
      JoinFree(parts[..|parts| - 1]);
    }
  }

  lemma RecordTextFree(r: Record)
    requires forall i :: 0 <= i < |r| ==> CellFree(r[i])
    ensures Free(RowText(RecordFields(r)))
  {
    forall i | 0 <= i < |r|
      ensures Free(FieldText(CellField(r[i])))
    {
      CellTextFree(r[i]);
    }
    JoinFree(Map(FieldText, RecordFields(r)));
  }

  lemma {:induction false} SpacedFree(rows: seq<seq<Field>>, gaps: seq<string>)
    requires |gaps| == |rows| + 1
    requires forall i :: 0 <= i < |rows| ==> Free(RowText(rows[i]))
    requires forall i :: 0 <= i < |gaps| ==> Free(gaps[i])
    ensures Free(SpacedText(rows, gaps))
    decreases |rows|
  {
    if rows != [] {
      SpacedFree(rows[..|rows| - 1], gaps[..|rows|]);
    }
  }

  lemma FrontedLine(front: string, line: string)
    requires Free(front) && IsLine(line)
    ensures IsLine(front + line)
  {
    var s := front + line;
    assert s[..|s| - 1] == front + line[..|line| - 1];
  }

  /** With a line feed after the final semicolon alone, the only line feed is the last character. */
  lemma SpacedIsLine(rows: seq<seq<Field>>, gaps: seq<string>)
    requires |gaps| == |rows| + 1 && gaps[|rows|] == ";\n"
    requires forall i :: 0 <= i < |rows| ==> Free(RowText(rows[i])) && Free(gaps[i])
    ensures IsLine(SpacedText(rows, gaps))
  {
    var n := |rows|;
    if n > 0 {
      var front, row := SpacedText(rows[..n - 1], gaps[..n]), RowText(rows[n - 1]);
      SpacedFree(rows[..n - 1], gaps[..n]);
      Assoc(front, row, ";\n");
      FrontedLine(front + row, ";\n");
    }
  }

  lemma HeadFree(table: string)
    requires IsTarget(table)
    ensures Free(Head(table, TargetColumns(table)) + VALUES)
  {
    HeadLacks(table, '\n');
  }

  lemma TableIsLine(table: string, rs: seq<Record>)
    requires FitTable(table, rs)
    requires forall i, j :: 0 <= i < |rs| && 0 <= j < |rs[i]| ==> CellFree(rs[i][j])
    ensures IsLine(TableText(table, rs))
  {
    var rows := Map(RecordFields, rs);
    forall i | 0 <= i < |rs|
      ensures Free(RowText(rows[i]))
    {
      RecordTextFree(rs[i]);
    }
    SpacedIsLine(rows, UsualGaps(|rows|));
    HeadFree(table);
    FrontedLine(Head(table, TargetColumns(table)) + VALUES, SpacedText(rows, UsualGaps(|rows|)));
  }

  /** In particular a table whose strings have no line feeds survives, whatever else they hold. */
  lemma TableWithoutLineFeeds(table: string, rs: seq<Record>)
    requires FitTable(table, rs)
    requires forall i, j :: 0 <= i < |rs| && 0 <= j < |rs[i]| ==> CellFree(rs[i][j])
    ensures EndsOnce(TableText(table, rs))
    ensures TableOf(Load(SplitLines(TableText(table, rs))), table) == InsertAll(EMPTY_TABLE, rs)
  {
    TableIsLine(table, rs);
    OnlyLine(TableText(table, rs));
    TableRoundTrip(table, rs);
  }
}
