/**
 * Statements that are cut short: a line inside a quoted string that happens to end
 * with a semicolon ends the statement for the loader. What is read from that first
 * statement, what becomes of the lines behind it, a table that is lost this way and
 * one that is replaced.
 */
module DumpCuts {
  import opened Common
  import opened PyText
  import opened ValueTuples
  import opened Sqlite
  import opened DumpStatements
  import opened DumpLoader
  import opened DumpLaws
  import opened DumpText
  import opened DumpRoundTrip
  import opened DumpSurvival

  /** What the loader takes for the statement that begins the text. */
  function FirstStatement(text: string): string
    requires text != ""
  {
    var lines := SplitLines(text);
    Flatten(lines[..StatementLength(lines)])
  }

  /** Either the whole text, or a proper beginning that ends in a line feed. */
  lemma FirstStatementEnds(text: string)
    requires text != ""
    ensures var lines, first := SplitLines(text), FirstStatement(text);
            if StatementLength(lines) == |lines| then first == text
            else first != "" && first < text && first[|first| - 1] == '\n'
  {
    var lines := SplitLines(text);
    var n := StatementLength(lines);
    if n == |lines| {
      assert lines[..n] == lines;
      SplitLinesLossless(text);
    } else {
      FirstLinesEnd(text, n);
    }
  }

  /** It holds everything before the first line feed, and more. */
  lemma FirstStatementHolds(front: string, text: string)
    requires front < text && Free(front)
    ensures front < FirstStatement(text)
  {
    FirstStatementEnds(text);
    forall i | 0 <= i < |front|
      ensures text[i] != '\n'
    {
      assert text[i] == front[i];
    }
  }

  /** A printed INSERT is read whole exactly when none of its lines ends early. */
  lemma ReadWholeIff(front: string)
    ensures FirstStatement(front + ";\n") == front + ";\n" <==> EndsOnce(front + ";\n")
  {
    var text := front + ";\n";
    var lines := SplitLines(text);
    LastLineEnds(front);
    StatementReadWhole(lines, []);
    assert lines + [] == lines;
    FirstStatementEnds(text);
  }

  // ----- What a cut statement contributes -----

  /** The columns can be found and the head has no line feed. */
  predicate PlainHead(table: string, columns: seq<string>) {
    && IsTarget(table)
    && (forall i :: 0 <= i < |columns| ==> IsName(columns[i]))
    && Find(Head(table, columns), VALUES) == None
    && Free(Head(table, columns) + VALUES)
  }

  lemma CutAfter(front: string, values: string) returns (c: nat)
    requires Free(front) && values != ""
    ensures 0 < c <= |values| && FirstStatement(front + values) == front + values[..c]
  {
    var text := front + values;
    FirstStatementHolds(front, text);
    FirstStatementEnds(text);
    var first := FirstStatement(text);
    c := |first| - |front|;
    assert first == text[..|first|] == front + values[..c];
  }

  /** The rows that are closed before the first statement of `front` and the rows ends. */
  function ReadAfter(front: string, rows: seq<seq<Field>>, gaps: seq<string>): (k: nat)
    requires |gaps| == |rows| + 1 && front + SpacedText(rows, gaps) != ""
    ensures k <= |rows|
  {
    var read := |FirstStatement(front + SpacedText(rows, gaps))|;
    RowsWithin(rows, gaps, if read > |front| then read - |front| else 0)
  }

  lemma CutValues(front: string, rows: seq<seq<Field>>, gaps: seq<string>) returns (c: nat)
    requires Free(front) && |gaps| == |rows| + 1 && SpacedText(rows, gaps) != ""
    ensures 0 < c <= |SpacedText(rows, gaps)|
    ensures FirstStatement(front + SpacedText(rows, gaps)) == front + SpacedText(rows, gaps)[..c]
    ensures ReadAfter(front, rows, gaps) == RowsWithin(rows, gaps, c)
  {
    c := CutAfter(front, SpacedText(rows, gaps));
    assert |front + SpacedText(rows, gaps)[..c]| == |front| + c;
  }

  lemma LastIsCounted(rows: seq<seq<Field>>, gaps: seq<string>, c: nat)
    requires |gaps| == |rows| + 1 && rows != [] && RowsWithin(rows, gaps, c) == |rows|
    ensures |SpacedText(rows[..|rows| - 1], gaps[..|rows|])| + |RowText(rows[|rows| - 1])| <= c
  {
  }

  /** Once the last row is closed no line feed comes before the end. */
  lemma LastRowAndEnd(rows: seq<seq<Field>>, gaps: seq<string>, c: nat)
    requires |gaps| == |rows| + 1 && gaps[|rows|] == ";\n"
    requires 0 < c < |SpacedText(rows, gaps)| && RowsWithin(rows, gaps, c) == |rows|
    ensures SpacedText(rows, gaps)[c - 1] != '\n'
  {
    var n := |rows|;
    if n > 0 {
      var before, row := SpacedText(rows[..n - 1], gaps[..n]), RowText(rows[n - 1]);
      LastIsCounted(rows, gaps, c);
      Assoc(before, row, ";\n");
      assert SpacedText(rows, gaps) == (before + row) + ";\n" && (before + row)[|before + row| - 1] == ')';
    }
  }

  lemma CutMissesOne(front: string, rows: seq<seq<Field>>, gaps: seq<string>, c: nat)
    requires |gaps| == |rows| + 1 && gaps[|rows|] == ";\n" && 0 < c < |SpacedText(rows, gaps)|
    requires FirstStatement(front + SpacedText(rows, gaps)) == front + SpacedText(rows, gaps)[..c]
    ensures RowsWithin(rows, gaps, c) < |rows|
  {
    var values := SpacedText(rows, gaps);
    FirstStatementEnds(front + values);
    var first := FirstStatement(front + values);
    assert |first| == |front| + c;
    assert first[|first| - 1] == values[..c][c - 1];
    if RowsWithin(rows, gaps, c) == |rows| {
      LastRowAndEnd(rows, gaps, c);
    }
  }

  /** Every row is read exactly when the first statement is everything. */
  lemma AllReadIff(front: string, rows: seq<seq<Field>>, gaps: seq<string>)
    requires Free(front) && |gaps| == |rows| + 1 && gaps[|rows|] == ";\n" && SpacedText(rows, gaps) != ""
    ensures ReadAfter(front, rows, gaps) == |rows|
            <==> FirstStatement(front + SpacedText(rows, gaps)) == front + SpacedText(rows, gaps)
  {
    var values := SpacedText(rows, gaps);
    var c := CutValues(front, rows, gaps);
    if c == |values| {
      RowsWithinAll(rows, gaps, c);
      assert values[..c] == values;
    } else {
      CutMissesOne(front, rows, gaps, c);
      assert |front + values[..c]| < |front + values|;
    }
  }

  /** The rows of a printed INSERT that are closed before the loader takes it to end. */
  function RowsRead(table: string, columns: seq<string>, rows: seq<seq<Field>>): (k: nat)
    ensures k <= |rows|
  {
    ReadAfter(Head(table, columns) + VALUES, rows, UsualGaps(|rows|))
  }

  lemma UsualGapsAreWellFormed(n: nat)
    ensures WellFormedGaps(UsualGaps(n))
  {
  }

  lemma SpacedNotEmpty(rows: seq<seq<Field>>)
    ensures SpacedText(rows, UsualGaps(|rows|)) != ""
  {
  }

  /**
   * Wherever a printed INSERT is cut, the loader gets from its first statement exactly
   * the rows that were closed before the cut.
   */
  lemma CutContributes(schema: map<string, seq<string>>, table: string, columns: seq<string>, rows: seq<seq<Field>>)
    requires PlainHead(table, columns) && WellFormedRows(rows)
    ensures InsertText(table, columns, rows) != ""
    ensures var names := if columns != [] then columns else if table in schema then schema[table] else [];
            StatementContribution(schema, table, FirstStatement(InsertText(table, columns, rows)))
            == Some(ContributionOf(table, TargetColumns(table), names,
                                   RowsMeaning(rows[..RowsRead(table, columns, rows)])))
  {
    var gaps := UsualGaps(|rows|);
    SpacedNotEmpty(rows);
    var c := CutValues(Head(table, columns) + VALUES, rows, gaps);
    HeadEnds(table, columns);
    SplitFound(Head(table, columns), SpacedText(rows, gaps)[..c]);
    HeadColumns(table, columns);
    UsualGapsAreWellFormed(|rows|);
    TruncatedSpaced(rows, gaps, c);
  }

  /** Every row is read exactly when no line of the statement ends early in a semicolon. */
  lemma AllRowsReadIff(table: string, columns: seq<string>, rows: seq<seq<Field>>)
    requires PlainHead(table, columns)
    ensures InsertText(table, columns, rows) != ""
    ensures RowsRead(table, columns, rows) == |rows| <==> EndsOnce(InsertText(table, columns, rows))
  {
    SpacedNotEmpty(rows);
    AllReadIff(Head(table, columns) + VALUES, rows, UsualGaps(|rows|));
    var body := InsertTextParts(table, columns, rows);
    ReadWholeIff(body);
  }

  // ----- Tables -----

  lemma TableHeadIsPlain(table: string)
    requires IsTarget(table)
    ensures PlainHead(table, TargetColumns(table))
  {
    TargetColumnsAreGood(table);
    HeadHasNoValues(table);
    HeadFree(table);
  }

  /** How many tuples of a dumped table its one statement is read with. */
  function TuplesRead(table: string, rs: seq<Record>): (k: nat)
    ensures k <= |rs|
  {
    RowsRead(table, TargetColumns(table), Map(RecordFields, rs))
  }

  lemma TableRowsAreWellFormed(table: string, rs: seq<Record>)
    requires FitTable(table, rs)
    ensures WellFormedRows(Map(RecordFields, rs))
  {
    forall i | 0 <= i < |rs|
      ensures RecordFields(rs[i]) != [] && WellFormedRow(RecordFields(rs[i]))
    {
      RecordIsWellFormed(TargetColumns(table), rs[i]);
    }
  }

  /**
   * The statement of a dumped table contributes a beginning of its tuples: all of
   * them if and only if no line but the last ends in a semicolon.
   */
  lemma TableCut(table: string, rs: seq<Record>)
    requires FitTable(table, rs)
    ensures TableText(table, rs) != ""
    ensures StatementContribution(map[], table, FirstStatement(TableText(table, rs)))
            == Some(Tuples(rs[..TuplesRead(table, rs)]))
    ensures TuplesRead(table, rs) == |rs| <==> EndsOnce(TableText(table, rs))
  {
    var columns, rows := TargetColumns(table), Map(RecordFields, rs);
    var k := TuplesRead(table, rs);
    TableHeadIsPlain(table);
    TableRowsAreWellFormed(table, rs);
    CutContributes(map[], table, columns, rows);
    AllRowsReadIff(table, columns, rows);
    TargetColumnsAreGood(table);
    TableDumpContributes(table, columns, rs[..k]);
    assert rows[..k] == Map(RecordFields, rs[..k]);
  }

  /** The lines behind the first statement. */
  function LinesAfter(text: string): seq<string>
    requires text != ""
  {
    var lines := SplitLines(text);
    lines[StatementLength(lines)..]
  }

  lemma FirstLineIsKept(table: string, rs: seq<Record>)
    requires IsTarget(table)
    ensures TableText(table, rs) != ""
    ensures KindOf(SplitLines(TableText(table, rs))[0]) == KeptInsert(table)
  {
    var text := TableText(table, rs);
    var start := INSERT + " `" + table + "`";
    var body := InsertTextParts(table, TargetColumns(table), Map(RecordFields, rs));
    NoLineFeed(table);
    assert start <= text;
    FirstLineHolds(start, text);
    var line := SplitLines(text)[0];
    assert line == start + line[|start|..];
    FirstLineKind(INSERT, table, line[|start|..]);
  }

  /**
   * The whole effect of a dumped table's text: the tuples read from its statement are
   * stored, and the loader reads on behind it -- as anything those lines may be.
   */
  lemma TableLoad(table: string, rs: seq<Record>)
    requires FitTable(table, rs)
    ensures TableText(table, rs) != ""
    ensures Load(SplitLines(TableText(table, rs)))
            == Continue(Store(InitialState(), table, Tuples(rs[..TuplesRead(table, rs)])), LinesAfter(TableText(table, rs)))
  {
    var text := TableText(table, rs);
    TableCut(table, rs);
    FirstLineIsKept(table, rs);
    ContinueItem(InitialState(), SplitLines(text), RowsOf(table, FirstStatement(text)), LinesAfter(text));
  }

  // ----- A table that is lost -----

  const PUBLISHER := "gcd_publisher"

  /** If lines are left over, a dump of one tuple is read with none. */
  lemma NothingReadFirst(rs: seq<Record>)
    requires FitTable(PUBLISHER, rs) && |rs| == 1
    requires TableText(PUBLISHER, rs) != "" && LinesAfter(TableText(PUBLISHER, rs)) != []
    ensures rs[..TuplesRead(PUBLISHER, rs)] == []
  {
    var text := TableText(PUBLISHER, rs);
    var lines := SplitLines(text);
    TableCut(PUBLISHER, rs);
    var body := InsertTextParts(PUBLISHER, TargetColumns(PUBLISHER), Map(RecordFields, rs));
    ReadWholeIff(body);
    FirstStatementEnds(text);
  }

  /** The state after a statement that contributed nothing. */
  function NothingStored(): LoadState { Store(InitialState(), PUBLISHER, Tuples([])) }

  lemma NothingStoredYet()
    ensures NothingStored().error == None
    ensures TableOf(NothingStored(), PUBLISHER) == EMPTY_TABLE && CountOf(NothingStored(), PUBLISHER) == 0
  {
    InitialTables(PUBLISHER);
    StoreAppends(InitialState(), PUBLISHER, Tuples([]), PUBLISHER);
  }

  lemma CutTupleIsLost(rs: seq<Record>)
    requires FitTable(PUBLISHER, rs) && |rs| == 1
    requires TableText(PUBLISHER, rs) != "" && LinesAfter(TableText(PUBLISHER, rs)) != []
    ensures Load(SplitLines(TableText(PUBLISHER, rs))) == Continue(NothingStored(), LinesAfter(TableText(PUBLISHER, rs)))
  {
    NothingReadFirst(rs);
    TableLoad(PUBLISHER, rs);
  }

  /** One publisher, its name ending in a semicolon and a line feed. */
  function Lost(name: string): seq<Record> { [[IntCell(1), TextCell(name + ";\n")]] }

  lemma LostName(name: string)
    ensures FieldText(CellField(TextCell(name + ";\n"))) == "'" + PieceText(QuotePieces(name)) + (";\n" + "'")
  {
    var end := QuotePieces(";\n");
    assert QuotePieces(name + ";\n") == QuotePieces(name) + end;
    PieceTextAppend(QuotePieces(name), end);
    assert end[1..] == [Raw('\n')] && end[1..][1..] == [];
    assert PieceText(end[1..]) == "\n" && PieceText(end) == ";\n";
    Assoc("'" + PieceText(QuotePieces(name)), ";\n", "'");
  }

  lemma TwoFields(a: Field, b: Field)
    ensures RowText([a, b]) == "(" + (FieldText(a) + ("," + FieldText(b))) + ")"
  {
    FieldsTextLast([a, b]);
    assert [a, b][..1] == [a] && Map(FieldText, [a]) == [FieldText(a)];
  }

  lemma CloseRow(p: string)
    ensures "(" + ("1" + ("," + ("'" + p + (";\n" + "'")))) + ")" == "(1,'" + p + (";\n" + "')")
  {
  }

  lemma LostRow(name: string)
    ensures RowText(RecordFields(Lost(name)[0])) == "(1,'" + PieceText(QuotePieces(name)) + (";\n" + "')")
  {
    var b := CellField(TextCell(name + ";\n"));
    assert RecordFields(Lost(name)[0]) == [Bare("1"), b];
    LostName(name);
    TwoFields(Bare("1"), b);
    CloseRow(PieceText(QuotePieces(name)));
  }

  lemma OneRow(fs: seq<Field>)
    ensures SpacedText([fs], UsualGaps(1)) == " " + (RowText(fs) + ";\n")
  {
    var gaps := UsualGaps(1);
    assert [fs][..0] == [] && gaps[..1] == [" "] && gaps[1] == ";\n";
    assert SpacedText([fs][..0], gaps[..1]) == " ";
  }

  lemma CloseText(head: string, p: string)
    ensures head + (" " + ("(1,'" + p + (";\n" + "')") + ";\n")) == head + " (1,'" + p + ";\n" + "');\n"
  {
  }

  /** The text's two lines: up to the line feed in the name, and what follows it. */
  lemma LostText(name: string) returns (front: string)
    ensures TableText(PUBLISHER, Lost(name)) == front + ";\n" + "');\n"
    ensures Free(name) ==> Free(front)
    ensures INSERT + " `" + PUBLISHER + "`" <= front
  {
    var head, p := Head(PUBLISHER, TargetColumns(PUBLISHER)) + VALUES, PieceText(QuotePieces(name));
    assert Map(RecordFields, Lost(name)) == [RecordFields(Lost(name)[0])];
    LostRow(name);
    OneRow(RecordFields(Lost(name)[0]));
    CloseText(head, p);
    front := head + " (1,'" + p;
    HeadFree(PUBLISHER);
    if Free(name) {
      PiecesFree(QuotePieces(name));
    }
  }

  lemma LeftoverIsSkipped()
    ensures Items(["');\n"]) == []
  {
    assert Lstrip("');\n") == "');\n";
    assert "');\n"[0] == '\'' && CREATE[0] == 'C' && INSERT[0] == 'I';
    assert ["');\n"][1..] == [];
  }

  lemma TwoLines(front: string)
    requires Free(front)
    ensures SplitLines(front + ";\n" + "');\n") == [front + ";\n", "');\n"]
    ensures StatementLength([front + ";\n", "');\n"]) == 1
  {
    var line := front + ";\n";
    assert line[..|line| - 1] == front + ";";
    FirstLine(line, "');\n");
    OnlyLine("');\n");
    SemicolonEnds(front);
  }

  lemma LostLines(name: string)
    requires Free(name)
    ensures var lines := SplitLines(TableText(PUBLISHER, Lost(name)));
            && |lines| == 2 && lines[1] == "');\n" && StatementLength(lines) == 1
            && KindOf(lines[0]) == KeptInsert(PUBLISHER)
  {
    var front := LostText(name);
    var start := INSERT + " `" + PUBLISHER + "`";
    TwoLines(front);
    FirstLineKind(INSERT, PUBLISHER, (front + ";\n")[|start|..]);
    assert front + ";\n" == start + (front + ";\n")[|start|..];
  }

  lemma LostFits(name: string)
    ensures FitTable(PUBLISHER, Lost(name))
  {
  }

  /**
   * A publisher whose name has a line feed after a semicolon is not loaded: the
   * table stays empty, whatever else is in the name, and no error is raised.
   */
  lemma NameEndingLineIsLost(name: string)
    requires Free(name)
    ensures FitTable(PUBLISHER, Lost(name)) && !EndsOnce(TableText(PUBLISHER, Lost(name)))
    ensures var st := Load(SplitLines(TableText(PUBLISHER, Lost(name))));
            st.error == None && CountOf(st, PUBLISHER) == 0 && TableOf(st, PUBLISHER) == EMPTY_TABLE
  {
    var rs := Lost(name);
    LostFits(name);
    LostLines(name);
    assert LinesAfter(TableText(PUBLISHER, rs)) == ["');\n"];
    CutTupleIsLost(rs);
    NothingStoredYet();
    LeftoverChangesNothing(NothingStored());
  }

  lemma LeftoverChangesNothing(st: LoadState)
    ensures Continue(st, ["');\n"]) == st
  {
    LeftoverIsSkipped();
  }

  // ----- A table that is replaced -----

  /** Tuples of numbers and NULLs. */
  predicate NoText(rs: seq<Record>) {
    forall i, j :: 0 <= i < |rs| && 0 <= j < |rs[i]| ==> !rs[i][j].TextCell?
  }

  /** One publisher whose name, behind a semicolon and a line feed, is the text of another dump. */
  function Nested(rs: seq<Record>): seq<Record> {
    [[IntCell(1), TextCell(";\n" + TableText(PUBLISHER, rs))]]
  }

  predicate Unquoted(s: string) { '\\' !in s && '\'' !in s }

  lemma {:induction false} UnquotedIsItself(s: string)
    requires Unquoted(s)
    ensures PieceText(QuotePieces(s)) == s
  {
    if s != "" {
      UnquotedIsItself(s[1..]);
      assert QuotePieces(s)[1..] == QuotePieces(s[1..]);
      assert s == [s[0]] + s[1..];
    }
  }

  lemma {:induction false} JoinUnquoted(parts: seq<string>)
    requires forall i :: 0 <= i < |parts| ==> Unquoted(parts[i])
    ensures Unquoted(Join(",", parts))
    decreases |parts|
  {
    if |parts| > 1 {
      JoinUnquoted(parts[..|parts| - 1]);
    }
  }

  lemma NumbersUnquoted(r: Record)
    requires forall j :: 0 <= j < |r| ==> !r[j].TextCell?
    ensures Unquoted(RowText(RecordFields(r)))
  {
    forall j | 0 <= j < |r|
      ensures Unquoted(FieldText(CellField(r[j])))
    {
      BareIsOrdinary(r[j]);
    }
    JoinUnquoted(Map(FieldText, RecordFields(r)));
  }

  lemma {:induction false} SpacedUnquoted(rows: seq<seq<Field>>, gaps: seq<string>)
    requires |gaps| == |rows| + 1
    requires forall i :: 0 <= i < |rows| ==> Unquoted(RowText(rows[i]))
    requires forall i :: 0 <= i < |gaps| ==> Unquoted(gaps[i])
    ensures Unquoted(SpacedText(rows, gaps))
    decreases |rows|
  {
    if rows != [] {
      SpacedUnquoted(rows[..|rows| - 1], gaps[..|rows|]);
    }
  }

  lemma GapsUnquoted(n: nat)
    ensures forall i :: 0 <= i <= n ==> Unquoted(UsualGaps(n)[i])
  {
  }

  lemma NumbersText(rs: seq<Record>)
    requires FitTable(PUBLISHER, rs) && NoText(rs)
    ensures IsLine(TableText(PUBLISHER, rs)) && Unquoted(TableText(PUBLISHER, rs))
  {
    var rows := Map(RecordFields, rs);
    forall i | 0 <= i < |rs|
      ensures Unquoted(RowText(rows[i]))
    {
      NumbersUnquoted(rs[i]);
    }
    GapsUnquoted(|rows|);
    SpacedUnquoted(rows, UsualGaps(|rows|));
    FrontIsOrdinary(PUBLISHER);
    TableIsLine(PUBLISHER, rs);
  }

  lemma NestedRow(inner: string)
    requires Unquoted(inner)
    ensures RowText(RecordFields([IntCell(1), TextCell(";\n" + inner)])) == "(1,'" + (";\n" + inner + "')")
  {
    var b := CellField(TextCell(";\n" + inner));
    assert RecordFields([IntCell(1), TextCell(";\n" + inner)]) == [Bare("1"), b];
    UnquotedIsItself(";\n" + inner);
    assert FieldText(b) == "'" + (";\n" + inner) + "'";
    TwoFields(Bare("1"), b);
    CloseInner(inner);
  }

  lemma CloseInner(inner: string)
    ensures "(" + ("1" + ("," + ("'" + (";\n" + inner) + "'"))) + ")" == "(1,'" + (";\n" + inner + "')")
  {
  }

  lemma NestedText(rs: seq<Record>) returns (front: string)
    requires Unquoted(TableText(PUBLISHER, rs))
    ensures TableText(PUBLISHER, Nested(rs)) == front + ";\n" + (TableText(PUBLISHER, rs) + "');\n")
    ensures Free(front)
  {
    var inner, head := TableText(PUBLISHER, rs), Head(PUBLISHER, TargetColumns(PUBLISHER)) + VALUES;
    var row := RecordFields(Nested(rs)[0]);
    assert Map(RecordFields, Nested(rs)) == [row];
    NestedRow(inner);
    OneRow(row);
    front := head + " (1,'";
    HeadFree(PUBLISHER);
    CloseNested(head, inner);
  }

  lemma CloseNested(head: string, inner: string)
    ensures head + (" " + ("(1,'" + (";\n" + inner + "')") + ";\n")) == head + " (1,'" + ";\n" + (inner + "');\n")
  {
  }

  lemma NestedLines(front: string, inner: string)
    requires Free(front) && IsLine(inner)
    ensures var text := front + ";\n" + (inner + "');\n");
            SplitLines(text) == [front + ";\n", inner, "');\n"] && LinesAfter(text) == [inner, "');\n"]
  {
    var line := front + ";\n";
    assert line[..|line| - 1] == front + ";";
    FirstLine(line, inner + "');\n");
    FirstLine(inner, "');\n");
    OnlyLine("');\n");
    SemicolonEnds(front);
  }

  /** Reading the line that another dump is. */
  lemma InnerLine(st: LoadState, rs: seq<Record>, more: seq<string>)
    requires FitTable(PUBLISHER, rs) && IsLine(TableText(PUBLISHER, rs)) && st.error == None
    ensures Continue(st, [TableText(PUBLISHER, rs)] + more) == Continue(Store(st, PUBLISHER, Tuples(rs)), more)
  {
    OnlyLine(TableText(PUBLISHER, rs));
    TableDumpEffect(st, PUBLISHER, rs);
    StatementRead(st, TableDump(PUBLISHER, rs), more);
  }

  /**
   * What stands behind the cut may be loaded instead: for any tuples of numbers and
   * NULLs, the dump of one publisher with their dump in its name loads those tuples,
   * with the matching count and no error, and not the publisher dumped.
   */
  lemma NameIsLoadedInstead(rs: seq<Record>)
    requires FitTable(PUBLISHER, rs) && NoText(rs)
    ensures FitTable(PUBLISHER, Nested(rs))
    ensures var st := Load(SplitLines(TableText(PUBLISHER, Nested(rs))));
            st.error == None && CountOf(st, PUBLISHER) == |rs| && TableOf(st, PUBLISHER) == InsertAll(EMPTY_TABLE, rs)
  {
    NestedFits(rs);
    NestedShape(rs);
    CutTupleIsLost(Nested(rs));
    NothingStoredYet();
    TwoLeft(NothingStored(), rs);
    StoreAppends(NothingStored(), PUBLISHER, Tuples(rs), PUBLISHER);
  }

  lemma NestedShape(rs: seq<Record>)
    requires FitTable(PUBLISHER, rs) && NoText(rs)
    ensures IsLine(TableText(PUBLISHER, rs)) && TableText(PUBLISHER, Nested(rs)) != ""
    ensures LinesAfter(TableText(PUBLISHER, Nested(rs))) == [TableText(PUBLISHER, rs), "');\n"]
  {
    NumbersText(rs);
    var front := NestedText(rs);
    NestedLines(front, TableText(PUBLISHER, rs));
  }

  lemma TwoLeft(st: LoadState, rs: seq<Record>)
    requires FitTable(PUBLISHER, rs) && IsLine(TableText(PUBLISHER, rs)) && st.error == None
    ensures Continue(st, [TableText(PUBLISHER, rs), "');\n"]) == Store(st, PUBLISHER, Tuples(rs))
  {
    var inner := TableText(PUBLISHER, rs);
    assert [inner, "');\n"] == [inner] + ["');\n"];
    InnerLine(st, rs, ["');\n"]);
    LeftoverChangesNothing(Store(st, PUBLISHER, Tuples(rs)));
  }

  lemma NestedFits(rs: seq<Record>)
    ensures FitTable(PUBLISHER, Nested(rs))
  {
  }
}
