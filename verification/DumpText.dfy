/**
 * Dumps written from an abstract description: loading the text gives what the
 * description says, however its statements are spread over lines.
 */
module DumpText {
  import opened Common
  import opened PyText
  import opened ValueTuples
  import opened DumpStatements
  import opened DumpLoader
  import opened DumpLaws

  // ----- Abstract dumps -----

  /** A line of a CREATE TABLE body: a column, or a key or constraint. */
  datatype BodyLine = Column(indent: string, name: string, more: string) | Constraint(text: string)

  datatype Statement =
    | Create(table: string, more: string, body: seq<BodyLine>, closing: string)
    | Insert(table: string, columns: seq<string>, rows: seq<seq<Field>>, gaps: seq<string>, layout: seq<string>)
    | InsertElsewhere(layout: seq<string>)
    | OtherLine(text: string)

  predicate IsName(name: string) {
    name != "" && '`' !in name
  }

  function BodyText(b: BodyLine): string {
    match b
    case Column(indent, name, more) => indent + ("`" + (name + ("`" + more)))
    case Constraint(text) => text
  }

  function ColumnNames(body: seq<BodyLine>): seq<string> {
    if body == [] then []
    else if body[0].Column? then [body[0].name] + ColumnNames(body[1..])
    else ColumnNames(body[1..])
  }

  /** `a`,`b`,...) */
  function ColumnList(columns: seq<string>): string {
    if columns == [] then ")"
    else "`" + (columns[0] + ("`" + ((if |columns| == 1 then "" else ",") + ColumnList(columns[1..]))))
  }

  /** The text before " VALUES": the table, and the columns when the dump lists them. */
  function Head(table: string, columns: seq<string>): string {
    INSERT + " `" + table + "`" + if columns == [] then "" else " (" + ColumnList(columns)
  }

  predicate WellFormedBody(b: BodyLine) {
    match b
    case Column(indent, name, more) => IsName(name) && forall i :: 0 <= i < |indent| ==> IsSpace(indent[i])
    case Constraint(text) => !("`" <= Strip(text)) && !(")" <= Strip(text))
  }

  /** Only the last line of a statement ends with a semicolon. */
  predicate WellLaidOut(layout: seq<string>) {
    && layout != [] && EndsStatement(layout[|layout| - 1])
    && forall k :: 0 <= k < |layout| - 1 ==> !EndsStatement(layout[k])
  }

  /** The line starts a statement of this kind for one of the kept tables. */
  predicate NamesTarget(keyword: string, line: string) {
    exists t <- TARGETS :: keyword + " `" + t + "`" <= Lstrip(line)
  }

  predicate WellFormed(s: Statement) {
    match s
    case Create(table, more, body, closing) =>
      && IsTarget(table)
      && (forall i :: 0 <= i < |body| ==> WellFormedBody(body[i]))
      && ")" <= Strip(closing)
    case Insert(table, columns, rows, gaps, layout) =>
      && IsTarget(table)
      && (forall i :: 0 <= i < |columns| ==> IsName(columns[i]))
      && WellFormedRows(rows) && |gaps| == |rows| + 1 && WellFormedGaps(gaps) && ';' in gaps[|rows|]
      && Find(Head(table, columns), VALUES) == None
      && WellLaidOut(layout)
      && Flatten(layout) == Head(table, columns) + VALUES + SpacedText(rows, gaps)
      && INSERT + " `" + table + "`" <= layout[0]
    case InsertElsewhere(layout) =>
      WellLaidOut(layout) && INSERT <= Lstrip(layout[0]) && !NamesTarget(INSERT, layout[0])
    case OtherLine(text) => !(INSERT <= Lstrip(text)) && !NamesTarget(CREATE, text)
  }

  function LinesOf(s: Statement): seq<string> {
    match s
    case Create(table, more, body, closing) =>
      [CREATE + " `" + table + "`" + more] + Map(BodyText, body) + [closing]
    case Insert(_, _, _, _, layout) => layout
    case InsertElsewhere(layout) => layout
    case OtherLine(text) => [text]
  }

  // ----- What a dump means -----

  /** The effect of one statement, in terms of its table, columns and values only. */
  function Effect(st: LoadState, s: Statement): LoadState
    requires WellFormed(s)
  {
    match s
    case Create(table, _, body, _) => st.(schema := st.schema[table := ColumnNames(body)])
    case Insert(table, columns, rows, _, _) =>
      var names := if columns != [] then columns else if table in st.schema then st.schema[table] else [];
      Store(st, table, ContributionOf(table, TargetColumns(table), names, RowsMeaning(rows)))
    case _ => st
  }

  predicate AllWellFormed(dump: seq<Statement>) {
    forall i :: 0 <= i < |dump| ==> WellFormed(dump[i])
  }

  function Effects(st: LoadState, dump: seq<Statement>): LoadState
    requires AllWellFormed(dump)
    decreases |dump|
  {
    if dump == [] || st.error.Some? then st else Effects(Effect(st, dump[0]), dump[1..])
  }

  function FileOf(dump: seq<Statement>): seq<string> {
    if dump == [] then [] else LinesOf(dump[0]) + FileOf(dump[1..])
  }

  // ----- Names -----

  lemma NameFound(name: string, more: string)
    requires IsName(name)
    ensures NameUpToBacktick(name + ("`" + more)) == Some(name)
  {
    FindChar(name, '`', more);
    assert (name + ("`" + more))[..|name|] == name;
  }

  lemma ColumnNameFound(name: string, more: string)
    requires IsName(name)
    ensures ColumnName("`" + (name + ("`" + more))) == Some(name)
  {
    var s := "`" + (name + ("`" + more));
    assert s[1..] == name + ("`" + more);
    NameFound(name, more);
  }

  lemma QuotedNameRead(name: string, junk: string, after: string)
    requires IsName(name) && '`' !in junk
    ensures QuotedNames("`" + (name + ("`" + (junk + after)))) == [name] + QuotedNames(after)
  {
    var s := "`" + (name + ("`" + (junk + after)));
    ColumnNameFound(name, junk + after);
    assert s[|name| + 2..] == junk + after;
    NothingQuoted(junk, after);
  }

  lemma {:induction false} ColumnListRead(columns: seq<string>)
    requires forall i :: 0 <= i < |columns| ==> IsName(columns[i])
    ensures QuotedNames(ColumnList(columns)) == columns
    decreases |columns|
  {
    if columns == [] {
      NothingQuoted(")", "");
      assert ")" + "" == ")";
    } else {
      ColumnListRead(columns[1..]);
      QuotedNameRead(columns[0], if |columns| == 1 then "" else ",", ColumnList(columns[1..]));
      assert columns == [columns[0]] + columns[1..];
    }
  }

  lemma {:induction false} NothingQuoted(junk: string, s: string)
    requires '`' !in junk
    ensures QuotedNames(junk + s) == QuotedNames(s)
    decreases |junk|
  {
    if junk == "" {
      assert junk + s == s;
    } else {
      assert (junk + s)[0] == junk[0] && (junk + s)[1..] == junk[1..] + s;
      NothingQuoted(junk[1..], s);
    }
  }

  lemma HeadColumns(table: string, columns: seq<string>)
    requires IsTarget(table) && forall i :: 0 <= i < |columns| ==> IsName(columns[i])
    ensures ExplicitColumns(Head(table, columns)) == columns
  {
    var front := INSERT + " `" + table + "`";
    NoParenthesis(table);
    if columns == [] {
      FindChar(front, '(', "");
      assert Head(table, columns) == front;
    } else {
      var list := ColumnList(columns);
      FindChar(front + " ", '(', list);
      assert Head(table, columns) == front + " " + ("(" + list);
      assert Head(table, columns)[|front| + 1..] == "(" + list;
      NothingQuoted("(", list);
      ColumnListRead(columns);
    }
  }

  lemma NoParenthesis(table: string)
    requires IsTarget(table)
    ensures '(' !in INSERT + " `" + table + "`" && IsName(table)
  {
  }

  // ----- CREATE TABLE -----

  lemma {:induction false} LstripIndent(indent: string, s: string)
    requires forall i :: 0 <= i < |indent| ==> IsSpace(indent[i])
    requires s != "" && !IsSpace(s[0])
    ensures Lstrip(indent + s) == s
    decreases |indent|
  {
    if indent == "" {
      assert indent + s == s;
    } else {
      assert (indent + s)[0] == indent[0] && (indent + s)[1..] == indent[1..] + s;
      LstripIndent(indent[1..], s);
    }
  }

  lemma {:induction false} RstripKeeps(solid: string, tail: string)
    requires solid != "" && !IsSpace(solid[|solid| - 1])
    ensures solid <= Rstrip(solid + tail)
    decreases |tail|
  {
    var s := solid + tail;
    if tail == "" {
      assert s == solid;
    } else if IsSpace(tail[|tail| - 1]) {
      assert s[|s| - 1] == tail[|tail| - 1];
      assert s[..|s| - 1] == solid + tail[..|tail| - 1];
      RstripKeeps(solid, tail[..|tail| - 1]);
    }
  }

  lemma ColumnLineRead(b: BodyLine)
    requires b.Column? && WellFormedBody(b)
    ensures ColumnName(Strip(BodyText(b))) == Some(b.name) && !(")" <= Strip(BodyText(b)))
  {
    var solid := "`" + (b.name + "`");
    assert "`" + (b.name + ("`" + b.more)) == solid + b.more;
    LstripIndent(b.indent, solid + b.more);
    RstripKeeps(solid, b.more);
    var rest := Rstrip(solid + b.more)[|solid|..];
    assert Rstrip(solid + b.more) == solid + rest;
    assert solid + rest == "`" + (b.name + ("`" + rest));
    ColumnNameFound(b.name, rest);
  }

  lemma {:induction false} BodyRead(body: seq<BodyLine>, closing: string, more: seq<string>)
    requires forall i :: 0 <= i < |body| ==> WellFormedBody(body[i])
    requires ")" <= Strip(closing)
    ensures CreateBody(Map(BodyText, body) + [closing] + more) == (ColumnNames(body), |body| + 1)
    decreases |body|
  {
    var lines := Map(BodyText, body) + [closing] + more;
    if body == [] {
      assert lines[0] == closing;
    } else {
      BodyRead(body[1..], closing, more);
      assert lines[0] == BodyText(body[0]);
      assert lines[1..] == Map(BodyText, body[1..]) + [closing] + more;
      BodyLineRead(body[0]);
    }
  }

  lemma BodyLineRead(b: BodyLine)
    requires WellFormedBody(b)
    ensures ColumnName(Strip(BodyText(b))) == (if b.Column? then Some(b.name) else None)
    ensures !(")" <= Strip(BodyText(b)))
  {
    if b.Column? {
      ColumnLineRead(b);
    }
  }

  lemma ItemsOfDefinition(first: string, table: string, rest: seq<string>)
    requires KindOf(first) == Definition(table)
    ensures Items([first] + rest) == [TableDef(table, CreateBody(rest).0)] + Items(rest[CreateBody(rest).1..])
  {
    assert ([first] + rest)[1..] == rest;
  }

  lemma CreateRead(s: Statement, more: seq<string>)
    requires s.Create? && WellFormed(s)
    ensures Items(LinesOf(s) + more) == [TableDef(s.table, ColumnNames(s.body))] + Items(more)
  {
    var first := CREATE + " `" + s.table + "`" + s.more;
    var rest := Map(BodyText, s.body) + [s.closing] + more;
    FirstLineKind(CREATE, s.table, s.more);
    BodyRead(s.body, s.closing, more);
    assert LinesOf(s) + more == [first] + rest;
    assert rest[|s.body| + 1..] == more;
    ItemsOfDefinition(first, s.table, rest);
  }

  lemma FirstLineKind(keyword: string, table: string, more: string)
    requires keyword in [CREATE, INSERT] && IsTarget(table)
    ensures KindOf(keyword + " `" + table + "`" + more)
            == if keyword == CREATE then Definition(table) else KeptInsert(table)
  {
    var line := keyword + " `" + table + "`" + more;
    assert line[|keyword| + 2..] == table + ("`" + more);
    NoParenthesis(table);
    NameFound(table, more);
    assert line[0] == keyword[0];
    assert Lstrip(line) == line;
    assert keyword <= line && keyword + " `" <= line;
    if keyword == INSERT {
      assert line[0] == 'I' && CREATE[0] == 'C';
    }
  }

  // ----- INSERT -----

  lemma LayoutRead(layout: seq<string>, more: seq<string>)
    requires WellLaidOut(layout)
    ensures StatementLength(layout + more) == |layout|
    ensures (layout + more)[..|layout|] == layout && (layout + more)[|layout|..] == more
  {
    StatementReadWhole(layout, more);
  }

  lemma InsertRead(s: Statement, more: seq<string>)
    requires s.Insert? && WellFormed(s)
    ensures Items(LinesOf(s) + more) == [RowsOf(s.table, Flatten(s.layout))] + Items(more)
  {
    var front := INSERT + " `" + s.table + "`";
    LayoutRead(s.layout, more);
    assert s.layout[0] == front + s.layout[0][|front|..];
    FirstLineKind(INSERT, s.table, s.layout[0][|front|..]);
    assert (s.layout + more)[0] == s.layout[0];
  }

  /** The first " VALUES" of the text is the one after the head. */
  lemma SplitFound(head: string, values: string)
    requires head != "" && head[|head| - 1] !in VALUES && values != ""
    requires forall k :: !OccursAt(head, VALUES, k)
    ensures SplitValues(head + VALUES + values) == Some((head, values))
  {
    var s := head + VALUES + values;
    assert s[|head|..|head| + |VALUES|] == VALUES;
    assert OccursAt(s, VALUES, |head|);
    forall k | 0 <= k < |head|
      ensures !OccursAt(s, VALUES, k)
    {
      if k + |VALUES| <= |head| {
        assert s[k..k + |VALUES|] == head[k..k + |VALUES|];
        assert !OccursAt(head, VALUES, k);
      } else if k + |VALUES| <= |s| {
        var i := |head| - 1 - k;
        assert s[k..k + |VALUES|][i] == head[|head| - 1] && VALUES[i] in VALUES;
      }
    }
    assert s[..|head|] == head && s[|head| + |VALUES|..] == values;
  }

  lemma {:induction false} ColumnListEnds(columns: seq<string>)
    ensures var s := ColumnList(columns); s != "" && s[|s| - 1] == ')'
  {
    if columns != [] {
      ColumnListEnds(columns[1..]);
    }
  }

  lemma HeadEnds(table: string, columns: seq<string>)
    ensures var s := Head(table, columns); s != "" && s[|s| - 1] !in VALUES
  {
    ColumnListEnds(columns);
  }

  lemma SpacedTextNotEmpty(rows: seq<seq<Field>>, gaps: seq<string>)
    requires |gaps| == |rows| + 1 && ';' in gaps[|rows|]
    ensures SpacedText(rows, gaps) != ""
  {
  }

  lemma InsertContribution(schema: map<string, seq<string>>, s: Statement)
    requires s.Insert? && WellFormed(s)
    ensures var names := if s.columns != [] then s.columns else if s.table in schema then schema[s.table] else [];
            StatementContribution(schema, s.table, Flatten(s.layout))
            == Some(ContributionOf(s.table, TargetColumns(s.table), names, RowsMeaning(s.rows)))
  {
    var values := SpacedText(s.rows, s.gaps);
    SpacedTextNotEmpty(s.rows, s.gaps);
    HeadEnds(s.table, s.columns);
    SplitFound(Head(s.table, s.columns), values);
    HeadColumns(s.table, s.columns);
    ParseSpaced(s.rows, s.gaps);
  }

  // ----- Other lines -----

  lemma NameMatched(keyword: string, s: string)
    requires TableName(keyword, s).Some?
    ensures keyword + " `" + TableName(keyword, s).value + "`" <= s
  {
    var name, k := TableName(keyword, s).value, |keyword| + 2;
    assert OccursAt(s[k..], "`", |name|);
    assert s[k..][|name|..|name| + 1] == "`";
    assert s == s[..k] + name + "`" + s[k + |name| + 1..];
  }

  lemma OtherKinds(line: string)
    requires !NamesTarget(if INSERT <= Lstrip(line) then INSERT else CREATE, line)
    ensures KindOf(line) == if INSERT <= Lstrip(line) then OtherInsert else Other
  {
    var s := Lstrip(line);
    if INSERT <= s {
      assert s[0] == 'I' && CREATE[0] == 'C';
    }
    var keyword := if INSERT <= s then INSERT else CREATE;
    var m := TableName(keyword, s);
    if m.Some? {
      NameMatched(keyword, s);
      TargetsAreListed(m.value);
    }
  }

  /** The line begins a statement of this kind for this table, leading blanks aside. */
  predicate Begins(line: string, keyword: string, table: string) {
    keyword + " `" + table + "`" <= Lstrip(line)
  }

  predicate Kept(table: string) {
    table == "gcd_publisher" || table == "gcd_series" || table == "gcd_issue"
  }

  lemma NameMatchedIff(keyword: string, s: string, table: string)
    requires IsName(table)
    ensures TableName(keyword, s) == Some(table) <==> keyword + " `" + table + "`" <= s
  {
    if TableName(keyword, s) == Some(table) {
      NameMatched(keyword, s);
    }
    if keyword + " `" + table + "`" <= s {
      var more := s[|keyword + " `" + table + "`"|..];
      assert s[|keyword| + 2..] == table + ("`" + more);
      NameFound(table, more);
      assert keyword + " `" <= s;
    }
  }

  /** A line of a CREATE TABLE body, stripped, names a column when it begins with a name in backticks. */
  lemma ColumnNameIff(stripped: string, name: string)
    ensures ColumnName(stripped) == Some(name) <==> name != "" && '`' !in name && "`" + name + "`" <= stripped
  {
    if ColumnName(stripped) == Some(name) {
      var rest := stripped[1..];
      var k := Find(rest, "`").value;
      assert rest[k..k + 1] == "`";
      assert stripped == "`" + name + "`" + rest[k + 1..];
      forall i | 0 <= i < k
        ensures name[i] != '`'
      {
        assert !OccursAt(rest, "`", i);
        assert rest[i..i + 1] == [name[i]];
      }
    } else if name != "" && '`' !in name && "`" + name + "`" <= stripped {
      var more := stripped[|name| + 2..];
      assert stripped == "`" + (name + ("`" + more));
      ColumnNameFound(name, more);
    }
  }

  lemma KeptMeansTarget(table: string)
    ensures Kept(table) <==> IsTarget(table)
    ensures Kept(table) ==> IsName(table)
  {
  }

  lemma KeywordsDiffer(s: string)
    ensures !("CREATE TABLE" <= s && "INSERT INTO" <= s)
  {
    assert "CREATE TABLE"[0] == 'C' && "INSERT INTO"[0] == 'I';
  }

  lemma KindIsKept(line: string, table: string)
    requires Kept(table)
    ensures KindOf(line) == Definition(table) <==> Begins(line, "CREATE TABLE", table)
    ensures KindOf(line) == KeptInsert(table) <==> Begins(line, "INSERT INTO", table)
  {
    var s := Lstrip(line);
    KeptMeansTarget(table);
    NameMatchedIff(CREATE, s, table);
    NameMatchedIff(INSERT, s, table);
    KeywordsDiffer(s);
    assert CREATE + " `" + table + "`" <= s ==> CREATE <= s;
    assert INSERT + " `" + table + "`" <= s ==> INSERT <= s;
  }

  /**
   * Which statement a line begins: a definition or an INSERT of one of the three kept
   * tables, an INSERT of another, or none.
   */
  lemma KindMeaning(line: string)
    ensures forall t :: Kept(t) ==> (KindOf(line) == Definition(t) <==> Begins(line, "CREATE TABLE", t))
    ensures forall t :: Kept(t) ==> (KindOf(line) == KeptInsert(t) <==> Begins(line, "INSERT INTO", t))
    ensures KindOf(line).Definition? || KindOf(line).KeptInsert? ==> Kept(KindOf(line).table)
    ensures KindOf(line) == OtherInsert
            <==> "INSERT INTO" <= Lstrip(line) && forall t :: Kept(t) ==> !Begins(line, "INSERT INTO", t)
  {
    forall t | Kept(t)
      ensures KindOf(line) == Definition(t) <==> Begins(line, "CREATE TABLE", t)
      ensures KindOf(line) == KeptInsert(t) <==> Begins(line, "INSERT INTO", t)
    {
      KindIsKept(line, t);
    }
    KeywordsDiffer(Lstrip(line));
    if KindOf(line).Definition? || KindOf(line).KeptInsert? {
      KeptMeansTarget(KindOf(line).table);
    }
  }

  /** An INSERT is passed over exactly when nothing follows its first " VALUES", or it has none. */
  lemma PayloadMeaning(statement: string)
    ensures SplitValues(statement).None?
            <==> forall k :: OccursAt(statement, " VALUES", k) && k + 7 < |statement|
                             ==> exists j :: 0 <= j < k && OccursAt(statement, " VALUES", j)
  {
    var first := Find(statement, VALUES);
    if first.Some? {
      assert OccursAt(statement, " VALUES", first.value);
    }
  }

  // ----- The whole file -----

  lemma StatementRead(st: LoadState, s: Statement, more: seq<string>)
    requires WellFormed(s) && st.error == None
    ensures Continue(st, LinesOf(s) + more) == Continue(Effect(st, s), more)
  {
    var lines := LinesOf(s) + more;
    match s
    case Create(table, _, body, _) =>
      CreateRead(s, more);
      ContinueItem(st, lines, TableDef(table, ColumnNames(body)), more);
    case Insert(table, _, _, _, layout) =>
      InsertRead(s, more);
      InsertContribution(st.schema, s);
      ContinueItem(st, lines, RowsOf(table, Flatten(layout)), more);
    case InsertElsewhere(layout) =>
      LayoutRead(layout, more);
      OtherKinds(layout[0]);
      assert lines[0] == layout[0];
      ContinueSkip(st, lines, more);
    case OtherLine(text) =>
      OtherKinds(text);
      assert lines[0] == text && lines[1..] == more;
      ContinueSkip(st, lines, more);
  }

  lemma {:induction false} FileRead(st: LoadState, dump: seq<Statement>)
    requires AllWellFormed(dump) && st.error == None
    ensures Continue(st, FileOf(dump)) == Effects(st, dump)
    decreases |dump|
  {
    if dump != [] {
      StatementRead(st, dump[0], FileOf(dump[1..]));
      var st' := Effect(st, dump[0]);
      if st'.error == None {
        FileRead(st', dump[1..]);
      } else {
        ItemsOnTargets(FileOf(dump[1..]));
      }
    }
  }

  /**
   * For every dump of kept and other statements in any order, written over lines
   * in any way that ends no line but a statement's last with a semicolon, the
   * loader's tables, counts and error are those of the abstract statements.
   */
  lemma DumpLoadsAsDescribed(dump: seq<Statement>)
    requires AllWellFormed(dump)
    ensures Load(FileOf(dump)) == Effects(InitialState(), dump)
  {
    FileRead(InitialState(), dump);
  }

  /**
   * The same for the text of the file: when the statements' lines are complete
   * lines, reading the text line by line finds them again.
   */
  lemma DumpTextLoadsAsDescribed(dump: seq<Statement>)
    requires AllWellFormed(dump) && forall i :: 0 <= i < |FileOf(dump)| ==> IsLine(FileOf(dump)[i])
    ensures Load(SplitLines(Flatten(FileOf(dump)))) == Effects(InitialState(), dump)
  {
    LinesReadBack(FileOf(dump));
    DumpLoadsAsDescribed(dump);
  }

  // ----- Printed inserts -----

  /** The usual gaps: a space, commas between tuples, then a semicolon and a line feed. */
  function UsualGaps(n: nat): (gaps: seq<string>)
    ensures |gaps| == n + 1
  {
    seq(n + 1, i => if i == n then ";\n" else if i == 0 then " " else ",")
  }

  function InsertText(table: string, columns: seq<string>, rows: seq<seq<Field>>): string {
    Head(table, columns) + VALUES + SpacedText(rows, UsualGaps(|rows|))
  }

  /** An INSERT printed without regard to lines: its lines are those of the text. */
  function PrintedInsert(table: string, columns: seq<string>, rows: seq<seq<Field>>): Statement {
    Insert(table, columns, rows, UsualGaps(|rows|), SplitLines(InsertText(table, columns, rows)))
  }

  lemma SpacedTextEnds(rows: seq<seq<Field>>, gaps: seq<string>) returns (front: string)
    requires |gaps| == |rows| + 1 && gaps[|rows|] == ";\n"
    ensures SpacedText(rows, gaps) == front + ";\n"
  {
    var s := SpacedText(rows, gaps);
    front := s[..|s| - 2];
    if rows != [] {
      assert s[|s| - 2..] == ";\n";
    }
  }

  /** The first line of a text holds everything before its first line feed. */
  lemma FirstLineHolds(front: string, text: string)
    requires front <= text && text != "" && '\n' !in front
    ensures SplitLines(text) != [] && front <= SplitLines(text)[0]
  {
    var cut := Find(text, "\n");
    if cut.Some? {
      var k := cut.value;
      assert text[k..k + 1] == "\n" && text[k] == '\n';
      forall i | 0 <= i < |front|
        ensures text[i] != '\n'
      {
        assert text[i] == front[i];
      }
      assert SplitLines(text)[0] == text[..k + 1];
    }
  }

  /** No line of the text but the last ends a statement. */
  predicate EndsOnce(text: string) {
    var lines := SplitLines(text);
    forall k :: 0 <= k < |lines| - 1 ==> !EndsStatement(lines[k])
  }

  lemma LayoutOfText(front: string, body: string)
    requires front <= body && '\n' !in front && EndsOnce(body + ";\n")
    ensures var lines := SplitLines(body + ";\n");
            WellLaidOut(lines) && Flatten(lines) == body + ";\n" && front <= lines[0]
  {
    LastLineEnds(body);
    SplitLinesLossless(body + ";\n");
    FirstLineHolds(front, body + ";\n");
  }

  lemma InsertTextParts(table: string, columns: seq<string>, rows: seq<seq<Field>>) returns (body: string)
    ensures InsertText(table, columns, rows) == body + ";\n" && INSERT + " `" + table + "`" <= body
  {
    var values := SpacedTextEnds(rows, UsualGaps(|rows|));
    body := Head(table, columns) + VALUES + values;
    Assoc(Head(table, columns) + VALUES, values, ";\n");
    assert INSERT + " `" + table + "`" <= Head(table, columns);
  }

  /** Rows of any fields can be printed so, as long as no line ends early in a semicolon. */
  lemma PrintedInsertIsWellFormed(table: string, columns: seq<string>, rows: seq<seq<Field>>)
    requires IsTarget(table) && WellFormedRows(rows)
    requires forall i :: 0 <= i < |columns| ==> IsName(columns[i])
    requires Find(Head(table, columns), VALUES) == None && EndsOnce(InsertText(table, columns, rows))
    ensures WellFormed(PrintedInsert(table, columns, rows))
  {
    var body := InsertTextParts(table, columns, rows);
    NoLineFeed(table);
    LayoutOfText(INSERT + " `" + table + "`", body);
  }

  lemma NoLineFeed(table: string)
    requires IsTarget(table)
    ensures '\n' !in INSERT + " `" + table + "`"
  {
  }
}
