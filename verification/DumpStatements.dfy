/**
 * How the lines of a dump group into statements (gcd_load_sqlite.py): one simple
 * whole-file reading, and the cursor methods that read the same thing line by line.
 */
module DumpStatements {
  import opened Common
  import opened PyText

  const CREATE := "CREATE TABLE"
  const INSERT := "INSERT INTO"
  const VALUES := " VALUES"

  /** The columns kept for each table, [] for a table that is not kept. */
  function TargetColumns(table: string): seq<string> {
    if table == "gcd_publisher" then ["id", "name"]
    else if table == "gcd_series" then ["id", "name", "year_began", "publisher_id"]
    else if table == "gcd_issue" then ["id", "number", "barcode", "key_date", "series_id"]
    else []
  }

  predicate IsTarget(table: string) {
    TargetColumns(table) != []
  }

  /** A non-empty run without backticks, up to the next backtick. */
  function NameUpToBacktick(s: string): Option<string> {
    match Find(s, "`")
    case Some(k) => if k > 0 then Some(s[..k]) else None
    case None => None
  }

  /** The name matched by `keyword` + " `([^`]+)`" at the start of `s`. */
  function TableName(keyword: string, s: string): Option<string> {
    if keyword + " `" <= s then NameUpToBacktick(s[|keyword| + 2..]) else None
  }

  function ColumnName(stripped: string): Option<string> {
    if "`" <= stripped then NameUpToBacktick(stripped[1..]) else None
  }

  datatype Item = TableDef(table: string, columns: seq<string>) | RowsOf(table: string, statement: string)

  /** Number of lines up to and including the first that ends a statement; all of them if none does. */
  function StatementLength(lines: seq<string>): (n: nat)
    requires lines != []
    ensures 1 <= n <= |lines|
  {
    if |lines| == 1 || EndsStatement(lines[0]) then 1 else 1 + StatementLength(lines[1..])
  }

  /** Column names of a CREATE TABLE body, and how many lines the body takes. */
  function CreateBody(lines: seq<string>): (r: (seq<string>, nat))
    ensures r.1 <= |lines|
  {
    if lines == [] then ([], 0)
    else
      var stripped := Strip(lines[0]);
      if ")" <= stripped then ([], 1)
      else
        var (rest, n) := CreateBody(lines[1..]);
        match ColumnName(stripped)
        case Some(c) => ([c] + rest, n + 1)
        case None => (rest, n + 1)
  }

  /** What the main loop makes of a line it meets between statements. */
  datatype LineKind =
    | Definition(table: string)
    | KeptInsert(table: string)
    | OtherInsert
    | Other

  function KindOf(line: string): (kind: LineKind)
    ensures kind.Definition? || kind.KeptInsert? ==> IsTarget(kind.table)
    ensures kind.KeptInsert? || kind.OtherInsert? ==> Lstrip(line) != ""
  {
    var stripped := Lstrip(line);
    if CREATE <= stripped then
      match TableName(CREATE, stripped)
      case Some(t) => if IsTarget(t) then Definition(t) else Other
      case None => Other
    else if INSERT <= stripped then
      match TableName(INSERT, stripped)
      case Some(t) => if IsTarget(t) then KeptInsert(t) else OtherInsert
      case None => OtherInsert
    else Other
  }

  /** The whole-file reading: the statements that matter, in file order. */
  function Items(lines: seq<string>): seq<Item>
    decreases |lines|
  {
    if lines == [] then []
    else
      match KindOf(lines[0])
      case Definition(t) =>
        var (columns, n) := CreateBody(lines[1..]);
        [TableDef(t, columns)] + Items(lines[1..][n..])
      case KeptInsert(t) =>
        var n := StatementLength(lines);
        [RowsOf(t, Flatten(lines[..n]))] + Items(lines[n..])
      case OtherInsert => Items(lines[StatementLength(lines)..])
      case Other => Items(lines[1..])
  }

  /** The file handle: one cursor shared by every loop that reads lines. */
  class LineCursor {
    const lines: seq<string>
    var pos: nat

    ghost predicate Valid()
      reads this
    {
      pos <= |lines|
    }

    function Rest(): seq<string>
      requires Valid()
      reads this
    {
      lines[pos..]
    }

    constructor (lines: seq<string>)
      ensures Valid() && this.lines == lines && pos == 0
    {
      this.lines := lines;
      pos := 0;
    }

    method Next() returns (line: Option<string>)
      requires Valid()
      modifies this
      ensures Valid()
      ensures old(Rest()) == [] ==> line == None && Rest() == []
      ensures old(Rest()) != [] ==> line == Some(old(Rest())[0]) && Rest() == old(Rest())[1..]
    {
      if pos == |lines| {
        return None;
      }
      line := Some(lines[pos]);
      pos := pos + 1;
    }

    /** `_read_create_columns` */
    method ReadCreateColumns() returns (cols: seq<string>)
      requires Valid()
      modifies this
      ensures Valid()
      ensures cols == CreateBody(old(Rest())).0
      ensures Rest() == old(Rest())[CreateBody(old(Rest())).1..]
    {
      cols := [];
      ghost var rest0 := Rest();
      while true
        invariant Valid()
        invariant CreateBody(rest0).0 == cols + CreateBody(Rest()).0
        invariant |rest0| - CreateBody(rest0).1 == |Rest()| - CreateBody(Rest()).1
        invariant |Rest()| <= |rest0| && Rest() == rest0[|rest0| - |Rest()|..]
        decreases |Rest()|
      {
        ghost var before := Rest();
        var line := Next();
        if line.None? {
          break;
        }
        var stripped := Strip(line.value);
        if ")" <= stripped {
          break;
        }
        var m := ColumnName(stripped);
        if m.Some? {
          cols := cols + [m.value];
        }
      }
    }

    /** The assembling loop: append lines until the accumulated text ends a statement. */
    method AssembleStatement(line: string) returns (statement: string)
      requires Valid()
      modifies this
      ensures Valid()
      ensures var all := [line] + old(Rest());
              statement == Flatten(all[..StatementLength(all)]) && Rest() == all[StatementLength(all)..]
    {
      statement := line;
      ghost var all := [line] + Rest();
      ghost var taken := 1;
      assert all[..1] == [line] && Flatten([line]) == line + Flatten([]) == line;
      while !EndsStatement(statement)
        invariant Valid()
        invariant 1 <= taken <= |all| && Rest() == all[taken..]
        invariant statement == Flatten(all[..taken])
        invariant EndsStatement(statement) <==> EndsStatement(all[taken - 1])
        invariant StatementLength(all) == taken - 1 + StatementLength(all[taken - 1..])
        decreases |Rest()|
      {
        var next := Next();
        if next.None? {
          break;
        }
        LineDecides(statement, next.value);
        FlattenLast(all, taken);
        StatementLengthStep(all, taken - 1);
        statement := statement + next.value;
        taken := taken + 1;
      }
    }

    /** The skipping loop for a statement that is not kept: it only looks at the newest line. */
    method SkipStatement(first: string)
      requires Valid()
      modifies this
      ensures Valid()
      ensures forall line :: EndsStatement(line) == EndsStatement(first) ==>
              var all := [line] + old(Rest()); Rest() == all[StatementLength(all)..]
    {
      var stripped := first;
      ghost var rest0 := Rest();
      ghost var all := [first] + rest0;
      ghost var taken := 1;
      while !EndsStatement(stripped)
        invariant Valid()
        invariant 1 <= taken <= |all| && Rest() == all[taken..] && stripped == all[taken - 1]
        invariant StatementLength(all) == taken - 1 + StatementLength(all[taken - 1..])
        decreases |Rest()|
      {
        var next := Next();
        if next.None? {
          break;
        }
        StatementLengthStep(all, taken - 1);
        stripped := next.value;
        taken := taken + 1;
      }
      forall line | EndsStatement(line) == EndsStatement(first)
        ensures var all' := [line] + rest0; Rest() == all'[StatementLength(all')..]
      {
        var all' := [line] + rest0;
        assert all'[1..] == rest0 == all[1..];
        assert all'[taken..] == all[taken..];
      }
    }
  }

  lemma FlattenLast(parts: seq<string>, n: nat)
    requires n < |parts|
    ensures Flatten(parts[..n + 1]) == Flatten(parts[..n]) + parts[n]
  {
    FlattenAppend(parts[..n], [parts[n]]);
    assert parts[..n + 1] == parts[..n] + [parts[n]];
    assert Flatten([parts[n]]) == parts[n] + Flatten([]) == parts[n];
  }

  lemma StatementLengthStep(lines: seq<string>, k: nat)
    requires k + 1 < |lines| && !EndsStatement(lines[k])
    ensures StatementLength(lines[k..]) == 1 + StatementLength(lines[k + 1..])
  {
    assert lines[k..][1..] == lines[k + 1..];
  }

  /** Leading whitespace does not matter to whether a line ends a statement. */
  lemma {:induction false} LstripKeepsEnding(line: string)
    requires Lstrip(line) != ""
    ensures EndsStatement(line) <==> EndsStatement(Lstrip(line))
  {
    if IsSpace(line[0]) {
      LstripKeepsEnding(line[1..]);
      LstripIsSolid(line[1..]);
      var i :| 0 <= i < |line[1..]| && !IsSpace(line[1..][i]);
      SolidLineDecides([line[0]], line[1..]);
      assert line == [line[0]] + line[1..];
    }
  }

  lemma {:induction false} LstripIsSolid(line: string)
    requires Lstrip(line) != ""
    ensures exists i :: 0 <= i < |line| && !IsSpace(line[i])
  {
    if IsSpace(line[0]) {
      LstripIsSolid(line[1..]);
      var i :| 0 <= i < |line[1..]| && !IsSpace(line[1..][i]);
      assert !IsSpace(line[i + 1]);
    } else {
      assert !IsSpace(line[0]);
    }
  }
}
