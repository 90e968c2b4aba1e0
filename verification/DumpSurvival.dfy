/**
 * Which tables survive being dumped and loaded: exactly those without a string that
 * holds a semicolon, blanks and a line feed in a row. A small automaton over the raw
 * text tells where lines end in semicolons; no string that is loaded can hold one.
 */
module DumpSurvival {
  import opened Common
  import opened PyText
  import opened Decimal
  import opened ValueTuples
  import opened Sqlite
  import opened DumpStatements
  import opened DumpLoader
  import opened DumpText
  import opened DumpRoundTrip

  // ----- Strings that break a line -----

  /** The string ends in a semicolon and blanks, with no line feed after the semicolon. */
  predicate Armed(s: string) {
    s != "" &&
    var c := s[|s| - 1];
    c == ';' || (IsSpace(c) && c != '\n' && Armed(s[..|s| - 1]))
  }

  /** Somewhere a line feed follows a semicolon with only blanks in between. */
  predicate Breaks(s: string) {
    s != "" && (Breaks(s[..|s| - 1]) || (s[|s| - 1] == '\n' && Armed(s[..|s| - 1])))
  }

  ghost predicate BlanksUpTo(s: string, i: nat, j: nat)
    requires i <= j <= |s|
  {
    forall m :: i < m < j ==> IsSpace(s[m])
  }

  lemma {:induction false} ArmedMeaning(s: string)
    ensures Armed(s) ==> exists i: nat :: i < |s| && s[i] == ';' && BlanksUpTo(s, i, |s|)
    ensures forall i: nat :: i < |s| && s[i] == ';' && BlanksUpTo(s, i, |s|) ==> Armed(s) || Breaks(s)
  {
    if s != "" {
      var n := |s| - 1;
      var init := s[..n];
      ArmedMeaning(init);
      if Armed(init) && s[n] != ';' && Armed(s) {
        var i: nat :| i < n && init[i] == ';' && BlanksUpTo(init, i, n);
        assert s[i] == ';' && BlanksUpTo(s, i, n + 1);
      }
      if s[n] == ';' {
        assert BlanksUpTo(s, n, n + 1);
      }
      forall i: nat | i < |s| && s[i] == ';' && BlanksUpTo(s, i, |s|)
        ensures Armed(s) || Breaks(s)
      {
        if i < n {
          assert init[i] == ';' && BlanksUpTo(init, i, n);
        }
      }
    }
  }

  /** What `Breaks` means. */
  lemma {:induction false} BreaksMeaning(s: string)
    ensures Breaks(s) <==> exists i: nat, j: nat :: i < j < |s| && s[i] == ';' && s[j] == '\n' && BlanksUpTo(s, i, j)
  {
    if s != "" {
      var n := |s| - 1;
      var init := s[..n];
      BreaksMeaning(init);
      ArmedMeaning(init);
      if Breaks(s) {
        if Breaks(init) {
          var i: nat, j: nat :| i < j < n && init[i] == ';' && init[j] == '\n' && BlanksUpTo(init, i, j);
          assert s[i] == ';' && s[j] == '\n' && BlanksUpTo(s, i, j);
        } else {
          var i: nat :| i < n && init[i] == ';' && BlanksUpTo(init, i, n);
          assert s[i] == ';' && s[n] == '\n' && BlanksUpTo(s, i, n);
        }
      }
      if i: nat, j: nat :| i < j < |s| && s[i] == ';' && s[j] == '\n' && BlanksUpTo(s, i, j) {
        if j < n {
          assert init[i] == ';' && init[j] == '\n' && BlanksUpTo(init, i, j);
        } else {
          assert init[i] == ';' && BlanksUpTo(init, i, n);
        }
      }
    }
  }

  predicate BreaksCell(c: Cell) { c.TextCell? && Breaks(c.s) }

  predicate BreaksRecord(r: Record) { exists c <- r :: BreaksCell(c) }

  predicate BreaksSome(rs: seq<Record>) { exists r <- rs :: BreaksRecord(r) }

  // ----- The raw text -----

  datatype Arm = Idle | Semicolon | Closed

  /** Reading raw text: whether a backslash is open, and whether a line feed now would end a statement. */
  datatype Raw = Bad | Fine(open: bool, arm: Arm)

  const LINE_START := Fine(false, Idle)

  /**
   * Bad marks text that is not written as a dump is: a backslash before anything but
   * a quote or a backslash, or a quote between an armed character and one that does
   * not end a field. The strict reading also takes a line that ends a statement as bad.
   */
  function RawStep(strict: bool, st: Raw, c: char): Raw {
    if st.Bad? then Bad
    else if st.arm == Closed && c != ',' && c != ')' then Bad
    else if c == '\\' then Fine(!st.open, Idle)
    else if c == '\'' then Fine(false, if st.arm == Semicolon then Closed else Idle)
    else if st.open then Bad
    else if c == ';' then Fine(false, Semicolon)
    else if c == '\n' then (if strict && st.arm == Semicolon then Bad else LINE_START)
    else Fine(false, if IsSpace(c) && st.arm == Semicolon then Semicolon else Idle)
  }

  function RawRun(strict: bool, st: Raw, s: string): Raw
    decreases |s|
  {
    if s == "" then st else RawRun(strict, RawStep(strict, st, s[0]), s[1..])
  }

  lemma {:induction false} RawAppend(strict: bool, st: Raw, a: string, b: string)
    ensures RawRun(strict, st, a + b) == RawRun(strict, RawRun(strict, st, a), b)
    decreases |a|
  {
    if a == "" {
      assert a + b == b;
    } else {
      RawAppend(strict, RawStep(strict, st, a[0]), a[1..], b);
      assert (a + b)[1..] == a[1..] + b;
    }
  }

  lemma RawOne(strict: bool, st: Raw, c: char)
    ensures RawRun(strict, st, [c]) == RawStep(strict, st, c)
  {
    assert [c][1..] == "" && RawRun(strict, RawStep(strict, st, c), "") == RawStep(strict, st, c);
  }

  lemma RawLast(strict: bool, st: Raw, s: string)
    requires s != ""
    ensures RawRun(strict, st, s) == RawStep(strict, RawRun(strict, st, s[..|s| - 1]), s[|s| - 1])
  {
    var n := |s| - 1;
    RawAppend(strict, st, s[..n], [s[n]]);
    assert s == s[..n] + [s[n]];
    RawOne(strict, RawRun(strict, st, s[..n]), s[n]);
  }

  lemma {:induction false} BadStays(strict: bool, s: string)
    ensures RawRun(strict, Bad, s) == Bad
    decreases |s|
  {
    if s != "" {
      BadStays(strict, s[1..]);
    }
  }

  /** The two readings agree as long as the strict one finds nothing bad. */
  lemma {:induction false} StrictIsLoose(st: Raw, s: string)
    ensures RawRun(true, st, s) != Bad ==> RawRun(false, st, s) == RawRun(true, st, s)
    decreases |s|
  {
    if s != "" {
      StrictIsLoose(RawStep(true, st, s[0]), s[1..]);
      BadStays(true, s[1..]);
    }
  }

  /** They also agree where there is no line feed. */
  lemma {:induction false} SameWithoutLineFeed(st: Raw, s: string)
    requires Free(s)
    ensures RawRun(true, st, s) == RawRun(false, st, s)
    decreases |s|
  {
    if s != "" {
      SameWithoutLineFeed(RawStep(true, st, s[0]), s[1..]);
    }
  }

  predicate Ordinary(s: string) {
    '\\' !in s && '\'' !in s && ';' !in s
  }

  lemma {:induction false} OrdinaryRun(strict: bool, s: string)
    requires Ordinary(s)
    ensures RawRun(strict, LINE_START, s) == LINE_START
    decreases |s|
  {
    if s != "" {
      OrdinaryRun(strict, s[1..]);
    }
  }

  // ----- Lines -----

  /** On one line the automaton knows whether the line ends a statement. */
  lemma {:induction false} ArmedAtEnd(s: string)
    requires Free(s) && RawRun(false, LINE_START, s) != Bad
    ensures RawRun(false, LINE_START, s).arm == Semicolon <==> EndsStatement(s)
    decreases |s|
  {
    if s != "" {
      var n := |s| - 1;
      RawLast(false, LINE_START, s);
      if IsSpace(s[n]) {
        ArmedAtEnd(s[..n]);
        assert Rstrip(s) == Rstrip(s[..n]);
      } else {
        assert Rstrip(s) == s;
      }
    }
  }

  lemma LineFeedEndsNothing(s: string)
    ensures EndsStatement(s + "\n") <==> EndsStatement(s)
  {
    BlankTailEndsNothing(s, "\n");
  }

  lemma ContentRun(s: string, line: string)
    requires Free(s) && line == s + "\n" && RawRun(false, LINE_START, line) != Bad
    ensures RawRun(false, LINE_START, line) == LINE_START
    ensures RawRun(true, LINE_START, line) == if EndsStatement(line) then Bad else LINE_START
    ensures RawRun(true, LINE_START, s) != Bad
  {
    RawAppend(false, LINE_START, s, "\n");
    RawAppend(true, LINE_START, s, "\n");
    SameWithoutLineFeed(LINE_START, s);
    var st := RawRun(false, LINE_START, s);
    RawOne(false, st, '\n');
    RawOne(true, st, '\n');
    ArmedAtEnd(s);
    LineFeedEndsNothing(s);
  }

  lemma LineRun(line: string)
    requires IsLine(line) && RawRun(false, LINE_START, line) != Bad
    ensures RawRun(false, LINE_START, line) == LINE_START
    ensures RawRun(true, LINE_START, line) == if EndsStatement(line) then Bad else LINE_START
    ensures RawRun(true, LINE_START, line[..|line| - 1]) != Bad
  {
    ContentRun(line[..|line| - 1], line);
  }

  lemma CutFirstLine(body: string) returns (first: string, rest: string)
    requires !Free(body)
    ensures body == first + rest && IsLine(first)
  {
    var k := Find(body, "\n");
    if k.None? {
      var i :| 0 <= i < |body| && body[i] == '\n';
      assert body[i..i + 1] == "\n" && OccursAt(body, "\n", i);
    }
    first, rest := body[..k.value + 1], body[k.value + 1..];
    assert first[k.value] == body[k.value..k.value + 1][0];
    forall i | 0 <= i < k.value
      ensures body[i] != '\n'
    {
      assert !OccursAt(body, "\n", i);
      assert body[i..i + 1] == [body[i]];
    }
  }

  /** A text read loosely has no early end exactly when the strict reading finds none. */
  lemma {:induction false} EndsOnceMeansStrict(body: string)
    requires RawRun(false, LINE_START, body) != Bad
    ensures EndsOnce(body + ";\n") <==> RawRun(true, LINE_START, body) != Bad
    decreases |body|
  {
    if Free(body) {
      SameWithoutLineFeed(LINE_START, body);
      assert (body + ";\n")[..|body| + 1] == body + ";";
      OnlyLine(body + ";\n");
    } else {
      var first, rest := CutFirstLine(body);
      RawAppend(false, LINE_START, first, rest);
      RawAppend(true, LINE_START, first, rest);
      BadStays(false, rest);
      BadStays(true, rest);
      LineRun(first);
      EndsOnceMeansStrict(rest);
      Assoc(first, rest, ";\n");
      FirstLine(first, rest + ";\n");
      EndsOnceMore(first, rest + ";\n");
    }
  }

  lemma EndsOnceMore(first: string, rest: string)
    requires IsLine(first) && rest != ""
    ensures EndsOnce(first + rest) <==> !EndsStatement(first) && EndsOnce(rest)
  {
    FirstLine(first, rest);
    var lines, all := SplitLines(rest), SplitLines(first + rest);
    assert all == [first] + lines && lines != [];
    if EndsOnce(first + rest) {
      assert !EndsStatement(all[0]);
      forall k | 0 <= k < |lines| - 1
        ensures !EndsStatement(lines[k])
      {
        assert lines[k] == all[k + 1];
      }
    }
  }

  // ----- The raw text of a dumped table -----

  lemma {:induction false} StringRun(strict: bool, s: string)
    ensures RawRun(strict, LINE_START, PieceText(QuotePieces(s)))
            == if strict && Breaks(s) then Bad else Fine(false, if Armed(s) then Semicolon else Idle)
  {
    if s != "" {
      var n := |s| - 1;
      var before := PieceText(QuotePieces(s[..n]));
      var last := QuotePieces([s[n]])[0];
      StringRun(strict, s[..n]);
      LastPiece(s);
      RawAppend(strict, LINE_START, before, OneText(last));
      RawPiece(strict, RawRun(strict, LINE_START, before), s[n]);
    }
  }

  lemma LastPiece(s: string)
    requires s != ""
    ensures PieceText(QuotePieces(s))
            == PieceText(QuotePieces(s[..|s| - 1])) + OneText(QuotePieces([s[|s| - 1]])[0])
  {
    var n := |s| - 1;
    var last := QuotePieces([s[n]]);
    assert QuotePieces(s) == QuotePieces(s[..n]) + last;
    PieceTextAppend(QuotePieces(s[..n]), last);
    assert last[1..] == [] && PieceText(last) == OneText(last[0]) + PieceText([]) == OneText(last[0]);
  }

  lemma RawPiece(strict: bool, st: Raw, c: char)
    requires st == Bad || (!st.open && st.arm != Closed)
    ensures RawRun(strict, st, OneText(QuotePieces([c])[0]))
            == if c == '\\' || c == '\'' then (if st == Bad then Bad else LINE_START) else RawStep(strict, st, c)
  {
    if c == '\\' || c == '\'' {
      var text := OneText(QuotePieces([c])[0]);
      assert text == "\\" + [c];
      RawAppend(strict, st, "\\", [c]);
      RawOne(strict, st, '\\');
      RawOne(strict, RawStep(strict, st, '\\'), c);
    } else {
      RawOne(strict, st, c);
    }
  }

  /** A field and the comma or parenthesis behind it. */
  lemma FieldRun(strict: bool, c: Cell, sep: char)
    requires sep == ',' || sep == ')'
    ensures RawRun(strict, LINE_START, FieldText(CellField(c)) + [sep])
            == if strict && BreaksCell(c) then Bad else LINE_START
  {
    match c
    case TextCell(s) =>
      var inside := PieceText(QuotePieces(s));
      assert FieldText(CellField(c)) + [sep] == "'" + inside + "'" + [sep];
      RawAppend(strict, LINE_START, "'" + inside + "'", [sep]);
      RawAppend(strict, LINE_START, "'" + inside, "'");
      RawAppend(strict, LINE_START, "'", inside);
      RawOne(strict, LINE_START, '\'');
      StringRun(strict, s);
      RawOne(strict, RawRun(strict, LINE_START, inside), '\'');
      RawOne(strict, RawStep(strict, RawRun(strict, LINE_START, inside), '\''), sep);
    case _ =>
      BareIsOrdinary(c);
      OrdinaryRun(strict, FieldText(CellField(c)) + [sep]);
  }

  lemma BareIsOrdinary(c: Cell)
    requires !c.TextCell?
    ensures Ordinary(FieldText(CellField(c))) && Free(FieldText(CellField(c)))
  {
    if c.IntCell? {
      var s, digits := ShowInt(c.n), ShowNat(if c.n < 0 then -c.n else c.n);
      forall i | 0 <= i < |s|
        ensures IsDigit(s[i]) || s[i] == '-'
      {
        assert c.n < 0 && i > 0 ==> s[i] == digits[i - 1];
      }
    }
  }

  lemma BreaksMore(init: Record, last: Cell)
    ensures BreaksRecord(init + [last]) <==> BreaksRecord(init) || BreaksCell(last)
  {
    assert forall c :: c in init + [last] <==> c in init || c == last;
  }

  lemma FieldsTextMore(r: Record, sep: string)
    requires |r| > 1
    ensures FieldsText(RecordFields(r)) + sep
            == (FieldsText(RecordFields(r[..|r| - 1])) + ",") + (FieldText(CellField(r[|r| - 1])) + sep)
  {
    FieldsTextLast(RecordFields(r));
    assert RecordFields(r)[..|r| - 1] == RecordFields(r[..|r| - 1]);
  }

  lemma FieldsTextOne(r: Record)
    requires |r| == 1
    ensures FieldsText(RecordFields(r)) == FieldText(CellField(r[0]))
  {
  }

  lemma {:induction false} FieldsRun(strict: bool, r: Record, sep: char)
    requires r != [] && (sep == ',' || sep == ')')
    ensures RawRun(strict, LINE_START, FieldsText(RecordFields(r)) + [sep])
            == if strict && BreaksRecord(r) then Bad else LINE_START
    decreases |r|
  {
    var init, last := r[..|r| - 1], r[|r| - 1];
    assert r == init + [last];
    BreaksMore(init, last);
    FieldRun(strict, last, sep);
    if |r| == 1 {
      FieldsTextOne(r);
    } else {
      var tail := FieldText(CellField(last)) + [sep];
      FieldsRun(strict, init, ',');
      FieldsTextMore(r, [sep]);
      RawAppend(strict, LINE_START, FieldsText(RecordFields(init)) + ",", tail);
      BadStays(strict, tail);
    }
  }

  lemma RowRun(strict: bool, r: Record)
    requires r != []
    ensures RawRun(strict, LINE_START, RowText(RecordFields(r))) == if strict && BreaksRecord(r) then Bad else LINE_START
  {
    var fields := FieldsText(RecordFields(r)) + ")";
    assert RowText(RecordFields(r)) == "(" + fields;
    RawAppend(strict, LINE_START, "(", fields);
    RawOne(strict, LINE_START, '(');
    FieldsRun(strict, r, ')');
  }

  lemma BreaksSomeMore(init: seq<Record>, last: Record)
    ensures BreaksSome(init + [last]) <==> BreaksSome(init) || BreaksRecord(last)
  {
    assert forall r :: r in init + [last] <==> r in init || r == last;
  }

  /** Rows with ordinary text between them. */
  lemma {:induction false} SpacedRun(strict: bool, rs: seq<Record>, gaps: seq<string>)
    requires |gaps| == |rs| + 1 && forall i :: 0 <= i < |gaps| ==> Ordinary(gaps[i])
    requires forall i :: 0 <= i < |rs| ==> rs[i] != []
    ensures RawRun(strict, LINE_START, SpacedText(Map(RecordFields, rs), gaps))
            == if strict && BreaksSome(rs) then Bad else LINE_START
    decreases |rs|
  {
    var n := |rs|;
    if n == 0 {
      OrdinaryRun(strict, gaps[0]);
    } else {
      var init, last := rs[..n - 1], rs[n - 1];
      var front := SpacedText(Map(RecordFields, init), gaps[..n]);
      assert rs == init + [last] && Map(RecordFields, rs)[..n - 1] == Map(RecordFields, init);
      BreaksSomeMore(init, last);
      SpacedRun(strict, init, gaps[..n]);
      RawAppend(strict, LINE_START, front, RowText(RecordFields(last)) + gaps[n]);
      RawAppend(strict, LINE_START, RowText(RecordFields(last)), gaps[n]);
      RowRun(strict, last);
      OrdinaryRun(strict, gaps[n]);
      BadStays(strict, gaps[n]);
      BadStays(strict, RowText(RecordFields(last)) + gaps[n]);
    }
  }

  lemma UsualGapsAreOrdinary(n: nat, i: nat)
    requires i < n
    ensures Ordinary(UsualGaps(n)[i])
  {
  }

  /** The values of a printed table without their final semicolon and line feed. */
  function ValuesBody(rs: seq<Record>): string {
    if rs == [] then ""
    else
      var n := |rs|;
      SpacedText(Map(RecordFields, rs[..n - 1]), UsualGaps(n)[..n]) + RowText(RecordFields(rs[n - 1]))
  }

  lemma ValuesBodyIs(rs: seq<Record>)
    ensures SpacedText(Map(RecordFields, rs), UsualGaps(|rs|)) == ValuesBody(rs) + ";\n"
  {
    var n := |rs|;
    if n > 0 {
      assert Map(RecordFields, rs)[..n - 1] == Map(RecordFields, rs[..n - 1]);
      Assoc(SpacedText(Map(RecordFields, rs[..n - 1]), UsualGaps(n)[..n]), RowText(RecordFields(rs[n - 1])), ";\n");
    }
  }

  lemma ValuesRun(strict: bool, rs: seq<Record>)
    requires forall i :: 0 <= i < |rs| ==> rs[i] != []
    ensures RawRun(strict, LINE_START, ValuesBody(rs)) == if strict && BreaksSome(rs) then Bad else LINE_START
  {
    if rs != [] {
      var n := |rs|;
      var init, last, gaps := rs[..n - 1], rs[n - 1], UsualGaps(n)[..n];
      assert rs == init + [last];
      BreaksSomeMore(init, last);
      forall i | 0 <= i < |gaps|
        ensures Ordinary(gaps[i])
      {
        UsualGapsAreOrdinary(n, i);
      }
      SpacedRun(strict, init, gaps);
      RawAppend(strict, LINE_START, SpacedText(Map(RecordFields, init), gaps), RowText(RecordFields(last)));
      RowRun(strict, last);
      BadStays(strict, RowText(RecordFields(last)));
    }
  }

  lemma OrdinaryAppend(a: string, b: string)
    requires Ordinary(a) && Ordinary(b)
    ensures Ordinary(a + b)
  {
  }

  lemma HeadIsOrdinary(table: string)
    requires IsTarget(table)
    ensures Ordinary(Head(table, TargetColumns(table)))
  {
    HeadLacks(table, '\\');
    HeadLacks(table, '\'');
    HeadLacks(table, ';');
  }

  lemma FrontIsOrdinary(table: string)
    requires IsTarget(table)
    ensures Ordinary(Head(table, TargetColumns(table)) + VALUES)
  {
    HeadIsOrdinary(table);
    assert Ordinary(VALUES);
    OrdinaryAppend(Head(table, TargetColumns(table)), VALUES);
  }

  /** The text of a printed table without its final semicolon and line feed. */
  function TableBody(table: string, rs: seq<Record>): string {
    Head(table, TargetColumns(table)) + VALUES + ValuesBody(rs)
  }

  lemma TableBodyIs(table: string, rs: seq<Record>)
    ensures TableText(table, rs) == TableBody(table, rs) + ";\n"
  {
    ValuesBodyIs(rs);
    Assoc(Head(table, TargetColumns(table)) + VALUES, ValuesBody(rs), ";\n");
  }

  lemma TableRun(strict: bool, table: string, rs: seq<Record>)
    requires IsTarget(table) && forall i :: 0 <= i < |rs| ==> rs[i] != []
    ensures RawRun(strict, LINE_START, TableBody(table, rs)) == if strict && BreaksSome(rs) then Bad else LINE_START
  {
    FrontIsOrdinary(table);
    OrdinaryRun(strict, Head(table, TargetColumns(table)) + VALUES);
    RawAppend(strict, LINE_START, Head(table, TargetColumns(table)) + VALUES, ValuesBody(rs));
    ValuesRun(strict, rs);
  }

  lemma FittingRecordsAreNotEmpty(table: string, rs: seq<Record>)
    requires FitTable(table, rs)
    ensures forall i :: 0 <= i < |rs| ==> rs[i] != []
  {
  }

  /**
   * A dumped table is read as one statement -- no line but the last ends in a
   * semicolon -- exactly when no string of it breaks a line.
   */
  lemma EndsOnceIff(table: string, rs: seq<Record>)
    requires FitTable(table, rs)
    ensures EndsOnce(TableText(table, rs)) <==> !BreaksSome(rs)
  {
    FittingRecordsAreNotEmpty(table, rs);
    TableBodyIs(table, rs);
    TableRun(false, table, rs);
    TableRun(true, table, rs);
    EndsOnceMeansStrict(TableBody(table, rs));
  }

  // ----- No loaded string breaks a line -----

  lemma {:induction false} PrefixBreaksNothing(s: string, n: nat)
    requires !Breaks(s) && n <= |s|
    ensures !Breaks(s[..n])
    decreases |s|
  {
    if n < |s| {
      PrefixBreaksNothing(s[..|s| - 1], n);
      assert s[..|s| - 1][..n] == s[..n];
    } else {
      assert s[..n] == s;
    }
  }

  lemma {:induction false} SuffixBreaksNothing(s: string, k: nat)
    requires k <= |s|
    ensures Armed(s[k..]) ==> Armed(s)
    ensures Breaks(s[k..]) ==> Breaks(s)
    decreases |s|
  {
    if k < |s| {
      var n := |s| - 1;
      SuffixBreaksNothing(s[..n], k);
      assert s[k..][..n - k] == s[..n][k..] && s[k..][n - k] == s[n];
    }
  }

  lemma {:induction false} LstripIsSuffix(s: string) returns (k: nat)
    ensures k <= |s| && Lstrip(s) == s[k..]
  {
    if s != "" && IsSpace(s[0]) {
      var rest := LstripIsSuffix(s[1..]);
      k := rest + 1;
    } else {
      k := 0;
    }
  }

  lemma StripBreaksNothing(s: string)
    requires !Breaks(s)
    ensures !Breaks(Strip(s))
  {
    var k := LstripIsSuffix(s);
    SuffixBreaksNothing(s, k);
    RstripIsPrefix(Lstrip(s));
    PrefixBreaksNothing(Lstrip(s), |Strip(s)|);
    assert Strip(s) == Lstrip(s)[..|Strip(s)|];
  }

  predicate WholeValue(v: Value) { v.Text? ==> !Breaks(v.text) }

  predicate WholeRow(row: Row) { forall i :: 0 <= i < |row| ==> WholeValue(row[i]) }

  predicate WholeRows(rows: seq<Row>) { forall i :: 0 <= i < |rows| ==> WholeRow(rows[i]) }

  lemma FieldIsWhole(chars: string, quoted: bool)
    requires !Breaks(chars)
    ensures WholeValue(FieldValue(chars, quoted))
  {
    StripBreaksNothing(chars);
  }

  /** What the parser has collected never breaks a line, if the raw text before it does not. */
  predicate InStep(mode: Mode, st: Raw) {
    st.Fine? &&
    match mode
    case Outside => true
    case Plain(fields, chars, quoted) => WholeRow(fields) && !Breaks(chars) && (Armed(chars) ==> st.arm != Idle)
    case InString(fields, chars) => WholeRow(fields) && !Breaks(chars) && (Armed(chars) ==> st.arm != Idle) && !st.open
    case AfterBackslash(fields, chars) => WholeRow(fields) && !Breaks(chars) && st.open
  }

  lemma CharAdded(chars: string, c: char)
    ensures Armed(chars + [c]) <==> c == ';' || (IsSpace(c) && c != '\n' && Armed(chars))
    ensures Breaks(chars + [c]) <==> Breaks(chars) || (c == '\n' && Armed(chars))
  {
    assert (chars + [c])[..|chars|] == chars;
  }

  lemma PlainStepInStep(sc: Scan, st: Raw, c: char)
    requires sc.mode.Plain? && InStep(sc.mode, st) && WholeRows(sc.rows) && RawStep(true, st, c) != Bad
    ensures InStep(Step(sc, c).mode, RawStep(true, st, c)) && WholeRows(Step(sc, c).rows)
  {
    CharAdded(sc.mode.chars, c);
    FieldIsWhole(sc.mode.chars, sc.mode.quoted);
  }

  lemma StringStepInStep(sc: Scan, st: Raw, c: char)
    requires sc.mode.InString? && InStep(sc.mode, st) && WholeRows(sc.rows) && RawStep(true, st, c) != Bad
    ensures InStep(Step(sc, c).mode, RawStep(true, st, c)) && WholeRows(Step(sc, c).rows)
  {
    CharAdded(sc.mode.chars, c);
  }

  lemma StepInStep(sc: Scan, st: Raw, c: char)
    requires InStep(sc.mode, st) && WholeRows(sc.rows) && RawStep(true, st, c) != Bad
    ensures InStep(Step(sc, c).mode, RawStep(true, st, c)) && WholeRows(Step(sc, c).rows)
  {
    match sc.mode
    case Outside =>
    case Plain(_, _, _) => PlainStepInStep(sc, st, c);
    case InString(_, _) => StringStepInStep(sc, st, c);
    case AfterBackslash(_, chars) =>
      assert c == '\\' || c == '\'';
      CharAdded(chars, c);
  }

  lemma {:induction false} RunInStep(sc: Scan, st: Raw, s: string)
    requires InStep(sc.mode, st) && WholeRows(sc.rows) && RawRun(true, st, s) != Bad
    ensures InStep(Run(sc, s).mode, RawRun(true, st, s)) && WholeRows(Run(sc, s).rows)
    decreases |s|
  {
    if s != "" {
      BadStays(true, s[1..]);
      StepInStep(sc, st, s[0]);
      RunInStep(Step(sc, s[0]), RawStep(true, st, s[0]), s[1..]);
    }
  }

  /** A statement without an early end: a line feed closes it, and strictly read it is fine up to there. */
  predicate WholeStatement(text: string) {
    text != "" && text[|text| - 1] == '\n' && RawRun(true, LINE_START, text[..|text| - 1]) != Bad
  }

  lemma ValuesAreWhole(text: string)
    requires WholeStatement(text) && SplitValues(text).Some?
    ensures WholeRows(Parse(SplitValues(text).value.1))
  {
    var (head, values) := SplitValues(text).value;
    var front := head + VALUES;
    var v := values[..|values| - 1];
    assert text[..|text| - 1] == front + v && values == v + "\n";
    RawAppend(true, LINE_START, front, v);
    BadStays(true, v);
    RawLast(true, LINE_START, front);
    assert front[|front| - 1] == 'S';
    RunInStep(START, LINE_START, v);
    RunAppend(START, v, "\n");
    NoRowWithoutClosing(Run(START, v), "\n");
  }

  predicate WholeRecords(rs: seq<Record>) { forall i :: 0 <= i < |rs| ==> !BreaksRecord(rs[i]) }

  lemma PickedIsWhole(wanted: seq<string>, ps: seq<nat>, row: Row)
    requires |ps| == |wanted| && (forall i :: 0 <= i < |ps| ==> ps[i] < |row|) && WholeRow(row)
    ensures !BreaksRecord(PickRow(wanted, ps, row))
  {
    var r := PickRow(wanted, ps, row);
    forall i | 0 <= i < |r|
      ensures !BreaksCell(r[i])
    {
      assert WholeValue(row[ps[i]]);
    }
  }

  lemma {:induction false} RecordsAreWhole(wanted: seq<string>, ps: seq<nat>, rows: seq<Row>)
    requires |ps| == |wanted| && ps != [] && WholeRows(rows)
    ensures WholeRecords(Records(wanted, ps, rows))
  {
    if rows != [] {
      RecordsAreWhole(wanted, ps, rows[1..]);
      if MaxOf(ps) < |rows[0]| {
        PickedIsWhole(wanted, ps, rows[0]);
      }
    }
  }

  lemma ContributionIsWhole(schema: map<string, seq<string>>, table: string, text: string)
    requires IsTarget(table) && WholeStatement(text)
    ensures match StatementContribution(schema, table, text)
            case Some(Tuples(rs)) => WholeRecords(rs)
            case _ => true
  {
    var split := SplitValues(text);
    if split.Some? {
      var (head, values) := split.value;
      ValuesAreWhole(text);
      var ps := Positions(ColumnsFor(schema, table, head), TargetColumns(table));
      if ps.Some? {
        RecordsAreWhole(TargetColumns(table), ps.value, Parse(values));
      }
    }
  }

  // ----- Every statement of the text is whole -----

  predicate GoodLine(line: string) { IsLine(line) && RawRun(false, LINE_START, line) != Bad }

  predicate GoodLines(lines: seq<string>) { forall i :: 0 <= i < |lines| ==> GoodLine(lines[i]) }

  predicate WholeItems(items: seq<Item>) {
    forall i :: 0 <= i < |items| ==> items[i].RowsOf? ==> WholeStatement(items[i].statement)
  }

  lemma {:induction false} StatementIsWhole(lines: seq<string>)
    requires lines != [] && GoodLines(lines)
    ensures WholeStatement(Flatten(lines[..StatementLength(lines)]))
    decreases |lines|
  {
    var n := StatementLength(lines);
    LineRun(lines[0]);
    if n == 1 {
      assert lines[..1] == [lines[0]] && Flatten([lines[0]]) == lines[0] + Flatten([]) == lines[0];
    } else {
      var rest := Flatten(lines[1..][..n - 1]);
      StatementIsWhole(lines[1..]);
      assert lines[..n] == [lines[0]] + lines[1..][..n - 1];
      FlattenCons(lines[0], lines[1..][..n - 1]);
      var text := lines[0] + rest;
      assert text[..|text| - 1] == lines[0] + rest[..|rest| - 1];
      RawAppend(true, LINE_START, lines[0], rest[..|rest| - 1]);
    }
  }

  lemma WholeItemsMore(item: Item, rest: seq<Item>)
    requires WholeItems(rest) && (item.RowsOf? ==> WholeStatement(item.statement))
    ensures WholeItems([item] + rest)
  {
  }

  lemma {:induction false} ItemsAreWhole(lines: seq<string>)
    requires GoodLines(lines)
    ensures WholeItems(Items(lines))
    decreases |lines|
  {
    if lines != [] {
      match KindOf(lines[0])
      case Definition(t) =>
        var (columns, n) := CreateBody(lines[1..]);
        ItemsAreWhole(lines[1..][n..]);
        WholeItemsMore(TableDef(t, columns), Items(lines[1..][n..]));
      case KeptInsert(t) =>
        var n := StatementLength(lines);
        StatementIsWhole(lines);
        ItemsAreWhole(lines[n..]);
        WholeItemsMore(RowsOf(t, Flatten(lines[..n])), Items(lines[n..]));
      case OtherInsert => ItemsAreWhole(lines[StatementLength(lines)..]);
      case Other => ItemsAreWhole(lines[1..]);
    }
  }

  lemma {:induction false} LinesAreGood(body: string)
    requires RawRun(false, LINE_START, body + ";\n") != Bad
    ensures GoodLines(SplitLines(body + ";\n"))
    decreases |body|
  {
    if Free(body) {
      assert (body + ";\n")[..|body| + 1] == body + ";";
      OnlyLine(body + ";\n");
    } else {
      var first, rest := CutFirstLine(body);
      Assoc(first, rest, ";\n");
      RawAppend(false, LINE_START, first, rest + ";\n");
      BadStays(false, rest + ";\n");
      LineRun(first);
      LinesAreGood(rest);
      FirstLine(first, rest + ";\n");
    }
  }

  lemma TableLinesAreGood(table: string, rs: seq<Record>)
    requires FitTable(table, rs)
    ensures GoodLines(SplitLines(TableText(table, rs)))
  {
    var body := TableBody(table, rs);
    FittingRecordsAreNotEmpty(table, rs);
    TableBodyIs(table, rs);
    TableRun(false, table, rs);
    RawAppend(false, LINE_START, body, ";\n");
    RawAppend(false, LINE_START, ";", "\n");
    RawOne(false, LINE_START, ';');
    RawOne(false, Fine(false, Semicolon), '\n');
    LinesAreGood(body);
  }

  // ----- Whole tables -----

  ghost predicate WholeTable(t: Table) { forall k :: k in t.rows ==> !BreaksRecord(t.rows[k]) }

  lemma {:induction false} InsertsStayWhole(t: Table, rs: seq<Record>)
    requires WholeTable(t) && WholeRecords(rs)
    ensures WholeTable(InsertAll(t, rs))
    decreases |rs|
  {
    if rs != [] {
      assert !BreaksRecord(rs[0]);
      InsertsStayWhole(Sqlite.Insert(t, rs[0]), rs[1..]);
    }
  }

  lemma ItemStaysWhole(st: LoadState, item: Item, table: string)
    requires IsTarget(item.table) && WholeTable(TableOf(st, table))
    requires item.RowsOf? ==> WholeStatement(item.statement)
    ensures WholeTable(TableOf(ApplyItem(st, item), table))
  {
    if item.RowsOf? && item.table == table {
      var c := StatementContribution(st.schema, table, item.statement);
      ContributionIsWhole(st.schema, table, item.statement);
      if c.Some? && c.value.Tuples? {
        InsertsStayWhole(TableOf(st, table), c.value.records);
      }
    }
  }

  lemma {:induction false} ItemsStayWhole(st: LoadState, items: seq<Item>, table: string)
    requires OnTargets(items) && WholeItems(items) && WholeTable(TableOf(st, table))
    ensures WholeTable(TableOf(ApplyAll(st, items), table))
    decreases |items|
  {
    if items != [] && st.error == None {
      ItemStaysWhole(st, items[0], table);
      ItemsStayWhole(ApplyItem(st, items[0]), items[1..], table);
    }
  }

  /** Whatever the loader makes of a dumped table's text, no string it stores breaks a line. */
  lemma NothingLoadedBreaks(table: string, rs: seq<Record>, t: string)
    requires FitTable(table, rs) && IsTarget(t)
    ensures WholeTable(TableOf(Load(SplitLines(TableText(table, rs))), t))
  {
    var lines := SplitLines(TableText(table, rs));
    TableLinesAreGood(table, rs);
    ItemsAreWhole(lines);
    ItemsOnTargets(lines);
    InitialTables(t);
    ItemsStayWhole(InitialState(), Items(lines), t);
  }

  ghost predicate DistinctKeys(rs: seq<Record>) {
    Keyed(rs) && forall i, j :: 0 <= i < j < |rs| ==> rs[i][0] != rs[j][0]
  }

  lemma BreakingRecordIsStored(rs: seq<Record>)
    requires DistinctKeys(rs) && BreaksSome(rs)
    ensures !WholeTable(InsertAll(EMPTY_TABLE, rs))
  {
    var j :| 0 <= j < |rs| && BreaksRecord(rs[j]);
    var k := rs[j][0].n;
    assert LastFor(rs, k, j);
    LastWriteWins(EMPTY_TABLE, rs, k);
    var i :| 0 <= i < |rs[j]| && BreaksCell(rs[j][i]);
    assert rs[j][1..][i - 1] == rs[j][i];
  }

  /**
   * For every table whose tuples have ids of their own: dumped and loaded it is the
   * same table if and only if none of its strings breaks a line.
   */
  lemma TableSurvivesIff(table: string, rs: seq<Record>)
    requires FitTable(table, rs) && DistinctKeys(rs)
    ensures TableOf(Load(SplitLines(TableText(table, rs))), table) == InsertAll(EMPTY_TABLE, rs) <==> !BreaksSome(rs)
  {
    if BreaksSome(rs) {
      NothingLoadedBreaks(table, rs, table);
      BreakingRecordIsStored(rs);
    } else {
      EndsOnceIff(table, rs);
      TableRoundTrip(table, rs);
    }
  }
}
