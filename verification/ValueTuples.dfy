/**
 * The parser for the `(...),(...)` payload of an INSERT statement
 * (gcd_load_sqlite.py, `_parse_value_tuples`): the character loop, the automaton it
 * implements, printers, and the laws that connect them.
 */
module ValueTuples {
  import opened Common
  import opened PyText

  datatype Value = Null | Text(text: string)

  type Row = seq<Value>

  // ----- The automaton -----

  datatype Mode =
    | Outside
    | Plain(fields: Row, chars: string, quoted: bool)
    | InString(fields: Row, chars: string)
    | AfterBackslash(fields: Row, chars: string)

  datatype Scan = Scan(rows: seq<Row>, mode: Mode)

  const START := Scan([], Outside)

  predicate IsNullWord(s: string) {
    |s| == 4 && s[0] in "Nn" && s[1] in "Uu" && s[2] in "Ll" && s[3] in "Ll"
  }

  function FieldValue(chars: string, quoted: bool): Value {
    if quoted then Text(chars)
    else if IsNullWord(Strip(chars)) then Null else Text(Strip(chars))
  }

  function Step(sc: Scan, c: char): Scan {
    match sc.mode
    case Outside =>
      if c == '(' then sc.(mode := Plain([], "", false)) else sc
    case Plain(fields, chars, quoted) =>
      if c == '\'' then sc.(mode := InString(fields, chars))
      else if c == ',' then sc.(mode := Plain(fields + [FieldValue(chars, quoted)], "", false))
      else if c == ')' then Scan(sc.rows + [fields + [FieldValue(chars, quoted)]], Outside)
      else sc.(mode := Plain(fields, chars + [c], quoted))
    case InString(fields, chars) =>
      if c == '\\' then sc.(mode := AfterBackslash(fields, chars))
      else if c == '\'' then sc.(mode := Plain(fields, chars, true))
      else sc.(mode := InString(fields, chars + [c]))
    case AfterBackslash(fields, chars) =>
      sc.(mode := InString(fields, chars + [c]))
  }

  function Run(sc: Scan, s: string): Scan
    decreases |s|
  {
    if s == "" then sc else Run(Step(sc, s[0]), s[1..])
  }

  function Parse(values: string): seq<Row> {
    Run(START, values).rows
  }

  // ----- The character loop -----

  function LoopMode(inStr: bool, quoted: bool, chars: string, fields: Row): Mode {
    if inStr then InString(fields, chars) else Plain(fields, chars, quoted)
  }

  method ParseValueTuples(values: string) returns (rows: seq<Row>)
    ensures rows == Parse(values)
  {
    rows := [];
    var i, n := 0, |values|;
    while i < n
      invariant 0 <= i <= n
      invariant Parse(values) == Run(Scan(rows, Outside), values[i..]).rows
    {
      RunStep(Scan(rows, Outside), values, i);
      if values[i] != '(' {
        i := i + 1;
        continue;
      }
      i := i + 1;
      var fieldChars: string := "";
      var fields: Row := [];
      var inStr := false;
      var quoted := false;
      while i < n
        invariant 0 < i <= n
        invariant Parse(values) == Run(Scan(rows, LoopMode(inStr, quoted, fieldChars, fields)), values[i..]).rows
      {
        RunStep(Scan(rows, LoopMode(inStr, quoted, fieldChars, fields)), values, i);
        var c := values[i];
        if inStr {
          if c == '\\' && i + 1 < n {
            RunStep(Scan(rows, AfterBackslash(fields, fieldChars)), values, i + 1);
            fieldChars := fieldChars + [values[i + 1]];
            i := i + 2;
            continue;
          }
          if c == '\'' {
            inStr, quoted := false, true;
            i := i + 1;
            continue;
          }
          fieldChars := fieldChars + [c];
          i := i + 1;
          continue;
        }
        if c == '\'' {
          inStr := true;
          quoted := true;
          i := i + 1;
          continue;
        }
        if c == ',' || c == ')' {
          var token := fieldChars;
          if quoted {
            fields := fields + [Text(token)];
          } else {
            var stripped := Strip(token);
            fields := fields + [if IsNullWord(stripped) then Null else Text(stripped)];
          }
          fieldChars := "";
          quoted := false;
          if c == ')' {
            i := i + 1;
            rows := rows + [fields];
            break;
          }
          i := i + 1;
          continue;
        }
        fieldChars := fieldChars + [c];
        i := i + 1;
      }
    }
  }

  lemma RunStep(sc: Scan, s: string, i: nat)
    requires i < |s|
    ensures Run(sc, s[i..]) == Run(Step(sc, s[i]), s[i + 1..])
  {
    assert s[i..][0] == s[i] && s[i..][1..] == s[i + 1..];
  }

  // ----- Composition and truncation -----

  lemma {:induction false} RunAppend(sc: Scan, a: string, b: string)
    ensures Run(sc, a + b) == Run(Run(sc, a), b)
    decreases |a|
  {
    if a == "" {
      assert a + b == b;
    } else {
      RunAppend(Step(sc, a[0]), a[1..], b);
      assert (a + b)[1..] == a[1..] + b;
    }
  }

  /** Rows found earlier never influence what is found later. */
  lemma {:induction false} RunIgnoresEarlierRows(sc: Scan, s: string)
    ensures Run(sc, s).rows == sc.rows + Run(Scan([], sc.mode), s).rows
    ensures Run(sc, s).mode == Run(Scan([], sc.mode), s).mode
    decreases |s|
  {
    if s != "" {
      var one, bare := Step(sc, s[0]), Step(Scan([], sc.mode), s[0]);
      assert one.mode == bare.mode && one.rows == sc.rows + bare.rows;
      RunIgnoresEarlierRows(one, s[1..]);
      RunIgnoresEarlierRows(bare, s[1..]);
    }
  }

  lemma RunShort(sc: Scan, s: string)
    requires 1 <= |s| <= 3
    ensures Run(sc, s) == var one := Step(sc, s[0]);
                          var two := if |s| > 1 then Step(one, s[1]) else one;
                          if |s| > 2 then Step(two, s[2]) else two
  {
    RunStep(sc, s, 0);
    assert s[0..] == s;
    if |s| > 1 {
      RunStep(Step(sc, s[0]), s, 1);
      if |s| > 2 {
        RunStep(Step(Step(sc, s[0]), s[1]), s, 2);
      }
    }
  }

  lemma ParseAppend(a: string, b: string)
    ensures Parse(a + b) == Parse(a) + Run(Scan([], Run(START, a).mode), b).rows
  {
    RunAppend(START, a, b);
    RunIgnoresEarlierRows(Run(START, a), b);
  }

  predicate EndsBetweenTuples(a: string) {
    Run(START, a).mode == Outside
  }

  /**
   * A payload can be cut at `a` and parsed in two halves, whatever follows,
   * exactly when `a` ends between tuples.
   */
  lemma ParseComposes(a: string)
    ensures EndsBetweenTuples(a) <==> forall b :: Parse(a + b) == Parse(a) + Parse(b)
  {
    forall b | EndsBetweenTuples(a)
      ensures Parse(a + b) == Parse(a) + Parse(b)
    {
      ParseAppend(a, b);
    }
    if !EndsBetweenTuples(a) {
      var mode := Run(START, a).mode;
      var b := if mode.Plain? then ")" else if mode.InString? then "')" else "x')";
      ParseAppend(a, b);
      RunShort(START, b);
      RunShort(Scan([], mode), b);
    }
  }

  /** A truncated payload yields a prefix of the rows of the whole, never part of a row. */
  lemma TruncationKeepsWholeRows(values: string, k: nat)
    requires k <= |values|
    ensures Parse(values[..k]) <= Parse(values)
  {
    assert values == values[..k] + values[k..];
    ParseAppend(values[..k], values[k..]);
  }

  /** Only a closing parenthesis completes a row. */
  lemma {:induction false} NoRowWithoutClosing(sc: Scan, s: string)
    requires ')' !in s
    ensures Run(sc, s).rows == sc.rows
    decreases |s|
  {
    if s != "" {
      NoRowWithoutClosing(Step(sc, s[0]), s[1..]);
    }
  }

  lemma {:induction false} RstripIsPrefix(s: string)
    ensures Rstrip(s) <= s && forall c :: c in s[|Rstrip(s)|..] ==> IsSpace(c)
  {
    if s != "" && IsSpace(s[|s| - 1]) {
      RstripIsPrefix(s[..|s| - 1]);
      var r := Rstrip(s);
      assert s[|r|..] == s[..|s| - 1][|r|..] + [s[|s| - 1]];
    }
  }

  lemma {:induction false} RstripSemicolonsIsPrefix(s: string)
    ensures RstripSemicolons(s) <= s && forall c :: c in s[|RstripSemicolons(s)|..] ==> c == ';'
  {
    if s != "" && s[|s| - 1] == ';' {
      RstripSemicolonsIsPrefix(s[..|s| - 1]);
      var r := RstripSemicolons(s);
      assert s[|r|..] == s[..|s| - 1][|r|..] + [s[|s| - 1]];
    }
  }

  /** Stripping the statement terminator before parsing changes nothing. */
  lemma TerminatorIsIrrelevant(values: string)
    ensures Parse(RstripSemicolons(Rstrip(values))) == Parse(values)
  {
    var a := Rstrip(values);
    var b := RstripSemicolons(a);
    RstripIsPrefix(values);
    RstripSemicolonsIsPrefix(a);
    assert values == a + values[|a|..] && a == b + a[|b|..];
    RunAppend(START, a, values[|a|..]);
    NoRowWithoutClosing(Run(START, a), values[|a|..]);
    RunAppend(START, b, a[|b|..]);
    NoRowWithoutClosing(Run(START, b), a[|b|..]);
  }

  // ----- Printing -----

  /** One character of a quoted string: written as itself or behind a backslash. */
  datatype Piece = Raw(c: char) | Escaped(c: char)

  datatype Field = Bare(text: string) | Quoted(pieces: seq<Piece>)

  function OneText(p: Piece): string {
    if p.Raw? then [p.c] else ['\\', p.c]
  }

  function PieceText(ps: seq<Piece>): string {
    if ps == [] then "" else OneText(ps[0]) + PieceText(ps[1..])
  }

  lemma {:induction false} PieceTextAppend(a: seq<Piece>, b: seq<Piece>)
    ensures PieceText(a + b) == PieceText(a) + PieceText(b)
  {
    if a == [] {
      assert a + b == b;
    } else {
      PieceTextAppend(a[1..], b);
      assert (a + b)[1..] == a[1..] + b;
      Assoc(OneText(a[0]), PieceText(a[1..]), PieceText(b));
    }
  }

  function Decode(ps: seq<Piece>): string {
    Map((p: Piece) => p.c, ps)
  }

  predicate WellFormedField(f: Field) {
    match f
    case Bare(text) => '\'' !in text && ',' !in text && ')' !in text
    case Quoted(pieces) => forall p <- pieces :: p.Raw? ==> p.c !in "'\\"
  }

  function FieldText(f: Field): string {
    match f
    case Bare(text) => text
    case Quoted(pieces) => "'" + PieceText(pieces) + "'"
  }

  function Chars(f: Field): string {
    match f
    case Bare(text) => text
    case Quoted(pieces) => Decode(pieces)
  }

  /** What a field stands for: a decoded string, or a bare token with NULL recognised. */
  function Meaning(f: Field): Value {
    FieldValue(Chars(f), f.Quoted?)
  }

  predicate WellFormedRow(fs: seq<Field>) {
    forall i :: 0 <= i < |fs| ==> WellFormedField(fs[i])
  }

  predicate WellFormedRows(rows: seq<seq<Field>>) {
    forall i :: 0 <= i < |rows| ==> rows[i] != [] && WellFormedRow(rows[i])
  }

  function FieldsText(fs: seq<Field>): string {
    Join(",", Map(FieldText, fs))
  }

  function RowText(fs: seq<Field>): string {
    "(" + FieldsText(fs) + ")"
  }

  function Payload(rows: seq<seq<Field>>): string {
    Join(",", Map(RowText, rows))
  }

  function RowMeaning(fs: seq<Field>): Row {
    Map(Meaning, fs)
  }

  function RowsMeaning(rows: seq<seq<Field>>): seq<Row> {
    Map(RowMeaning, rows)
  }

  // ----- Round trips -----

  lemma RunPiece(rows: seq<Row>, fields: Row, chars: string, p: Piece)
    requires p.Raw? ==> p.c !in "'\\"
    ensures Run(Scan(rows, InString(fields, chars)), OneText(p)) == Scan(rows, InString(fields, chars + [p.c]))
  {
    RunShort(Scan(rows, InString(fields, chars)), OneText(p));
  }

  lemma {:induction false} RunPieces(rows: seq<Row>, fields: Row, chars: string, ps: seq<Piece>)
    requires WellFormedField(Quoted(ps))
    ensures Run(Scan(rows, InString(fields, chars)), PieceText(ps)) == Scan(rows, InString(fields, chars + Decode(ps)))
    decreases |ps|
  {
    if ps == [] {
      assert chars + Decode(ps) == chars;
    } else {
      var c := ps[0].c;
      assert ps[0] in ps;
      RunAppend(Scan(rows, InString(fields, chars)), OneText(ps[0]), PieceText(ps[1..]));
      RunPiece(rows, fields, chars, ps[0]);
      RunPieces(rows, fields, chars + [c], ps[1..]);
      assert Decode(ps) == [c] + Decode(ps[1..]);
      Assoc(chars, [c], Decode(ps[1..]));
    }
  }

  lemma {:induction false} RunBare(rows: seq<Row>, fields: Row, chars: string, quoted: bool, text: string)
    requires WellFormedField(Bare(text))
    ensures Run(Scan(rows, Plain(fields, chars, quoted)), text) == Scan(rows, Plain(fields, chars + text, quoted))
    decreases |text|
  {
    if text == "" {
      assert chars + text == chars;
    } else {
      RunBare(rows, fields, chars + [text[0]], quoted, text[1..]);
      assert chars + text == chars + [text[0]] + text[1..];
    }
  }

  lemma RunField(rows: seq<Row>, fields: Row, f: Field)
    requires WellFormedField(f)
    ensures Run(Scan(rows, Plain(fields, "", false)), FieldText(f)) == Scan(rows, Plain(fields, Chars(f), f.Quoted?))
  {
    var sc := Scan(rows, Plain(fields, "", false));
    match f
    case Bare(text) =>
      RunBare(rows, fields, "", false, text);
      assert "" + text == text;
    case Quoted(ps) =>
      var prefix := "'" + PieceText(ps);
      RunAppend(sc, prefix, "'");
      RunAppend(sc, "'", PieceText(ps));
      RunPieces(rows, fields, "", ps);
      assert "" + Decode(ps) == Decode(ps);
  }

  /** Just before a row's closing parenthesis its last field is still pending. */
  function Pending(rows: seq<Row>, fs: seq<Field>): Scan
    requires fs != []
  {
    var n := |fs| - 1;
    Scan(rows, Plain(RowMeaning(fs[..n]), Chars(fs[n]), fs[n].Quoted?))
  }

  lemma RunNextField(rows: seq<Row>, fs: seq<Field>, f: Field)
    requires fs != [] && WellFormedField(f)
    ensures Run(Pending(rows, fs), "," + FieldText(f)) == Pending(rows, fs + [f])
  {
    var n := |fs| - 1;
    RunAppend(Pending(rows, fs), ",", FieldText(f));
    RunShort(Pending(rows, fs), ",");
    assert RowMeaning(fs) == RowMeaning(fs[..n]) + [Meaning(fs[n])];
    RunField(rows, RowMeaning(fs), f);
    assert (fs + [f])[..n + 1] == fs;
  }

  lemma RunFirstField(rows: seq<Row>, fs: seq<Field>)
    requires |fs| == 1 && WellFormedField(fs[0])
    ensures Run(Scan(rows, Plain([], "", false)), FieldsText(fs)) == Pending(rows, fs)
  {
    RunField(rows, [], fs[0]);
    assert RowMeaning(fs[..0]) == [];
  }

  lemma {:induction false} RunFields(rows: seq<Row>, fs: seq<Field>)
    requires fs != [] && WellFormedRow(fs)
    ensures Run(Scan(rows, Plain([], "", false)), FieldsText(fs)) == Pending(rows, fs)
    decreases |fs|
  {
    if |fs| == 1 {
      RunFirstField(rows, fs);
    } else {
      var init, last := fs[..|fs| - 1], fs[|fs| - 1];
      RunFields(rows, init);
      FieldsTextLast(fs);
      RunAppend(Scan(rows, Plain([], "", false)), FieldsText(init), "," + FieldText(last));
      RunNextField(rows, init, last);
      assert init + [last] == fs;
    }
  }

  lemma FieldsTextLast(fs: seq<Field>)
    requires |fs| > 1
    ensures FieldsText(fs) == FieldsText(fs[..|fs| - 1]) + ("," + FieldText(fs[|fs| - 1]))
  {
    Assoc(FieldsText(fs[..|fs| - 1]), ",", FieldText(fs[|fs| - 1]));
    assert Map(FieldText, fs)[..|fs| - 1] == Map(FieldText, fs[..|fs| - 1]);
  }

  lemma RunRow(rows: seq<Row>, fs: seq<Field>)
    requires fs != [] && WellFormedRow(fs)
    ensures Run(Scan(rows, Outside), RowText(fs)) == Scan(rows + [RowMeaning(fs)], Outside)
  {
    var sc := Scan(rows, Outside);
    RunAppend(sc, "(" + FieldsText(fs), ")");
    RunAppend(sc, "(", FieldsText(fs));
    RunShort(sc, "(");
    RunFields(rows, fs);
    RunShort(Pending(rows, fs), ")");
    var n := |fs| - 1;
    assert RowMeaning(fs) == RowMeaning(fs[..n]) + [Meaning(fs[n])];
  }

  lemma PayloadLast(printed: seq<seq<Field>>)
    requires |printed| > 1
    ensures Payload(printed) == Payload(printed[..|printed| - 1]) + "," + RowText(printed[|printed| - 1])
  {
    assert Map(RowText, printed)[..|printed| - 1] == Map(RowText, printed[..|printed| - 1]);
  }

  lemma {:induction false} RunPayload(printed: seq<seq<Field>>)
    requires WellFormedRows(printed)
    ensures Run(START, Payload(printed)) == Scan(RowsMeaning(printed), Outside)
    decreases |printed|
  {
    if printed != [] {
      var n := |printed| - 1;
      var init := printed[..n];
      RunRow(RowsMeaning(init), printed[n]);
      assert RowsMeaning(printed) == RowsMeaning(init) + [RowMeaning(printed[n])];
      if n > 0 {
        RunPayload(init);
        PayloadLast(printed);
        RunAppend(START, Payload(init) + ",", RowText(printed[n]));
        RunAppend(START, Payload(init), ",");
        RunShort(Scan(RowsMeaning(init), Outside), ",");
      }
    }
  }

  /**
   * Parsing returns what was printed, for every choice of escapes in quoted
   * strings and every bare token free of quote, comma and closing parenthesis.
   */
  lemma ParsePrinted(printed: seq<seq<Field>>)
    requires WellFormedRows(printed)
    ensures Parse(Payload(printed)) == RowsMeaning(printed)
    ensures EndsBetweenTuples(Payload(printed))
  {
    RunPayload(printed);
  }

  // ----- Single fields -----

  /** The word NULL, each letter in either case. */
  predicate SpellsNull(token: string) {
    |token| == 4 && forall i :: 0 <= i < 4 ==> token[i] == "NULL"[i] || token[i] == "null"[i]
  }

  /** A bare token counts without the blanks round it, and is NULL in any case of letters. */
  lemma BareFieldMeans(before: string, token: string, after: string)
    requires Blank(before) && Blank(after) && Trimmed(token) && WellFormedField(Bare(token))
    ensures Parse("(" + (before + token + after) + ")") == [[if SpellsNull(token) then Null else Text(token)]]
  {
    var text := before + token + after;
    forall c | c in text
      ensures c in token || IsSpace(c)
    {
    }
    StripMeaning(before, token, after);
    RunBare([], [], "", false, text);
    assert "" + text == text;
    OneField(text, text, false);
    SpelledNull(token);
  }

  lemma SpelledNull(token: string)
    ensures IsNullWord(token) <==> SpellsNull(token)
  {
  }

  lemma OneField(text: string, chars: string, quoted: bool)
    requires Run(Scan([], Plain([], "", false)), text) == Scan([], Plain([], chars, quoted))
    ensures Parse("(" + text + ")") == [[FieldValue(chars, quoted)]]
  {
    RunAppend(START, "(" + text, ")");
    RunAppend(START, "(", text);
    RunShort(START, "(");
    RunShort(Scan([], Plain([], chars, quoted)), ")");
    var v := FieldValue(chars, quoted);
    assert [] + [v] == [v] && [] + [[v]] == [[v]];
  }

  lemma RunString(chars: string, quoted: bool, ps: seq<Piece>)
    requires WellFormedField(Quoted(ps))
    ensures Run(Scan([], Plain([], chars, quoted)), "'" + PieceText(ps) + "'")
            == Scan([], Plain([], chars + Decode(ps), true))
  {
    var sc := Scan([], Plain([], chars, quoted));
    RunAppend(sc, "'" + PieceText(ps), "'");
    RunAppend(sc, "'", PieceText(ps));
    RunShort(sc, "'");
    RunPieces([], [], chars, ps);
    RunShort(Scan([], InString([], chars + Decode(ps))), "'");
  }

  /**
   * Text before, between and behind quoted strings of one field is kept with them,
   * blanks and all, and the quotes are dropped; so a doubled quote vanishes.
   */
  lemma MixedFieldMeans(before: string, ps: seq<Piece>, between: string, qs: seq<Piece>, after: string)
    requires WellFormedField(Bare(before)) && WellFormedField(Bare(between)) && WellFormedField(Bare(after))
    requires WellFormedField(Quoted(ps)) && WellFormedField(Quoted(qs))
    ensures Parse("(" + (before + ("'" + PieceText(ps) + "'") + between + ("'" + PieceText(qs) + "'") + after) + ")")
            == [[Text(before + Decode(ps) + between + Decode(qs) + after)]]
  {
    var a, b := "'" + PieceText(ps) + "'", "'" + PieceText(qs) + "'";
    var sc := Scan([], Plain([], "", false));
    RunAppend(sc, before + a + between + b, after);
    RunAppend(sc, before + a + between, b);
    RunAppend(sc, before + a, between);
    RunAppend(sc, before, a);
    RunBare([], [], "", false, before);
    assert "" + before == before;
    RunString(before, false, ps);
    RunBare([], [], before + Decode(ps), true, between);
    RunString(before + Decode(ps) + between, true, qs);
    RunBare([], [], before + Decode(ps) + between + Decode(qs), true, after);
    OneField(before + a + between + b + after, before + Decode(ps) + between + Decode(qs) + after, true);
  }

  /** What stands before row number `j`. */
  function PayloadBefore(printed: seq<seq<Field>>, j: nat): string
    requires j <= |printed|
  {
    if j == 0 then "" else Payload(printed[..j]) + ","
  }

  /**
   * Cutting a printed payload anywhere inside row number `j` (its closing
   * parenthesis not included) leaves exactly the first `j` rows.
   */
  lemma TruncatedPrinted(printed: seq<seq<Field>>, j: nat, partial: nat)
    requires WellFormedRows(printed) && j < |printed| && partial < |RowText(printed[j])|
    ensures PayloadBefore(printed, j) + RowText(printed[j]) <= Payload(printed)
    ensures Parse(Payload(printed)[..|PayloadBefore(printed, j)| + partial]) == RowsMeaning(printed[..j])
  {
    var before := PayloadBefore(printed, j);
    var row := RowText(printed[j]);
    BeforeIsPrefix(printed, j);
    assert Payload(printed)[..|before| + partial] == before + row[..partial];
    RunBefore(printed, j);
    RunAppend(START, before, row[..partial]);
    PartialRow(RowsMeaning(printed[..j]), printed[j], partial);
  }

  lemma BeforeIsPrefix(printed: seq<seq<Field>>, j: nat)
    requires j < |printed|
    ensures PayloadBefore(printed, j) + RowText(printed[j]) <= Payload(printed)
  {
    JoinPrefix(",", Map(RowText, printed), j);
    var some := printed[..j + 1];
    assert Map(RowText, printed)[..j + 1] == Map(RowText, some);
    if j > 0 {
      PayloadLast(some);
      assert some[..j] == printed[..j];
    }
  }

  lemma RunBefore(printed: seq<seq<Field>>, j: nat)
    requires WellFormedRows(printed) && j <= |printed|
    ensures Run(START, PayloadBefore(printed, j)) == Scan(RowsMeaning(printed[..j]), Outside)
  {
    RunPayload(printed[..j]);
    if j > 0 {
      RunAppend(START, Payload(printed[..j]), ",");
      RunShort(Scan(RowsMeaning(printed[..j]), Outside), ",");
    }
  }

  /** Without its closing parenthesis a row completes nothing, hence no prefix of it does. */
  lemma PartialRow(rows: seq<Row>, fs: seq<Field>, partial: nat)
    requires fs != [] && WellFormedRow(fs) && partial < |RowText(fs)|
    ensures Run(Scan(rows, Outside), RowText(fs)[..partial]).rows == rows
  {
    var sc := Scan(rows, Outside);
    var open := "(" + FieldsText(fs);
    var head, tail := open[..partial], open[partial..];
    assert RowText(fs)[..partial] == head && open == head + tail;
    RunAppend(sc, "(", FieldsText(fs));
    RunShort(sc, "(");
    RunFields(rows, fs);
    RunAppend(sc, head, tail);
    RunIgnoresEarlierRows(sc, head);
    RunIgnoresEarlierRows(Run(sc, head), tail);
  }

  /** Rows with arbitrary text between them: separators, line breaks, the final semicolon. */
  function SpacedText(rows: seq<seq<Field>>, gaps: seq<string>): string
    requires |gaps| == |rows| + 1
  {
    var n := |rows|;
    if n == 0 then gaps[0]
    else SpacedText(rows[..n - 1], gaps[..n]) + (RowText(rows[n - 1]) + gaps[n])
  }

  predicate WellFormedGaps(gaps: seq<string>) {
    forall i :: 0 <= i < |gaps| ==> '(' !in gaps[i]
  }

  lemma {:induction false} RunGap(rows: seq<Row>, gap: string)
    requires '(' !in gap
    ensures Run(Scan(rows, Outside), gap) == Scan(rows, Outside)
    decreases |gap|
  {
    if gap != "" {
      RunGap(rows, gap[1..]);
    }
  }

  lemma RunRowAndGap(rows: seq<Row>, fs: seq<Field>, gap: string)
    requires fs != [] && WellFormedRow(fs) && '(' !in gap
    ensures Run(Scan(rows, Outside), RowText(fs) + gap) == Scan(rows + [RowMeaning(fs)], Outside)
  {
    RunRow(rows, fs);
    RunAppend(Scan(rows, Outside), RowText(fs), gap);
    RunGap(rows + [RowMeaning(fs)], gap);
  }

  /** Whatever stands between tuples, short of an opening parenthesis, is ignored. */
  lemma {:induction false} ParseSpaced(printed: seq<seq<Field>>, gaps: seq<string>)
    requires WellFormedRows(printed) && |gaps| == |printed| + 1 && WellFormedGaps(gaps)
    ensures Run(START, SpacedText(printed, gaps)) == Scan(RowsMeaning(printed), Outside)
    decreases |printed|
  {
    var n := |printed|;
    if n == 0 {
      RunGap([], gaps[0]);
    } else {
      var init := printed[..n - 1];
      ParseSpaced(init, gaps[..n]);
      RunAppend(START, SpacedText(init, gaps[..n]), RowText(printed[n - 1]) + gaps[n]);
      RunRowAndGap(RowsMeaning(init), printed[n - 1], gaps[n]);
      assert RowsMeaning(printed) == RowsMeaning(init) + [RowMeaning(printed[n - 1])];
    }
  }

  /** How many of the rows are closed within the first `c` characters. */
  function RowsWithin(rows: seq<seq<Field>>, gaps: seq<string>, c: nat): (k: nat)
    requires |gaps| == |rows| + 1
    ensures k <= |rows|
  {
    var n := |rows|;
    if n == 0 then 0
    else if |SpacedText(rows[..n - 1], gaps[..n])| + |RowText(rows[n - 1])| <= c then n
    else RowsWithin(rows[..n - 1], gaps[..n], c)
  }

  /** Rows all of whose text lies within the first `c` characters are closed there. */
  lemma RowsWithinAll(rows: seq<seq<Field>>, gaps: seq<string>, c: nat)
    requires |gaps| == |rows| + 1 && |SpacedText(rows, gaps)| <= c
    ensures RowsWithin(rows, gaps, c) == |rows|
  {
  }

  lemma CutBehind(front: string, row: string, gap: string, c: nat)
    requires |front| + |row| <= c <= |front| + |row| + |gap|
    ensures (front + (row + gap))[..c] == front + (row + gap[..c - |front| - |row|])
  {
  }

  lemma CutInside(front: string, row: string, gap: string, c: nat)
    requires |front| <= c <= |front| + |row|
    ensures (front + (row + gap))[..c] == front + row[..c - |front|]
  {
  }

  lemma CutInGap(printed: seq<seq<Field>>, gaps: seq<string>, c: nat)
    requires WellFormedRows(printed) && printed != [] && |gaps| == |printed| + 1 && WellFormedGaps(gaps)
    requires var n := |printed|;
             |SpacedText(printed[..n - 1], gaps[..n])| + |RowText(printed[n - 1])| <= c <= |SpacedText(printed, gaps)|
    ensures Parse(SpacedText(printed, gaps)[..c]) == RowsMeaning(printed)
  {
    var n := |printed|;
    var front, row := SpacedText(printed[..n - 1], gaps[..n]), RowText(printed[n - 1]);
    var gap := gaps[n][..c - |front| - |row|];
    CutBehind(front, row, gaps[n], c);
    ParseSpaced(printed[..n - 1], gaps[..n]);
    RunAppend(START, front, row + gap);
    RunRowAndGap(RowsMeaning(printed[..n - 1]), printed[n - 1], gap);
    RowsMeaningLast(printed);
  }

  lemma RowsMeaningLast(printed: seq<seq<Field>>)
    requires printed != []
    ensures RowsMeaning(printed) == RowsMeaning(printed[..|printed| - 1]) + [RowMeaning(printed[|printed| - 1])]
  {
  }

  lemma CutInRow(printed: seq<seq<Field>>, gaps: seq<string>, c: nat)
    requires WellFormedRows(printed) && printed != [] && |gaps| == |printed| + 1 && WellFormedGaps(gaps)
    requires var n := |printed|;
             var front := |SpacedText(printed[..n - 1], gaps[..n])|;
             front <= c < front + |RowText(printed[n - 1])|
    ensures c <= |SpacedText(printed, gaps)|
    ensures Parse(SpacedText(printed, gaps)[..c]) == RowsMeaning(printed[..|printed| - 1])
  {
    var n := |printed|;
    var front, row := SpacedText(printed[..n - 1], gaps[..n]), RowText(printed[n - 1]);
    CutInside(front, row, gaps[n], c);
    ParseSpaced(printed[..n - 1], gaps[..n]);
    RunAppend(START, front, row[..c - |front|]);
    PartialRow(RowsMeaning(printed[..n - 1]), printed[n - 1], c - |front|);
  }

  /** Cut anywhere, a spaced payload yields exactly the rows closed before the cut. */
  lemma {:induction false} TruncatedSpaced(printed: seq<seq<Field>>, gaps: seq<string>, c: nat)
    requires WellFormedRows(printed) && |gaps| == |printed| + 1 && WellFormedGaps(gaps)
    requires c <= |SpacedText(printed, gaps)|
    ensures Parse(SpacedText(printed, gaps)[..c]) == RowsMeaning(printed[..RowsWithin(printed, gaps, c)])
    decreases |printed|
  {
    var n := |printed|;
    if n == 0 {
      RunGap([], gaps[0][..c]);
    } else {
      var init, front := printed[..n - 1], SpacedText(printed[..n - 1], gaps[..n]);
      if |front| + |RowText(printed[n - 1])| <= c {
        CutInGap(printed, gaps, c);
        assert printed[..n] == printed;
      } else if |front| <= c {
        CutInRow(printed, gaps, c);
        RowsWithinAll(init, gaps[..n], c);
      } else {
        TruncatedSpaced(init, gaps[..n], c);
        assert SpacedText(printed, gaps)[..c] == front[..c];
        assert printed[..RowsWithin(printed, gaps, c)] == init[..RowsWithin(init, gaps[..n], c)];
      }
    }
  }

  // ----- The canonical printer -----

  function QuotePieces(s: string): seq<Piece> {
    Map((c: char) => if c in "'\\" then Escaped(c) else Raw(c), s)
  }

  function ValueField(v: Value): Field {
    if v.Null? then Bare("NULL") else Quoted(QuotePieces(v.text))
  }

  function RowFields(row: Row): seq<Field> {
    Map(ValueField, row)
  }

  function PrintRows(rows: seq<Row>): string {
    Payload(Map(RowFields, rows))
  }

  lemma ValueFieldMeans(v: Value)
    ensures WellFormedField(ValueField(v)) && Meaning(ValueField(v)) == v
  {
    if v.Null? {
      assert Strip("NULL") == "NULL";
    } else {
      assert Decode(QuotePieces(v.text)) == v.text;
    }
  }

  /** What the text of a printed row stands for: `()` holds one empty token. */
  function TokenFields(row: Row): seq<Field> {
    if row == [] then [Bare("")] else RowFields(row)
  }

  lemma TokenFieldsMean(row: Row)
    ensures TokenFields(row) != [] && WellFormedRow(TokenFields(row))
    ensures RowMeaning(TokenFields(row)) == if row == [] then [Text("")] else row
  {
    forall i | 0 <= i < |row|
      ensures WellFormedField(ValueField(row[i])) && Meaning(ValueField(row[i])) == row[i]
    {
      ValueFieldMeans(row[i]);
    }
    assert Strip("") == "";
  }

  lemma PrintRowsIsTokenPayload(rows: seq<Row>)
    ensures PrintRows(rows) == Payload(Map(TokenFields, rows))
  {
    forall i | 0 <= i < |rows|
      ensures RowText(RowFields(rows[i])) == RowText(TokenFields(rows[i]))
    {
      if rows[i] == [] {
        assert Map(FieldText, [Bare("")]) == [""];
      }
    }
    assert Map(RowText, Map(RowFields, rows)) == Map(RowText, Map(TokenFields, rows));
  }

  /**
   * Printing NULLs and quoted strings, then parsing, gives back exactly the rows
   * (any characters at all) -- if and only if no row is empty.
   */
  lemma RoundTrip(rows: seq<Row>)
    ensures Parse(PrintRows(rows)) == rows <==> forall row <- rows :: row != []
  {
    var printed := Map(TokenFields, rows);
    PrintRowsIsTokenPayload(rows);
    forall i | 0 <= i < |rows|
      ensures printed[i] != [] && WellFormedRow(printed[i])
      ensures RowMeaning(printed[i]) == if rows[i] == [] then [Text("")] else rows[i]
    {
      TokenFieldsMean(rows[i]);
    }
    ParsePrinted(printed);
    var parsed := RowsMeaning(printed);
    if parsed == rows {
      forall i | 0 <= i < |rows|
        ensures rows[i] != []
      {
        assert parsed[i] == rows[i];
      }
    } else {
      var i :| 0 <= i < |rows| && parsed[i] != rows[i];
      assert rows[i] in rows;
    }
  }

  // ----- The server's own escapes -----

  /** Characters that `mysqldump` writes as a backslash and a letter or digit. */
  predicate EscapedByName(c: char) {
    c in ['\0', '\n', '\r', '\U{1A}']
  }

  function ServerPiece(c: char): Piece {
    if c == '\0' then Escaped('0') else if c == '\n' then Escaped('n')
    else if c == '\r' then Escaped('r') else if c == '\U{1A}' then Escaped('Z')
    else if c in "'\"\\" then Escaped(c) else Raw(c)
  }

  function ServerPieces(s: string): seq<Piece> {
    Map(ServerPiece, s)
  }

  lemma ServerPieceDecodes(c: char)
    ensures ServerPiece(c).c == c <==> !EscapedByName(c)
    ensures ServerPiece(c).Raw? ==> ServerPiece(c).c !in "'\\"
  {
  }

  /**
   * A string dumped with the server's escapes is loaded unchanged exactly when it
   * has no NUL, line feed, carriage return or Control-Z: the parser only drops
   * the backslash, so `\n` comes back as the letter n.
   */
  lemma ServerStringSurvives(s: string)
    ensures Parse(RowText([Quoted(ServerPieces(s))])) == [[Text(s)]] <==> forall c <- s :: !EscapedByName(c)
  {
    var ps := ServerPieces(s);
    forall i | 0 <= i < |s|
      ensures ps[i].c == s[i] <==> !EscapedByName(s[i])
      ensures ps[i].Raw? ==> ps[i].c !in "'\\"
    {
      ServerPieceDecodes(s[i]);
    }
    RunRow([], [Quoted(ps)]);
    assert RowMeaning([Quoted(ps)]) == [Text(Decode(ps))];
    if Decode(ps) == s {
      forall i | 0 <= i < |s|
        ensures !EscapedByName(s[i])
      {
        assert Decode(ps)[i] == s[i];
      }
    } else {
      var i :| 0 <= i < |s| && Decode(ps)[i] != s[i];
      assert s[i] in s && Parse(RowText([Quoted(ps)]))[0][0].text[i] != s[i];
      assert [[Text(s)]][0][0].text == s;
    }
  }
}
