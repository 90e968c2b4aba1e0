/**
 * Laws of the dump loader: column order does not matter, each table is the log of
 * its tuples, and where a statement spread over lines is taken to end.
 */
module DumpLaws {
  import opened Common
  import opened PyText
  import opened ValueTuples
  import opened Sqlite
  import opened DumpStatements
  import opened DumpLoader

  // ----- Column order -----

  lemma {:induction false} PositionsMeaning(columns: seq<string>, wanted: seq<string>)
    ensures var r := Positions(columns, wanted);
            && (r.Some? ==> forall i :: 0 <= i < |wanted| ==> IndexOf(columns, wanted[i]) == Some(r.value[i]))
            && (r.None? <==> exists i :: 0 <= i < |wanted| && wanted[i] !in columns)
  {
    if wanted != [] {
      PositionsMeaning(columns, wanted[1..]);
      var r, rest := Positions(columns, wanted), Positions(columns, wanted[1..]);
      if r.Some? {
        forall i | 0 <= i < |wanted|
          ensures IndexOf(columns, wanted[i]) == Some(r.value[i])
        {
          if i > 0 {
            assert wanted[i] == wanted[1..][i - 1];
          }
        }
      } else if rest.None? {
        var i :| 0 <= i < |wanted[1..]| && wanted[1..][i] !in columns;
        assert wanted[i + 1] !in columns;
      } else {
        assert wanted[0] !in columns;
      }
    }
  }

  ghost predicate IsPermutation(perm: seq<nat>, n: nat) {
    && |perm| == n
    && (forall k :: 0 <= k < n ==> perm[k] < n)
    && (forall i: nat :: i < n ==> i in perm)
  }

  function Permute<T>(s: seq<T>, perm: seq<nat>): (r: seq<T>)
    requires forall k :: 0 <= k < |perm| ==> perm[k] < |s|
    ensures |r| == |perm| && forall k :: 0 <= k < |perm| ==> r[k] == s[perm[k]]
  {
    seq(|perm|, k requires 0 <= k < |perm| => s[perm[k]])
  }

  /** The permuted position of a column holds the same value. */
  lemma PermutedIndex(columns: seq<string>, perm: seq<nat>, column: string)
    requires Distinct(columns) && IsPermutation(perm, |columns|)
    ensures match IndexOf(columns, column)
            case Some(i) =>
              var k := IndexOf(Permute(columns, perm), column);
              k.Some? && perm[k.value] == i
            case None => IndexOf(Permute(columns, perm), column).None?
  {
    var moved := Permute(columns, perm);
    if column in columns {
      var i := IndexOf(columns, column).value;
      assert i in perm;
      var k :| 0 <= k < |perm| && perm[k] == i;
      assert moved[k] == column;
      var j := IndexOf(moved, column).value;
      assert columns[perm[j]] == columns[i];
    } else {
      forall k | 0 <= k < |moved|
        ensures moved[k] != column
      {
        assert columns[perm[k]] in columns;
      }
    }
  }

  lemma PermutedRow(columns: seq<string>, perm: seq<nat>, wanted: seq<string>, row: Row)
    requires Distinct(columns) && IsPermutation(perm, |columns|) && |row| == |columns| && wanted != []
    requires Positions(columns, wanted).Some? && Positions(Permute(columns, perm), wanted).Some?
    ensures Records(wanted, Positions(columns, wanted).value, [row])
            == Records(wanted, Positions(Permute(columns, perm), wanted).value, [Permute(row, perm)])
  {
    var moved := Permute(columns, perm);
    var ps, qs := Positions(columns, wanted).value, Positions(moved, wanted).value;
    PositionsMeaning(columns, wanted);
    PositionsMeaning(moved, wanted);
    forall i | 0 <= i < |wanted|
      ensures ps[i] < |row| && qs[i] < |row| && perm[qs[i]] == ps[i]
    {
      PermutedIndex(columns, perm, wanted[i]);
    }
    assert MaxOf(ps) < |row| && MaxOf(qs) < |row|;
    assert PickRow(wanted, ps, row) == PickRow(wanted, qs, Permute(row, perm));
    assert [row][1..] == [] && [Permute(row, perm)][1..] == [];
  }

  function PermuteRows(rows: seq<Row>, perm: seq<nat>): (r: seq<Row>)
    requires forall i, k :: 0 <= i < |rows| && 0 <= k < |perm| ==> perm[k] < |rows[i]|
    ensures |r| == |rows| && forall i :: 0 <= i < |rows| ==> r[i] == Permute(rows[i], perm)
  {
    seq(|rows|, i requires 0 <= i < |rows| => Permute(rows[i], perm))
  }

  lemma {:induction false} PermutedRecords(columns: seq<string>, perm: seq<nat>, wanted: seq<string>, rows: seq<Row>)
    requires Distinct(columns) && IsPermutation(perm, |columns|) && wanted != []
    requires forall i :: 0 <= i < |rows| ==> |rows[i]| == |columns|
    requires Positions(columns, wanted).Some? && Positions(Permute(columns, perm), wanted).Some?
    ensures Records(wanted, Positions(columns, wanted).value, rows)
            == Records(wanted, Positions(Permute(columns, perm), wanted).value, PermuteRows(rows, perm))
  {
    if rows != [] {
      var n := |rows| - 1;
      var moved := PermuteRows(rows, perm);
      var ps, qs := Positions(columns, wanted).value, Positions(Permute(columns, perm), wanted).value;
      PermutedRecords(columns, perm, wanted, rows[..n]);
      PermutedRow(columns, perm, wanted, rows[n]);
      assert PermuteRows(rows[..n], perm) == moved[..n];
      RecordsAppend(wanted, ps, rows[..n], [rows[n]]);
      RecordsAppend(wanted, qs, moved[..n], [moved[n]]);
      assert rows == rows[..n] + [rows[n]] && moved == moved[..n] + [moved[n]];
    }
  }

  /**
   * Listing distinct columns in another order, with every full-width row's values
   * moved along, changes neither the stored tuples nor the error.
   */
  lemma ColumnOrderIrrelevant(table: string, columns: seq<string>, perm: seq<nat>, wanted: seq<string>, rows: seq<Row>)
    requires Distinct(columns) && IsPermutation(perm, |columns|) && wanted != []
    requires forall i :: 0 <= i < |rows| ==> |rows[i]| == |columns|
    ensures ContributionOf(table, wanted, columns, rows)
            == ContributionOf(table, wanted, Permute(columns, perm), PermuteRows(rows, perm))
  {
    var moved := Permute(columns, perm);
    PositionsMeaning(columns, wanted);
    PositionsMeaning(moved, wanted);
    forall i | 0 <= i < |wanted|
      ensures wanted[i] in columns <==> wanted[i] in moved
    {
      PermutedIndex(columns, perm, wanted[i]);
    }
    if Positions(columns, wanted).Some? {
      PermutedRecords(columns, perm, wanted, rows);
    }
  }

  // ----- Statement boundaries -----

  /** The tuples one item holds for a table. */
  function RecordsOf(schema: map<string, seq<string>>, item: Item, table: string): seq<Record>
    requires IsTarget(item.table)
  {
    if item.RowsOf? && item.table == table then
      match StatementContribution(schema, table, item.statement)
      case Some(Tuples(rs)) => rs
      case _ => []
    else []
  }

  function SchemaAfter(schema: map<string, seq<string>>, item: Item): map<string, seq<string>> {
    if item.TableDef? then schema[item.table := item.columns] else schema
  }

  /** Every tuple the items hold for one table, in file order. */
  function RecordsFor(items: seq<Item>, schema: map<string, seq<string>>, table: string): seq<Record>
    requires OnTargets(items)
  {
    if items == [] then []
    else RecordsOf(schema, items[0], table) + RecordsFor(items[1..], SchemaAfter(schema, items[0]), table)
  }

  lemma ItemAppendsRecords(st: LoadState, item: Item, table: string)
    requires IsTarget(item.table) && st.error == None && ApplyItem(st, item).error == None
    ensures TableOf(ApplyItem(st, item), table) == InsertAll(TableOf(st, table), RecordsOf(st.schema, item, table))
    ensures CountOf(ApplyItem(st, item), table) == CountOf(st, table) + |RecordsOf(st.schema, item, table)|
    ensures ApplyItem(st, item).schema == SchemaAfter(st.schema, item)
  {
    if item.RowsOf? {
      var c := StatementContribution(st.schema, item.table, item.statement);
      if c.Some? {
        StoreAppends(st, item.table, c.value, table);
      }
    }
  }

  lemma StoreAppends(st: LoadState, t: string, c: Contribution, table: string)
    requires st.error == None && Store(st, t, c).error == None
    ensures c.Tuples?
    ensures var rs := if t == table then c.records else [];
            && TableOf(Store(st, t, c), table) == InsertAll(TableOf(st, table), rs)
            && CountOf(Store(st, t, c), table) == CountOf(st, table) + |rs|
  {
  }

  /**
   * Without an error, each table is what its tuples give when written one after
   * another in file order, and its count is their number.
   */
  lemma {:induction false} TablesAreLogs(st: LoadState, items: seq<Item>, table: string)
    requires OnTargets(items) && st.error == None && ApplyAll(st, items).error == None
    ensures TableOf(ApplyAll(st, items), table) == InsertAll(TableOf(st, table), RecordsFor(items, st.schema, table))
    ensures CountOf(ApplyAll(st, items), table) == CountOf(st, table) + |RecordsFor(items, st.schema, table)|
    decreases |items|
  {
    if items != [] {
      var st' := ApplyItem(st, items[0]);
      ErrorsStick(st', items[1..]);
      ItemAppendsRecords(st, items[0], table);
      TablesAreLogs(st', items[1..], table);
      InsertAllAppend(TableOf(st, table), RecordsOf(st.schema, items[0], table),
                      RecordsFor(items[1..], st'.schema, table));
    }
  }

  lemma ErrorsStick(st: LoadState, items: seq<Item>)
    requires OnTargets(items) && ApplyAll(st, items).error == None
    ensures st.error == None
  {
  }

  /** Over a whole file: last write per key wins, and nothing else is in the table. */
  lemma LoadedTable(lines: seq<string>, table: string, k: int)
    requires IsTarget(table) && Load(lines).error == None
    ensures OnTargets(Items(lines))
    ensures var log := RecordsFor(Items(lines), map[], table);
            && CountOf(Load(lines), table) == |log|
            && (Keyed(log) ==>
                  var rows := TableOf(Load(lines), table).rows;
                  && (k in rows <==> Mentions(log, k))
                  && forall j :: LastFor(log, k, j) ==> k in rows && rows[k] == log[j][1..])
  {
    ItemsOnTargets(lines);
    TargetsAreListed(table);
    TablesAreLogs(InitialState(), Items(lines), table);
    var log := RecordsFor(Items(lines), map[], table);
    if Keyed(log) {
      LastWriteWins(EMPTY_TABLE, log, k);
    }
  }

  // ----- Where a statement ends -----

  /**
   * A statement spread over lines, the last of which ends it, is read back whole
   * exactly when none of its earlier lines happens to end with a semicolon.
   */
  lemma {:induction false} StatementReadWhole(layout: seq<string>, more: seq<string>)
    requires layout != [] && EndsStatement(layout[|layout| - 1])
    ensures StatementLength(layout + more) == |layout|
            <==> forall k :: 0 <= k < |layout| - 1 ==> !EndsStatement(layout[k])
    ensures StatementLength(layout + more) <= |layout|
  {
    var all := layout + more;
    if |layout| > 1 && !EndsStatement(layout[0]) {
      StatementReadWhole(layout[1..], more);
      assert all[1..] == layout[1..] + more;
      if StatementLength(all) == |layout| {
        forall k | 0 <= k < |layout| - 1
          ensures !EndsStatement(layout[k])
        {
          if k > 0 {
            assert layout[k] == layout[1..][k - 1];
          }
        }
      }
    }
  }
}
