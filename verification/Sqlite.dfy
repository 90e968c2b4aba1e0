/** The part of SQLite the dump loader relies on: tables with an integer primary key. */
module Sqlite {
  import opened Common

  datatype Cell = NullCell | IntCell(n: int) | TextCell(s: string)

  /** A tuple handed to `executemany`; its first cell is the primary key. */
  type Record = seq<Cell>

  /** A table with an INTEGER PRIMARY KEY; `last` is the largest key in use. */
  datatype Table = Table(rows: map<int, Record>, last: Option<int>)

  const EMPTY_TABLE := Table(map[], None)

  ghost predicate ValidTable(t: Table) {
    match t.last
    case None => t.rows == map[]
    case Some(top) => top in t.rows && forall k :: k in t.rows ==> k <= top
  }

  /** A NULL key is replaced by one more than the largest key in use. */
  function KeyFor(t: Table, r: Record): int {
    if r != [] && r[0].IntCell? then r[0].n
    else if t.last.Some? then t.last.value + 1
    else 1
  }

  /** INSERT OR REPLACE of one tuple. */
  function Insert(t: Table, r: Record): Table {
    var key := KeyFor(t, r);
    var rest := if r == [] then [] else r[1..];
    Table(t.rows[key := rest], Some(if t.last.Some? && t.last.value > key then t.last.value else key))
  }

  function InsertAll(t: Table, rs: seq<Record>): Table
    decreases |rs|
  {
    if rs == [] then t else InsertAll(Insert(t, rs[0]), rs[1..])
  }

  class Database {
    var tables: map<string, Table>

    constructor (names: set<string>)
      ensures tables == map name | name in names :: EMPTY_TABLE
    {
      tables := map name | name in names :: EMPTY_TABLE;
    }

    method ExecuteMany(table: string, batch: seq<Record>)
      requires table in tables
      modifies this
      ensures tables == old(tables)[table := InsertAll(old(tables[table]), batch)]
    {
      var i := 0;
      while i < |batch|
        invariant 0 <= i <= |batch| && table in tables
        invariant tables == old(tables)[table := tables[table]]
        invariant InsertAll(tables[table], batch[i..]) == InsertAll(old(tables[table]), batch)
      {
        assert batch[i..][1..] == batch[i + 1..];
        tables := tables[table := Insert(tables[table], batch[i])];
        i := i + 1;
      }
      assert batch[i..] == [];
    }
  }

  lemma {:induction false} InsertAllAppend(t: Table, a: seq<Record>, b: seq<Record>)
    ensures InsertAll(t, a + b) == InsertAll(InsertAll(t, a), b)
    decreases |a|
  {
    if a == [] {
      assert a + b == b;
    } else {
      InsertAllAppend(Insert(t, a[0]), a[1..], b);
      assert (a + b)[1..] == a[1..] + b;
    }
  }

  /** The invariant behind automatic keys: a NULL key never overwrites a row. */
  lemma {:induction false} AutomaticKeysAreFresh(t: Table, rs: seq<Record>, r: Record)
    requires ValidTable(t)
    ensures ValidTable(InsertAll(t, rs))
    ensures r != [] && !r[0].IntCell? ==> KeyFor(InsertAll(t, rs), r) !in InsertAll(t, rs).rows
    decreases |rs|
  {
    if rs != [] {
      var key := KeyFor(t, rs[0]);
      var t' := Insert(t, rs[0]);
      assert key in t'.rows;
      AutomaticKeysAreFresh(t', rs[1..], r);
    }
  }

  /** Record `j` is the last one carrying key `k`. */
  ghost predicate LastFor(rs: seq<Record>, k: int, j: int) {
    && 0 <= j < |rs| && rs[j] != [] && rs[j][0] == IntCell(k)
    && forall i :: j < i < |rs| ==> rs[i] != [] && rs[i][0] != IntCell(k)
  }

  ghost predicate Keyed(rs: seq<Record>) {
    forall i :: 0 <= i < |rs| ==> rs[i] != [] && rs[i][0].IntCell?
  }

  ghost predicate Mentions(rs: seq<Record>, k: int) {
    exists i :: 0 <= i < |rs| && rs[i] != [] && rs[i][0] == IntCell(k)
  }

  lemma MentionsMore(rs: seq<Record>, last: Record, k: int)
    ensures Mentions(rs + [last], k) <==> Mentions(rs, k) || (last != [] && last[0] == IntCell(k))
  {
    var all := rs + [last];
    if Mentions(rs, k) {
      var i :| 0 <= i < |rs| && rs[i] != [] && rs[i][0] == IntCell(k);
      assert all[i] == rs[i];
    }
    assert all[|rs|] == last;
  }

  lemma LastForMore(rs: seq<Record>, last: Record, k: int, j: int)
    requires last != [] && LastFor(rs + [last], k, j)
    ensures if last[0] == IntCell(k) then j == |rs| else LastFor(rs, k, j)
  {
    var all := rs + [last];
    assert all[|rs|] == last;
    assert forall i :: 0 <= i < |rs| ==> all[i] == rs[i];
  }

  lemma InsertLast(t: Table, rs: seq<Record>, last: Record)
    ensures InsertAll(t, rs + [last]) == Insert(InsertAll(t, rs), last)
  {
    InsertAllAppend(t, rs, [last]);
    assert [last][1..] == [] && InsertAll(Insert(InsertAll(t, rs), last), []) == Insert(InsertAll(t, rs), last);
  }

  /** The last write per key wins; keys never written keep what the table had. */
  lemma {:induction false} LastWriteWins(t: Table, rs: seq<Record>, k: int)
    requires Keyed(rs)
    ensures k in InsertAll(t, rs).rows <==> k in t.rows || Mentions(rs, k)
    ensures forall j :: LastFor(rs, k, j) ==> k in InsertAll(t, rs).rows && InsertAll(t, rs).rows[k] == rs[j][1..]
    ensures !Mentions(rs, k) && k in t.rows ==> InsertAll(t, rs).rows[k] == t.rows[k]
    decreases |rs|
  {
    if rs != [] {
      var init, last := rs[..|rs| - 1], rs[|rs| - 1];
      assert rs == init + [last];
      LastWriteWins(t, init, k);
      InsertLast(t, init, last);
      MentionsMore(init, last, k);
      forall j | LastFor(rs, k, j)
        ensures k in InsertAll(t, rs).rows && InsertAll(t, rs).rows[k] == rs[j][1..]
      {
        LastForMore(init, last, k, j);
      }
    }
  }

  /** An automatic key is one more than the largest in use, and 1 in an empty table. */
  lemma AutomaticKeyMeaning(t: Table, r: Record)
    requires ValidTable(t) && r != [] && !r[0].IntCell?
    ensures if t.rows == map[] then KeyFor(t, r) == 1
            else KeyFor(t, r) - 1 in t.rows && forall k :: k in t.rows ==> k < KeyFor(t, r)
  {
  }

  /** Tuple `j` is the last that names key `k`; later ones may leave their key to the table. */
  ghost predicate LastNaming(rs: seq<Record>, k: int, j: int) {
    && 0 <= j < |rs| && rs[j] != [] && rs[j][0] == IntCell(k)
    && forall i :: j < i < |rs| && rs[i] != [] ==> rs[i][0] != IntCell(k)
  }

  lemma InsertKeepsOther(t: Table, r: Record, k: int)
    requires ValidTable(t) && k in t.rows && (r != [] ==> r[0] != IntCell(k))
    ensures k in Insert(t, r).rows && Insert(t, r).rows[k] == t.rows[k]
  {
  }

  /** The last tuple that names a key is the one stored under it, whatever keys the table hands out. */
  lemma {:induction false} LastNamingWins(t: Table, rs: seq<Record>, k: int, j: int)
    requires ValidTable(t) && LastNaming(rs, k, j)
    ensures k in InsertAll(t, rs).rows && InsertAll(t, rs).rows[k] == rs[j][1..]
    decreases |rs|
  {
    var init, last := rs[..|rs| - 1], rs[|rs| - 1];
    assert rs == init + [last];
    InsertLast(t, init, last);
    if j < |init| {
      LastNamingWins(t, init, k, j);
      AutomaticKeysAreFresh(t, init, last);
      InsertKeepsOther(InsertAll(t, init), last, k);
    }
  }
}
