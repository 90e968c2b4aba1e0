/**
 * Column order over whole dumps: two files that list the columns of their tables in
 * different orders, the values moved along, load the same tables.
 */
module DumpOrder {
  import opened Common
  import opened ValueTuples
  import opened DumpStatements
  import opened DumpLoader
  import opened DumpLaws
  import opened DumpText
  import opened DumpRoundTrip

  /** The columns an INSERT goes by: its own list, else the last CREATE TABLE's. */
  function NamesOf(schema: map<string, seq<string>>, s: Statement): seq<string>
    requires s.Insert?
  {
    if s.columns != [] then s.columns else if s.table in schema then schema[s.table] else []
  }

  /**
   * Two statements of the same kind and table; the columns and full-width rows of an
   * INSERT may be permuted, and so may a CREATE TABLE.
   */
  ghost predicate Reordered(schema: map<string, seq<string>>, schema': map<string, seq<string>>,
                            s: Statement, s': Statement, perm: seq<nat>)
  {
    match s
    case Create(table, _, _, _) => s'.Create? && s'.table == table
    case Insert(table, _, rows, _, _) =>
      && s'.Insert? && s'.table == table
      && var names := NamesOf(schema, s);
         && Distinct(names) && IsPermutation(perm, |names|)
         && NamesOf(schema', s') == Permute(names, perm)
         && (forall i :: 0 <= i < |rows| ==> |rows[i]| == |names|)
         && RowsMeaning(s'.rows) == PermuteRows(RowsMeaning(rows), perm)
    case _ => s'.InsertElsewhere? || s'.OtherLine?
  }

  ghost predicate SameUpToOrder(schema: map<string, seq<string>>, schema': map<string, seq<string>>,
                                dump: seq<Statement>, dump': seq<Statement>, perms: seq<seq<nat>>)
    decreases |dump|
  {
    && |dump| == |dump'| == |perms|
    && (dump != [] ==>
          && Reordered(schema, schema', dump[0], dump'[0], perms[0])
          && SameUpToOrder(SchemaOf(schema, dump[0]), SchemaOf(schema', dump'[0]), dump[1..], dump'[1..], perms[1..]))
  }

  /** The same tables, counts and error. */
  predicate Agree(st: LoadState, st': LoadState) {
    st.tables == st'.tables && st.counts == st'.counts && st.error == st'.error
  }

  lemma InsertEffect(st: LoadState, s: Statement)
    requires WellFormed(s) && s.Insert?
    ensures TargetColumns(s.table) != []
    ensures Effect(st, s) == Store(st, s.table, ContributionOf(s.table, TargetColumns(s.table), NamesOf(st.schema, s),
                                                               RowsMeaning(s.rows)))
  {
  }

  lemma ContributionsAgree(schema: map<string, seq<string>>, schema': map<string, seq<string>>,
                           s: Statement, s': Statement, perm: seq<nat>, wanted: seq<string>)
    requires s.Insert? && Reordered(schema, schema', s, s', perm) && wanted != []
    ensures s'.Insert? && s'.table == s.table
    ensures ContributionOf(s.table, wanted, NamesOf(schema, s), RowsMeaning(s.rows))
            == ContributionOf(s.table, wanted, NamesOf(schema', s'), RowsMeaning(s'.rows))
  {
    ColumnOrderIrrelevant(s.table, NamesOf(schema, s), perm, wanted, RowsMeaning(s.rows));
  }

  lemma StoresAgree(st: LoadState, st': LoadState, table: string, c: Contribution)
    requires Agree(st, st')
    ensures Agree(Store(st, table, c), Store(st', table, c))
    ensures Store(st, table, c).schema == st.schema
  {
  }

  lemma InsertReordered(st: LoadState, st': LoadState, s: Statement, s': Statement, perm: seq<nat>)
    requires WellFormed(s) && WellFormed(s')
    requires Agree(st, st') && Reordered(st.schema, st'.schema, s, s', perm)
    ensures s.Insert? ==> Agree(Effect(st, s), Effect(st', s'))
    ensures s.Insert? ==> Effect(st, s).schema == st.schema && Effect(st', s').schema == st'.schema
  {
    if s.Insert? {
      InsertEffect(st, s);
      ContributionsAgree(st.schema, st'.schema, s, s', perm, TargetColumns(s.table));
      InsertEffect(st', s');
      var c := ContributionOf(s.table, TargetColumns(s.table), NamesOf(st.schema, s), RowsMeaning(s.rows));
      StoresAgree(st, st', s.table, c);
      StoresAgree(st', st, s.table, c);
    }
  }

  lemma EffectReordered(st: LoadState, st': LoadState, s: Statement, s': Statement, perm: seq<nat>)
    requires WellFormed(s) && WellFormed(s') && Agree(st, st') && Reordered(st.schema, st'.schema, s, s', perm)
    ensures Agree(Effect(st, s), Effect(st', s'))
    ensures Effect(st, s).schema == SchemaOf(st.schema, s) && Effect(st', s').schema == SchemaOf(st'.schema, s')
  {
    if s.Insert? {
      InsertReordered(st, st', s, s', perm);
    }
  }

  lemma {:induction false} EffectsReordered(st: LoadState, st': LoadState, dump: seq<Statement>, dump': seq<Statement>,
                                            perms: seq<seq<nat>>)
    requires AllWellFormed(dump) && AllWellFormed(dump') && Agree(st, st')
    requires SameUpToOrder(st.schema, st'.schema, dump, dump', perms)
    ensures Agree(Effects(st, dump), Effects(st', dump'))
    decreases |dump|
  {
    if dump != [] && st.error == None {
      EffectReordered(st, st', dump[0], dump'[0], perms[0]);
      EffectsReordered(Effect(st, dump[0]), Effect(st', dump'[0]), dump[1..], dump'[1..], perms[1..]);
    }
  }

  /**
   * Loading two well-formed dumps that differ in the order of columns only -- in the
   * CREATE TABLEs, in the INSERTs, or in both -- gives the same tables, counts and
   * error.
   */
  lemma LoadIgnoresColumnOrder(dump: seq<Statement>, dump': seq<Statement>, perms: seq<seq<nat>>)
    requires AllWellFormed(dump) && AllWellFormed(dump') && SameUpToOrder(map[], map[], dump, dump', perms)
    ensures Agree(Load(FileOf(dump)), Load(FileOf(dump')))
  {
    DumpLoadsAsDescribed(dump);
    DumpLoadsAsDescribed(dump');
    EffectsReordered(InitialState(), InitialState(), dump, dump', perms);
  }
}
