/** The renames and the rewrite of b1f0c8f4b7aa, spelled out on rows, tables and indexes. */
module SourceTypes {
  import opened Options
  import opened Database
  import opened IngestionRename

  // ----- The rows -----

  predicate UpgradedRow(r: Row, r': Row) {
    r' == if "tipo_fonte" in r && r["tipo_fonte"] == Str("cadastro_v2") then r["tipo_fonte" := Str("cadastro")] else r
  }

  predicate OfRegister(r: Row) {
    "arquivo" in r && (r["arquivo"] == Str("cad_cia_aberta.csv") || r["arquivo"] == Str("cad_cia_estrang.csv"))
  }

  predicate DowngradedRow(r: Row, r': Row) {
    r' == if "tipo_fonte" in r && r["tipo_fonte"] == Str("cadastro") && OfRegister(r) then r["tipo_fonte" := Str("cadastro_v2")] else r
  }

  /** The upgrade always succeeds and rewrites exactly the runs of cadastro_v2. */
  lemma UpgradeRewritesExactly(db: Db, rs: seq<Rename>)
    requires Before(db, rs)
    ensures var r := Run(Some(db), Up(rs));
      && r.Some? && "execucoes_sincronizacao" in db.tables && "execucoes_sincronizacao" in r.value.tables
      && var rows, rows' := db.tables["execucoes_sincronizacao"].rows, r.value.tables["execucoes_sincronizacao"].rows;
      && |rows'| == |rows| && forall i :: 0 <= i < |rows| ==> UpgradedRow(rows[i], rows'[i])
  {
    var rows := db.tables[RUNS].rows;
    UpRuns(db, rs);
    RewritableNamed(db, rs);
    forall i | 0 <= i < |rows|
      ensures UpgradedRow(rows[i], UpRows(rows)[i])
    {
    }
  }

  /** The downgrade rewrites exactly the runs of cadastro on one of the two register
      files, whatever the rows have become. */
  lemma DowngradeRewritesExactly(db: Db, rs: seq<Rename>, rows: seq<Row>)
    requires Before(db, rs) && RUNS in Named(db, rs).tables && Valid(SetRows(Named(db, rs), RUNS, rows))
    ensures var r := Run(Some(SetRows(Named(db, rs), RUNS, rows)), Down(rs));
      && r.Some? && "execucoes_sincronizacao" in r.value.tables
      && var rows' := r.value.tables["execucoes_sincronizacao"].rows;
      && |rows'| == |rows| && forall i :: 0 <= i < |rows| ==> DowngradedRow(rows[i], rows'[i])
  {
    DownRuns(db, rs, rows);
    forall i | 0 <= i < |rows|
      ensures DowngradedRow(rows[i], DownRows(rows)[i])
    {
    }
  }

  // ----- The table and its indexes -----

  /** The nine indexes, by what their names begin and end with. */
  predicate IsPart(prefix: string, suffix: string) {
    || (prefix == "uq" && suffix == "ingestion_row_id")
    || (prefix == "ix" &&
        (|| suffix == "arquivo_origem" || suffix == "ano_origem" || suffix == "execucao_sincronizacao_id"
         || suffix == "ingestion_row_id" || suffix == "ingestion_run_id" || suffix == "motivo_codigo"
         || suffix == "row_kind" || suffix == "status"))
  }

  lemma PartIsListed(prefix: string, suffix: string) returns (i: nat)
    requires IsPart(prefix, suffix)
    ensures i < |INDEX_PARTS| && INDEX_PARTS[i] == (prefix, suffix)
  {
    i := if prefix == "uq" then 8 else if suffix == "arquivo_origem" then 0 else if suffix == "ano_origem" then 1
         else if suffix == "execucao_sincronizacao_id" then 2 else if suffix == "ingestion_row_id" then 3
         else if suffix == "ingestion_run_id" then 4 else if suffix == "motivo_codigo" then 5
         else if suffix == "row_kind" then 6 else 7;
  }

  lemma PartIsRenamed(prefix: string, suffix: string)
    requires IsPart(prefix, suffix)
    ensures Rename(prefix + "_quarantine_items_v2_" + suffix, prefix + "_quarantine_items_" + suffix) in INDEX_RENAMES
  {
    var i := PartIsListed(prefix, suffix);
    assert INDEX_RENAMES[i] == IndexRename(prefix, suffix);
  }

  /** An index that came along when its table was renamed. */
  function Carried(x: Index): Index {
    if x.table == "quarantine_items_v2" then x.(table := "quarantine_items") else x
  }

  lemma RenamedIs(db: Db, rs: seq<Rename>, r: Rename)
    requires Before(db, rs) && r in rs
    ensures var up := Run(Some(db), Up(rs));
      && up.Some? && r.from !in up.value.indexes
      && (r.to in up.value.indexes <==> r.from in db.indexes)
      && (r.from in db.indexes ==> up.value.indexes[r.to] == Carried(db.indexes[r.from]))
  {
    UpRuns(db, rs);
    var moved := RetargetIndexes(db.indexes, OLD_TABLE, NEW_TABLE);
    forall q | q in rs ensures q.to !in moved { assert !Taken(db, q.to); }
    RenamedEntry(moved, rs, r.from);
    RenamedEntry(moved, rs, r.to);
  }

  /** quarantine_items_v2 and its rows are found as quarantine_items, and each of the nine
      indexes that exists is found under its name without the _v2, on the new table. */
  lemma UpgradeRenames(db: Db, prefix: string, suffix: string)
    requires Before(db, INDEX_RENAMES) && IsPart(prefix, suffix)
    ensures var up := Run(Some(db), Up(INDEX_RENAMES));
      var from, to := prefix + "_quarantine_items_v2_" + suffix, prefix + "_quarantine_items_" + suffix;
      && up.Some? && from !in up.value.indexes && (to in up.value.indexes <==> from in db.indexes)
      && (from in db.indexes ==> up.value.indexes[to] == Carried(db.indexes[from]))
  {
    PartIsRenamed(prefix, suffix);
    RenamedIs(db, INDEX_RENAMES, Rename(prefix + "_quarantine_items_v2_" + suffix, prefix + "_quarantine_items_" + suffix));
  }

  lemma TableIsRenamed(db: Db, rs: seq<Rename>)
    requires Before(db, rs)
    ensures "quarantine_items_v2" in db.tables
    ensures var up := Run(Some(db), Up(rs));
      && up.Some? && "quarantine_items_v2" !in up.value.tables && "quarantine_items" in up.value.tables
      && up.value.tables["quarantine_items"] == db.tables["quarantine_items_v2"]
  {
    UpRuns(db, rs);
    assert OLD_TABLE[|NEW_TABLE|..] == "_v2";
  }
}
