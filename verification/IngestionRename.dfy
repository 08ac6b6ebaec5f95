/** b1f0c8f4b7aa: the ingestion runtime loses its "v2": one table and its indexes
    are renamed, and execucoes_sincronizacao.tipo_fonte is rewritten. */
module IngestionRename {
  import opened Options
  import opened Database
  import opened Integrity
  import opened Rewrites

  const RUNS := "execucoes_sincronizacao"
  const TIPO := "tipo_fonte"
  const ARQUIVO := "arquivo"
  const V2 := "cadastro_v2"
  const PLAIN := "cadastro"

  // ----- The rewrite of tipo_fonte -----

  function WasV2(r: Row): Option<bool> {
    Some(Holds(r, TIPO, V2))
  }

  predicate RegisterFile(r: Row) {
    Holds(r, ARQUIVO, "cad_cia_aberta.csv") || Holds(r, ARQUIVO, "cad_cia_estrang.csv")
  }

  function IsRegister(r: Row): Option<bool> {
    Some(Holds(r, TIPO, PLAIN) && RegisterFile(r))
  }

  function UpRow(r: Row): Row {
    Rewritten(r, TIPO, Str(PLAIN), WasV2)
  }

  function DownRow(r: Row): Row {
    Rewritten(r, TIPO, Str(V2), IsRegister)
  }

  function UpRows(rows: seq<Row>): seq<Row> {
    RewrittenAll(rows, TIPO, Str(PLAIN), WasV2)
  }

  function DownRows(rows: seq<Row>): seq<Row> {
    RewrittenAll(rows, TIPO, Str(V2), IsRegister)
  }

  lemma NamesDiffer()
    ensures V2 != PLAIN && TIPO != ARQUIVO
  {
  }

  /** No row is left with cadastro_v2, and every other field is kept. */
  lemma UpLeavesNoV2(rows: seq<Row>, i: nat)
    requires i < |rows|
    ensures |UpRows(rows)| == |rows| && !Holds(UpRows(rows)[i], TIPO, V2)
    ensures UpRows(rows)[i].Keys == rows[i].Keys
    ensures forall c :: c in rows[i] && c != TIPO ==> UpRows(rows)[i][c] == rows[i][c]
    ensures UpRows(rows)[i] != rows[i] <==> Holds(rows[i], TIPO, V2)
  {
  }

  /** Up, down and up again is up. */
  lemma UpDownUp(rows: seq<Row>)
    ensures UpRows(DownRows(UpRows(rows))) == UpRows(rows)
  {
    NamesDiffer();
    forall i | 0 <= i < |rows|
      ensures UpRow(DownRow(UpRow(rows[i]))) == UpRow(rows[i])
    {
      var u := UpRow(rows[i]);
      if Holds(u, TIPO, PLAIN) && RegisterFile(u) {
        assert u[TIPO := Str(V2)][TIPO := Str(PLAIN)] == u;
      }
    }
  }

  /** The tag says v2 exactly on the runs of the register files. */
  predicate Tagged(r: Row) {
    && (Holds(r, TIPO, V2) ==> RegisterFile(r))
    && (Holds(r, TIPO, PLAIN) ==> !RegisterFile(r))
  }

  lemma UpDownOfRow(r: Row)
    ensures DownRow(UpRow(r)) == r <==> Tagged(r)
  {
  }

  /** The downgrade restores the rows exactly when every run tagged cadastro_v2 is
      of a register file and no run tagged cadastro is. */
  lemma UpDownExactly(rows: seq<Row>)
    ensures DownRows(UpRows(rows)) == rows <==> forall i :: 0 <= i < |rows| ==> Tagged(rows[i])
  {
    forall i | 0 <= i < |rows|
      ensures DownRows(UpRows(rows))[i] == rows[i] <==> Tagged(rows[i])
    {
      UpDownOfRow(rows[i]);
    }
    if DownRows(UpRows(rows)) == rows {
      assert forall i :: 0 <= i < |rows| ==> DownRows(UpRows(rows))[i] == rows[i];
    }
  }

  // ----- Renaming indexes -----

  datatype Rename = Rename(from: string, to: string)

  function Renames(rs: seq<Rename>): seq<Op> {
    if rs == [] then [] else [RenameIndexIfExists(rs[0].from, rs[0].to)] + Renames(rs[1..])
  }

  function Back(rs: seq<Rename>): (b: seq<Rename>)
    ensures |b| == |rs| && forall i :: 0 <= i < |rs| ==> b[i] == Rename(rs[i].to, rs[i].from)
  {
    seq(|rs|, i requires 0 <= i < |rs| => Rename(rs[i].to, rs[i].from))
  }

  /** All the names are different. */
  ghost predicate Apart(rs: seq<Rename>) {
    && (forall i, j :: 0 <= i < j < |rs| ==> rs[i].from != rs[j].from && rs[i].to != rs[j].to)
    && (forall i, j :: 0 <= i < |rs| && 0 <= j < |rs| ==> rs[i].from != rs[j].to)
  }

  function RenameOne(indexes: map<string, Index>, r: Rename): map<string, Index> {
    if r.from in indexes then (indexes - {r.from})[r.to := indexes[r.from]] else indexes
  }

  function RenameAll(indexes: map<string, Index>, rs: seq<Rename>): map<string, Index>
    decreases |rs|
  {
    if rs == [] then indexes else RenameAll(RenameOne(indexes, rs[0]), rs[1..])
  }

  ghost predicate Free(indexes: map<string, Index>, tables: set<string>, rs: seq<Rename>) {
    forall r :: r in rs ==> r.to !in indexes && r.to !in tables && r.from !in tables
  }

  lemma ApartRest(rs: seq<Rename>)
    requires rs != [] && Apart(rs)
    ensures Apart(rs[1..])
    ensures forall r :: r in rs[1..] ==> r.from != rs[0].from && r.to != rs[0].to && r.from != rs[0].to && r.to != rs[0].from
  {
  }

  lemma {:induction false} RenamesRun(db: Db, rs: seq<Rename>)
    requires Apart(rs) && Free(db.indexes, db.tables.Keys, rs)
    ensures Run(Some(db), Renames(rs)) == Some(db.(indexes := RenameAll(db.indexes, rs)))
    decreases |rs|
  {
    if rs != [] {
      var r, rest := rs[0], rs[1..];
      ApartRest(rs);
      assert r in rs && forall q :: q in rest ==> q in rs;
      var db1 := db.(indexes := RenameOne(db.indexes, r));
      RunCons(Some(db), RenameIndexIfExists(r.from, r.to), Renames(rest));
      assert Apply(RenameIndexIfExists(r.from, r.to), db) == Some(db1);
      RenamesRun(db1, rest);
    }
  }

  /** Where an index is found afterwards. */
  lemma {:induction false} RenamedEntry(indexes: map<string, Index>, rs: seq<Rename>, n: string)
    requires Apart(rs) && forall r :: r in rs ==> r.to !in indexes
    ensures var after := RenameAll(indexes, rs);
      && (forall r :: r in rs && r.from == n ==> n !in after)
      && (forall r :: r in rs && r.to == n ==>
            (n in after <==> r.from in indexes) && (n in after ==> after[n] == indexes[r.from]))
      && ((forall r :: r in rs ==> r.from != n && r.to != n) ==>
            (n in after <==> n in indexes) && (n in after ==> after[n] == indexes[n]))
    decreases |rs|
  {
    if rs != [] {
      var r, rest := rs[0], rs[1..];
      ApartRest(rs);
      assert rs == [r] + rest;
      StillFree(indexes, r, rest);
      RenamedEntry(RenameOne(indexes, r), rest, n);
      RenamedOne(indexes, r, n);
      forall q | q in rs
        ensures q == r || q in rest
      {
      }
    }
  }

  lemma RenamedOne(indexes: map<string, Index>, r: Rename, n: string)
    requires r.from != r.to && r.to !in indexes
    ensures var one := RenameOne(indexes, r);
      && r.from !in one
      && (r.to in one <==> r.from in indexes) && (r.to in one ==> one[r.to] == indexes[r.from])
      && (n != r.from && n != r.to ==> (n in one <==> n in indexes) && (n in one ==> one[n] == indexes[n]))
  {
  }

  lemma StillFree(indexes: map<string, Index>, r: Rename, rest: seq<Rename>)
    requires Apart([r] + rest) && forall q :: q in [r] + rest ==> q.to !in indexes
    ensures r.from != r.to && r.to !in indexes
    ensures forall q :: q in rest ==> q.to !in RenameOne(indexes, r)
  {
    var rs := [r] + rest;
    assert r == rs[0] && r in rs;
    forall q | q in rest
      ensures q.to !in RenameOne(indexes, r)
    {
      var i :| 0 <= i < |rest| && rest[i] == q;
      assert rs[i + 1] == q && q in rs;
    }
  }

  lemma BackIsApart(rs: seq<Rename>)
    requires Apart(rs)
    ensures Apart(Back(rs))
  {
  }

  lemma RenamedBackEntry(indexes: map<string, Index>, rs: seq<Rename>, n: string)
    requires Apart(rs) && forall r :: r in rs ==> r.to !in indexes
    requires forall b :: b in Back(rs) ==> b.to !in RenameAll(indexes, rs)
    ensures var back := RenameAll(RenameAll(indexes, rs), Back(rs));
      (n in back <==> n in indexes) && (n in back ==> back[n] == indexes[n])
  {
    BackIsApart(rs);
    var there := RenameAll(indexes, rs);
    RenamedEntry(there, Back(rs), n);
    if i :| 0 <= i < |rs| && rs[i].from == n {
      assert rs[i] in rs && Back(rs)[i] in Back(rs);
      RenamedEntry(indexes, rs, rs[i].to);
    } else if i :| 0 <= i < |rs| && rs[i].to == n {
      assert rs[i] in rs && Back(rs)[i] in Back(rs);
    } else {
      RenamedEntry(indexes, rs, n);
      assert forall b :: b in Back(rs) ==> b.from != n && b.to != n;
    }
  }

  /** Renaming back restores every index. */
  lemma RenamesAreUndone(indexes: map<string, Index>, rs: seq<Rename>)
    requires Apart(rs) && forall r :: r in rs ==> r.to !in indexes
    ensures forall r :: r in rs ==> r.from !in RenameAll(indexes, rs)
    ensures RenameAll(RenameAll(indexes, rs), Back(rs)) == indexes
  {
    forall r | r in rs
      ensures r.from !in RenameAll(indexes, rs)
    {
      RenamedEntry(indexes, rs, r.from);
    }
    forall b | b in Back(rs)
      ensures b.to !in RenameAll(indexes, rs)
    {
      var i :| 0 <= i < |rs| && Back(rs)[i] == b;
      assert rs[i] in rs;
    }
    var back := RenameAll(RenameAll(indexes, rs), Back(rs));
    forall n
      ensures (n in back <==> n in indexes) && (n in back ==> back[n] == indexes[n])
    {
      RenamedBackEntry(indexes, rs, n);
    }
  }

  // ----- The migration -----

  const OLD_TABLE := "quarantine_items_v2"
  const NEW_TABLE := "quarantine_items"

  /** An index of the table: what its name starts and ends with. */
  function IndexRename(prefix: string, suffix: string): Rename {
    Rename(prefix + "_quarantine_items_v2_" + suffix, prefix + "_quarantine_items_" + suffix)
  }

  const INDEX_PARTS := [
    ("ix", "arquivo_origem"), ("ix", "ano_origem"), ("ix", "execucao_sincronizacao_id"), ("ix", "ingestion_row_id"),
    ("ix", "ingestion_run_id"), ("ix", "motivo_codigo"), ("ix", "row_kind"), ("ix", "status"), ("uq", "ingestion_row_id")]

  const INDEX_RENAMES: seq<Rename> :=
    seq(|INDEX_PARTS|, i requires 0 <= i < |INDEX_PARTS| => IndexRename(INDEX_PARTS[i].0, INDEX_PARTS[i].1))

  /** The table and the indexes under their new names. */
  function UpNames(rs: seq<Rename>): seq<Op> {
    [RenameTable(OLD_TABLE, NEW_TABLE)] + Renames(rs)
  }

  function DownNames(rs: seq<Rename>): seq<Op> {
    [RenameTable(NEW_TABLE, OLD_TABLE)] + Renames(Back(rs))
  }

  function Up(rs: seq<Rename>): seq<Op> {
    UpNames(rs) + [Update(RUNS, TIPO, Str(PLAIN), WasV2)]
  }

  function Down(rs: seq<Rename>): seq<Op> {
    [Update(RUNS, TIPO, Str(V2), IsRegister)] + DownNames(rs)
  }

  /** The old table is there under its name and the new names are free. */
  ghost predicate NamesFree(db: Db, rs: seq<Rename>) {
    && OLD_TABLE in db.tables && !Taken(db, NEW_TABLE) && Apart(rs)
    && (forall r :: r in rs ==> !Taken(db, r.to) && r.from !in db.tables)
    && (forall r :: r in rs ==> r.to !in {OLD_TABLE, NEW_TABLE} && r.from !in {OLD_TABLE, NEW_TABLE})
  }

  function Moved(tables: map<string, Table>, from: string, to: string): map<string, Table>
    requires from in tables
  {
    (tables - {from})[to := tables[from]]
  }

  function Named(db: Db, rs: seq<Rename>): Db
    requires OLD_TABLE in db.tables
  {
    Db(Moved(db.tables, OLD_TABLE, NEW_TABLE), RenameAll(RetargetIndexes(db.indexes, OLD_TABLE, NEW_TABLE), rs))
  }

  lemma UpNamesRun(db: Db, rs: seq<Rename>)
    requires NamesFree(db, rs)
    ensures Run(Some(db), UpNames(rs)) == Some(Named(db, rs))
  {
    var moved := Db(Moved(db.tables, OLD_TABLE, NEW_TABLE), RetargetIndexes(db.indexes, OLD_TABLE, NEW_TABLE));
    RunCons(Some(db), RenameTable(OLD_TABLE, NEW_TABLE), Renames(rs));
    assert Apply(RenameTable(OLD_TABLE, NEW_TABLE), db) == Some(moved);
    forall r | r in rs
      ensures r.to !in moved.indexes && r.to !in moved.tables && r.from !in moved.tables
    {
      assert !Taken(db, r.to) && r.from !in {OLD_TABLE, NEW_TABLE};
    }
    RenamesRun(moved, rs);
  }

  lemma {:induction false} RetargetRenamed(indexes: map<string, Index>, rs: seq<Rename>, from: string, to: string)
    ensures RetargetIndexes(RenameAll(indexes, rs), from, to) == RenameAll(RetargetIndexes(indexes, from, to), rs)
    decreases |rs|
  {
    if rs != [] {
      RetargetRenamed(RenameOne(indexes, rs[0]), rs[1..], from, to);
      assert RetargetIndexes(RenameOne(indexes, rs[0]), from, to) == RenameOne(RetargetIndexes(indexes, from, to), rs[0]);
    }
  }

  lemma RetargetBack(indexes: map<string, Index>, from: string, to: string)
    requires forall n :: n in indexes ==> indexes[n].table != to
    ensures RetargetIndexes(RetargetIndexes(indexes, from, to), to, from) == indexes
  {
  }

  lemma MovedBack(tables: map<string, Table>, from: string, to: string)
    requires from in tables && to !in tables
    ensures Moved(Moved(tables, from, to), to, from) == tables
  {
  }

  /** The part of validity that renames depend on. */
  predicate NamesSound(db: Db) {
    forall n :: n in db.indexes ==> n !in db.tables && db.indexes[n].table in db.tables
  }

  lemma NamesBackFree(db: Db, rs: seq<Rename>)
    requires NamesSound(db) && NamesFree(db, rs)
    ensures var named := Named(db, rs);
      && NEW_TABLE in named.tables && OLD_TABLE !in named.tables && OLD_TABLE !in named.indexes
      && Apart(Back(rs))
      && (forall b :: b in Back(rs) ==> b.to !in named.indexes && b.to !in named.tables && b.from !in named.tables)
      && (forall b :: b in Back(rs) ==> b.to !in {OLD_TABLE, NEW_TABLE} && b.from !in {OLD_TABLE, NEW_TABLE})
  {
    BackIsApart(rs);
    var moved := RetargetIndexes(db.indexes, OLD_TABLE, NEW_TABLE);
    forall r | r in rs
      ensures r.to !in moved
    {
      assert !Taken(db, r.to);
    }
    RenamesAreUndone(moved, rs);
    RenamedEntry(moved, rs, OLD_TABLE);
    assert OLD_TABLE !in moved;
    forall b | b in Back(rs)
      ensures exists r :: r in rs && b == Rename(r.to, r.from)
    {
      var i :| 0 <= i < |rs| && Back(rs)[i] == b;
      assert rs[i] in rs;
    }
  }

  /** The names come back, whatever the rows have become meanwhile. */
  lemma DownNamesRun(db: Db, rs: seq<Rename>)
    requires NamesSound(db) && NamesFree(db, rs)
    ensures Run(Some(Named(db, rs)), DownNames(rs)) == Some(db)
  {
    var named := Named(db, rs);
    NamesBackFree(db, rs);
    var moved := Db(Moved(named.tables, NEW_TABLE, OLD_TABLE), RetargetIndexes(named.indexes, NEW_TABLE, OLD_TABLE));
    RunCons(Some(named), RenameTable(NEW_TABLE, OLD_TABLE), Renames(Back(rs)));
    assert Apply(RenameTable(NEW_TABLE, OLD_TABLE), named) == Some(moved);
    MovedBack(db.tables, OLD_TABLE, NEW_TABLE);
    forall b | b in Back(rs)
      ensures b.to !in moved.indexes && b.to !in moved.tables && b.from !in moved.tables
    {
    }
    RenamesRun(moved, Back(rs));
    IndexesBack(db, rs);
  }

  lemma IndexesBack(db: Db, rs: seq<Rename>)
    requires NamesSound(db) && NamesFree(db, rs)
    ensures RenameAll(RetargetIndexes(Named(db, rs).indexes, NEW_TABLE, OLD_TABLE), Back(rs)) == db.indexes
  {
    var there := RetargetIndexes(db.indexes, OLD_TABLE, NEW_TABLE);
    RetargetRenamed(there, rs, NEW_TABLE, OLD_TABLE);
    RetargetBack(db.indexes, OLD_TABLE, NEW_TABLE);
    forall r | r in rs
      ensures r.to !in db.indexes
    {
      assert !Taken(db, r.to);
    }
    RenamesAreUndone(db.indexes, rs);
  }

  lemma {:induction false} RenamedValues(indexes: map<string, Index>, rs: seq<Rename>, n: string)
    requires n in RenameAll(indexes, rs)
    ensures exists m :: m in indexes && indexes[m] == RenameAll(indexes, rs)[n]
    decreases |rs|
  {
    if rs == [] {
      assert indexes[n] == RenameAll(indexes, rs)[n];
    } else {
      var one := RenameOne(indexes, rs[0]);
      RenamedValues(one, rs[1..], n);
      var m :| m in one && one[m] == RenameAll(indexes, rs)[n];
      assert indexes[if m in indexes && one[m] == indexes[m] then m else rs[0].from] == one[m];
    }
  }

  /** The database before the migration; no key uses tipo_fonte, which is text. */
  ghost predicate Before(db: Db, rs: seq<Rename>) {
    && Valid(db) && NamesFree(db, rs) && RUNS !in {OLD_TABLE, NEW_TABLE}
    && Rewritable(db, RUNS, TIPO, Str(PLAIN)) && Rewritable(db, RUNS, TIPO, Str(V2))
  }

  lemma RewritableNamed(db: Db, rs: seq<Rename>)
    requires Before(db, rs)
    ensures Valid(Named(db, rs)) && Named(db, rs).tables[RUNS] == db.tables[RUNS]
    ensures Rewritable(Named(db, rs), RUNS, TIPO, Str(PLAIN)) && Rewritable(Named(db, rs), RUNS, TIPO, Str(V2))
  {
    UpNamesRun(db, rs);
    RunKeepsValid(Some(db), UpNames(rs));
    var named := Named(db, rs);
    forall n | n in named.indexes && named.indexes[n].table == RUNS && named.indexes[n].unique
      ensures TIPO !in named.indexes[n].cols
    {
      RenamedValues(RetargetIndexes(db.indexes, OLD_TABLE, NEW_TABLE), rs, n);
    }
  }

  lemma RewriteRun(db: Db, value: string, condition: Condition) returns (rows: seq<Row>)
    requires Valid(db) && Rewritable(db, RUNS, TIPO, Str(value)) && forall r :: condition(r).Some?
    ensures Run(Some(db), [Update(RUNS, TIPO, Str(value), condition)]) == Some(SetRows(db, RUNS, rows))
    ensures |rows| == |db.tables[RUNS].rows|
    ensures forall i :: 0 <= i < |rows| ==> rows[i] == Rewritten(db.tables[RUNS].rows[i], TIPO, Str(value), condition)
  {
    var op := Update(RUNS, TIPO, Str(value), condition);
    RunCons(Some(db), op, []);
    var u := UpdateRuns(db, RUNS, TIPO, Str(value), condition);
    rows := u.value;
  }

  /** The upgrade always succeeds. */
  lemma UpRuns(db: Db, rs: seq<Rename>)
    requires Before(db, rs)
    ensures Run(Some(db), Up(rs)) == Some(SetRows(Named(db, rs), RUNS, UpRows(db.tables[RUNS].rows)))
    ensures Valid(SetRows(Named(db, rs), RUNS, UpRows(db.tables[RUNS].rows)))
  {
    UpNamesRun(db, rs);
    RewritableNamed(db, rs);
    RunAppend(Some(db), UpNames(rs), [Update(RUNS, TIPO, Str(PLAIN), WasV2)]);
    var rows := RewriteRun(Named(db, rs), PLAIN, WasV2);
    assert rows == UpRows(db.tables[RUNS].rows);
    RunKeepsValid(Some(db), Up(rs));
  }

  lemma NamedWithRows(db: Db, rs: seq<Rename>, rows: seq<Row>)
    requires Before(db, rs)
    ensures NamesSound(SetRows(db, RUNS, rows)) && NamesFree(SetRows(db, RUNS, rows), rs)
    ensures RUNS in Named(db, rs).tables
    ensures Named(SetRows(db, RUNS, rows), rs) == SetRows(Named(db, rs), RUNS, rows)
  {
  }

  lemma DownRuns(db: Db, rs: seq<Rename>, rows: seq<Row>)
    requires Before(db, rs) && RUNS in Named(db, rs).tables && Valid(SetRows(Named(db, rs), RUNS, rows))
    ensures Run(Some(SetRows(Named(db, rs), RUNS, rows)), Down(rs)) == Some(SetRows(db, RUNS, DownRows(rows)))
  {
    var up := SetRows(Named(db, rs), RUNS, rows);
    RewritableNamed(db, rs);
    var update := Update(RUNS, TIPO, Str(V2), IsRegister);
    RunAppend(Some(up), [update], DownNames(rs));
    var rows' := RewriteRun(up, V2, IsRegister);
    assert rows' == DownRows(rows);
    NamedWithRows(db, rs, rows');
    RowsSetTwice(Named(db, rs), RUNS, rows, rows');
    DownNamesRun(SetRows(db, RUNS, rows'), rs);
  }

  /** Downgrading after the upgrade always succeeds, and restores the database
      exactly when the tag said v2 on the runs of the register files and on no other. */
  lemma UndoneExactly(db: Db, rs: seq<Rename>)
    requires Before(db, rs)
    ensures var rows := db.tables[RUNS].rows;
      && Run(Run(Some(db), Up(rs)), Down(rs)) == Some(SetRows(db, RUNS, DownRows(UpRows(rows))))
      && (Run(Run(Some(db), Up(rs)), Down(rs)) == Some(db) <==> forall i :: 0 <= i < |rows| ==> Tagged(rows[i]))
  {
    var rows := db.tables[RUNS].rows;
    UpRuns(db, rs);
    NamedWithRows(db, rs, UpRows(rows));
    DownRuns(db, rs, UpRows(rows));
    UpDownExactly(rows);
    RowsSetTwice(db, RUNS, DownRows(UpRows(rows)), []);
  }

  lemma BeforeAgain(db: Db, rs: seq<Rename>)
    requires Before(db, rs)
    ensures Before(SetRows(db, RUNS, DownRows(UpRows(db.tables[RUNS].rows))), rs)
  {
    var rows := DownRows(UpRows(db.tables[RUNS].rows));
    UndoneExactly(db, rs);
    RunKeepsValid(Some(db), Up(rs));
    RunKeepsValid(Run(Some(db), Up(rs)), Down(rs));
    NamedWithRows(db, rs, rows);
  }

  lemma SameAfterUp(db: Db, rs: seq<Rename>, rows: seq<Row>, rows': seq<Row>)
    requires Before(db, rs)
    ensures RUNS in Named(SetRows(db, RUNS, rows), rs).tables && RUNS in Named(db, rs).tables
    ensures SetRows(Named(SetRows(db, RUNS, rows), rs), RUNS, rows') == SetRows(Named(db, rs), RUNS, rows')
  {
  }

  /** The upgrade, done, undone and done again, leaves what it left the first time. */
  lemma RedoneIsDone(db: Db, rs: seq<Rename>)
    requires Before(db, rs)
    ensures Run(Run(Run(Some(db), Up(rs)), Down(rs)), Up(rs)) == Run(Some(db), Up(rs))
  {
    var rows := db.tables[RUNS].rows;
    var rows' := DownRows(UpRows(rows));
    UndoneExactly(db, rs);
    BeforeAgain(db, rs);
    UpRuns(db, rs);
    UpRuns(SetRows(db, RUNS, rows'), rs);
    UpDownUp(rows);
    SameAfterUp(db, rs, rows', UpRows(rows));
  }

  lemma IndexRenameParts(prefix: string, suffix: string)
    requires |prefix| == 2
    ensures var r := IndexRename(prefix, suffix);
      && r.from[..2] == prefix && r.from[23..] == suffix && r.from[20] == 'v'
      && r.to[..2] == prefix && r.to[20..] == suffix
  {
    var r := IndexRename(prefix, suffix);
    assert |"_quarantine_items_v2_"| == 21 && |"_quarantine_items_"| == 18 && "_quarantine_items_v2_"[18] == 'v';
  }

  /** The renames are built from these prefixes and suffixes. */
  ghost predicate Built(parts: seq<(string, string)>, rs: seq<Rename>) {
    |rs| == |parts| && forall i :: 0 <= i < |parts| ==>
      |parts[i].0| == 2 && parts[i].0[0] != 'q' && parts[i].1 != "" && parts[i].1[0] != 'v' && rs[i] == IndexRename(parts[i].0, parts[i].1)
  }

  lemma BuiltApart(parts: seq<(string, string)>, rs: seq<Rename>)
    requires Built(parts, rs) && forall i, j :: 0 <= i < j < |parts| ==> parts[i] != parts[j]
    ensures Apart(rs)
  {
    forall i | 0 <= i < |parts|
      ensures rs[i].from[..2] == parts[i].0 && rs[i].from[23..] == parts[i].1 && rs[i].from[20] == 'v'
      ensures rs[i].to[..2] == parts[i].0 && rs[i].to[20..] == parts[i].1 && rs[i].to[20] != 'v'
    {
      IndexRenameParts(parts[i].0, parts[i].1);
      assert rs[i].to[20..][0] == rs[i].to[20];
    }
  }

  lemma BuiltAreNoTables(parts: seq<(string, string)>, rs: seq<Rename>)
    requires Built(parts, rs)
    ensures forall r :: r in rs ==> r.from !in {OLD_TABLE, NEW_TABLE} && r.to !in {OLD_TABLE, NEW_TABLE}
  {
    forall i | 0 <= i < |rs|
      ensures rs[i].from !in {OLD_TABLE, NEW_TABLE} && rs[i].to !in {OLD_TABLE, NEW_TABLE}
    {
      assert rs[i].from[0] == parts[i].0[0] && rs[i].to[0] == parts[i].0[0] && OLD_TABLE[0] == 'q' && NEW_TABLE[0] == 'q';
    }
  }

  lemma IndexPartsDiffer()
    ensures forall i, j :: 0 <= i < j < |INDEX_PARTS| ==> INDEX_PARTS[i] != INDEX_PARTS[j]
  {
    assert "ingestion_row_id"[11] == 'o' && "ingestion_run_id"[11] == 'u' && "ix"[0] == 'i' && "uq"[0] == 'u';
  }

  lemma IndexRenamesBuilt()
    ensures Built(INDEX_PARTS, INDEX_RENAMES)
  {
  }

  lemma IndexRenamesApart()
    ensures Apart(INDEX_RENAMES)
  {
    IndexRenamesBuilt();
    IndexPartsDiffer();
    BuiltApart(INDEX_PARTS, INDEX_RENAMES);
  }

  /** For the names of the migration it is enough that the old table exists and the
      new names are free. */
  lemma FreeNamesSuffice(db: Db)
    requires OLD_TABLE in db.tables && !Taken(db, NEW_TABLE)
    requires forall r :: r in INDEX_RENAMES ==> !Taken(db, r.to) && r.from !in db.tables
    ensures NamesFree(db, INDEX_RENAMES)
  {
    IndexRenamesApart();
    IndexRenamesBuilt();
    BuiltAreNoTables(INDEX_PARTS, INDEX_RENAMES);
  }

  method RenameIndexes(op: Operations, rs: seq<Rename>)
    modifies op
    ensures op.Outcome() == Run(old(op.Outcome()), Renames(rs))
  {
    ghost var start := op.Outcome();
    for i := 0 to |rs|
      invariant Run(op.Outcome(), Renames(rs[i..])) == Run(start, Renames(rs))
    {
      assert rs[i..][0] == rs[i] && rs[i..][1..] == rs[i + 1..];
      RunCons(op.Outcome(), RenameIndexIfExists(rs[i].from, rs[i].to), Renames(rs[i + 1..]));
      op.Do(RenameIndexIfExists(rs[i].from, rs[i].to));
    }
  }

  method UpgradeB1f0c8f4b7aa(op: Operations)
    modifies op
    ensures op.Outcome() == Run(old(op.Outcome()), Up(INDEX_RENAMES))
  {
    ghost var start := op.Outcome();
    op.Do(RenameTable(OLD_TABLE, NEW_TABLE));
    RenameIndexes(op, INDEX_RENAMES);
    RunCons(start, RenameTable(OLD_TABLE, NEW_TABLE), Renames(INDEX_RENAMES));
    RunAppend(start, UpNames(INDEX_RENAMES), [Update(RUNS, TIPO, Str(PLAIN), WasV2)]);
    RunCons(op.Outcome(), Update(RUNS, TIPO, Str(PLAIN), WasV2), []);
    op.Do(Update(RUNS, TIPO, Str(PLAIN), WasV2));
  }

  method DowngradeB1f0c8f4b7aa(op: Operations)
    modifies op
    ensures op.Outcome() == Run(old(op.Outcome()), Down(INDEX_RENAMES))
  {
    ghost var start := op.Outcome();
    op.Do(Update(RUNS, TIPO, Str(V2), IsRegister));
    RunCons(start, Update(RUNS, TIPO, Str(V2), IsRegister), DownNames(INDEX_RENAMES));
    RunCons(op.Outcome(), RenameTable(NEW_TABLE, OLD_TABLE), Renames(Back(INDEX_RENAMES)));
    op.Do(RenameTable(NEW_TABLE, OLD_TABLE));
    RenameIndexes(op, Back(INDEX_RENAMES));
  }
}
