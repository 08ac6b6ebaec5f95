/** Migrations that add a column to a table and to its natural key:
    6f2e9b7c1a4d, NOT NULL with a default, and 20260623_004, nullable. */
module ColumnKeys {
  import opened Options
  import opened Database
  import opened Integrity
  import opened NaturalKeys
  import opened KeyHistory

  // ----- Default versus NULL -----

  /** The wide key is the narrow one and the new column. */
  ghost predicate Adds(w: Widening, column: string) {
    && column !in w.narrow
    && forall c :: c in w.wide <==> c in w.narrow || c == column
  }

  /** With a default that is not NULL two rows collide on the new key exactly when
      they collided on the old one. */
  lemma DefaultKeepsCollisions(rows: seq<Row>, w: Widening, column: string, default: Cell, i: nat, j: nat)
    requires Adds(w, column) && default != Null && i < |rows| && j < |rows|
    ensures var filled := FillColumn(rows, column, default);
      AgreeOn(filled[i], filled[j], w.wide) <==> AgreeOn(rows[i], rows[j], w.narrow)
  {
  }

  /** With NULL in the new column no two rows collide on the new key, duplicates
      on the old one included. */
  lemma NullNeverCollides(rows: seq<Row>, w: Widening, column: string)
    requires Adds(w, column)
    ensures UniqueOver(FillColumn(rows, column, Null), w.wide)
  {
  }

  /** So the key with the default rejects exactly the rows the old key rejected. */
  lemma DefaultKeepsUniqueness(rows: seq<Row>, w: Widening, column: string, default: Cell)
    requires Adds(w, column) && default != Null
    ensures UniqueOver(FillColumn(rows, column, default), w.wide) <==> UniqueOver(rows, w.narrow)
  {
  }

  // ----- Adding and dropping a column -----

  function WithColumn(db: Db, table: string, column: string, spec: Column): Db
    requires table in db.tables
  {
    SetColumn(SetRows(db, table, FillColumn(db.tables[table].rows, column, spec.default)), table, column, spec)
  }

  lemma DropUndoesAdd(db: Db, table: string, column: string, spec: Column)
    requires Valid(db) && table in db.tables && column !in db.tables[table].columns
    ensures Apply(DropColumn(table, column), WithColumn(db, table, column, spec)) == Some(db)
  {
    var t := db.tables[table];
    var filled := FillColumn(t.rows, column, spec.default);
    assert ClearColumn(filled, column) == t.rows by {
      forall i | 0 <= i < |t.rows|
        ensures ClearColumn(filled, column)[i] == t.rows[i]
      {
        assert RowFits(t.rows[i], t.columns);
        assert t.rows[i][column := spec.default] - {column} == t.rows[i];
      }
    }
    assert t.columns[column := spec] - {column} == t.columns;
    assert Table(t.columns, t.rows) == t;
    forall n | n in db.indexes
      ensures !MentionsColumn(db.indexes[n], table, column)
    {
      assert IndexFits(db, db.indexes[n]);
    }
    assert (map n | n in db.indexes && !MentionsColumn(db.indexes[n], table, column) :: db.indexes[n]) == db.indexes;
    var dropped := Apply(DropColumn(table, column), WithColumn(db, table, column, spec)).value;
    assert dropped.tables == db.tables;
  }

  lemma RekeysOfOne(k: Key)
    ensures Rekeys([k]) == Rekey(k)
  {
  }

  /** Replacing a key by a wider one and back restores the database. */
  lemma WidenAndBack(db: Db, w: Widening)
    requires Valid(db) && w.Proper() && Stored(db, w.Old()) && HasColumns(db, w.table, w.wide)
    ensures Run(Some(db), Rekey(w.New())) == Some(Rekeyed(db, [w.New()]))
    ensures Valid(Rekeyed(db, [w.New()])) && Rekeyed(db, [w.New()]).tables == db.tables
    ensures Run(Some(Rekeyed(db, [w.New()])), Rekey(w.Old())) == Some(db)
  {
    RekeysOfOne(w.New());
    RekeysOfOne(w.Old());
    assert Widens(db, w.New()) && Present(db, w.New());
    WideningSucceeds(db, [w.New()]);
    assert Names([w.New()]) == {w.name} == Names([w.Old()]);
    WideningIsUndone(db, [w.New()], [w.Old()]);
  }

  /** From a valid database, whatever was written since, narrowing a key fails
      exactly when two rows collide on the narrow one. */
  lemma NarrowExactly(db: Db, w: Widening)
    requires Valid(db) && w.Proper() && Stored(db, w.New())
    ensures Run(Some(db), Rekey(w.Old())) == if SomeCollision(db, w) then None else Some(Rekeyed(db, [w.Old()]))
    ensures Rekeyed(db, [w.Old()]).tables == db.tables
    ensures Run(Some(db), Rekey(w.Old())).Some? ==> Valid(Rekeyed(db, [w.Old()]))
    ensures Rekeyed(db, [w.Old()]).indexes == db.indexes[w.name := Index(w.table, w.narrow, true)]
  {
    RekeysOfOne(w.Old());
    assert IndexFits(db, db.indexes[w.name]);
    assert Present(db, w.Old());
    RekeysRun(db, [w.Old()]);
    CollisionIsBrokenKey(db, w);
    RekeyedElsewhere(db, [w.Old()], "");
    RunKeepsValid(Some(db), Rekey(w.Old()));
    assert [w.Old()][1..] == [];
    if SomeCollision(db, w) {
      assert w.Old() in [w.Old()];
    }
  }

  // ----- NOT NULL with a default: 6f2e9b7c1a4d -----

  function AddToKey(w: Widening, column: string, spec: Column): seq<Op> {
    [AddColumn(w.table, column, spec)] + Rekey(w.New())
  }

  function RemoveFromKey(w: Widening, column: string): seq<Op> {
    Rekey(w.Old()) + [DropColumn(w.table, column)]
  }

  /** The natural key stands at its old columns and the column is not there yet. */
  ghost predicate WithoutKeyColumn(db: Db, w: Widening, column: string) {
    && Stored(db, w.Old())
    && w.table in db.tables && column !in db.tables[w.table].columns
  }

  /** The upgrade succeeds whatever the rows, and the downgrade restores them. */
  lemma AddToKeySucceeds(db: Db, w: Widening, column: string, spec: Column)
    requires Valid(db) && Adds(w, column) && FitsColumn(spec.default, spec) && WithoutKeyColumn(db, w, column)
    ensures Run(Some(db), AddToKey(w, column, spec)) == Some(Rekeyed(WithColumn(db, w.table, column, spec), [w.New()]))
    ensures Valid(Rekeyed(WithColumn(db, w.table, column, spec), [w.New()]))
    ensures Run(Run(Some(db), AddToKey(w, column, spec)), RemoveFromKey(w, column)) == Some(db)
  {
    var db1 := WithColumn(db, w.table, column, spec);
    assert Apply(AddColumn(w.table, column, spec), db) == Some(db1);
    ApplyKeepsValid(AddColumn(w.table, column, spec), db);
    assert IndexFits(db, db.indexes[w.name]);
    WidenAndBack(db1, w);
    RunCons(Some(db), AddColumn(w.table, column, spec), Rekey(w.New()));
    var up := Some(Rekeyed(db1, [w.New()]));
    RunAppend(up, Rekey(w.Old()), [DropColumn(w.table, column)]);
    RunCons(Some(db1), DropColumn(w.table, column), []);
    DropUndoesAdd(db, w.table, column, spec);
  }

  /** Later the downgrade fails exactly on a collision of the old key. */
  lemma RemoveFromKeyFailsExactly(db: Db, w: Widening, column: string)
    requires Valid(db) && Adds(w, column) && Stored(db, w.New())
    ensures Run(Some(db), RemoveFromKey(w, column)).None? <==> SomeCollision(db, w)
  {
    NarrowExactly(db, w);
    assert IndexFits(db, db.indexes[w.name]);
    RunAppend(Some(db), Rekey(w.Old()), [DropColumn(w.table, column)]);
    RunCons(Run(Some(db), Rekey(w.Old())), DropColumn(w.table, column), []);
    assert column in w.wide;
  }

  const COLUNA_DF := Column(Text, false, Str(""))

  function Up6f2e9b7c1a4d(): seq<Op> {
    AddToKey(DEMONSTRACOES_FINANCEIRAS_6F2E, "coluna_df", COLUNA_DF)
  }

  function Down6f2e9b7c1a4d(): seq<Op> {
    RemoveFromKey(DEMONSTRACOES_FINANCEIRAS_6F2E, "coluna_df")
  }

  lemma ColunaDfIsAdded()
    ensures Adds(DEMONSTRACOES_FINANCEIRAS_6F2E, "coluna_df") && FitsColumn(COLUNA_DF.default, COLUNA_DF)
  {
  }

  /** Adding coluna_df: the new key conflicts on the old rows exactly when the old
      one did, the upgrade succeeds on every valid database, the downgrade right
      after it restores it, and later fails exactly on a collision. */
  lemma Revision6f2e9b7c1a4d(db: Db, later: Db)
    requires Valid(db) && WithoutKeyColumn(db, DEMONSTRACOES_FINANCEIRAS_6F2E, "coluna_df")
    requires Valid(later) && Stored(later, DEMONSTRACOES_FINANCEIRAS_6F2E.New())
    ensures Run(Some(db), Up6f2e9b7c1a4d()).Some?
    ensures Run(Run(Some(db), Up6f2e9b7c1a4d()), Down6f2e9b7c1a4d()) == Some(db)
    ensures Run(Some(later), Down6f2e9b7c1a4d()).None? <==> SomeCollision(later, DEMONSTRACOES_FINANCEIRAS_6F2E)
  {
    ColunaDfIsAdded();
    AddToKeySucceeds(db, DEMONSTRACOES_FINANCEIRAS_6F2E, "coluna_df", COLUNA_DF);
    RemoveFromKeyFailsExactly(later, DEMONSTRACOES_FINANCEIRAS_6F2E, "coluna_df");
  }

  /** The rows there are get an empty text, and the column takes no NULL. */
  lemma ColunaDfIsEmpty(db: Db)
    requires Valid(db) && WithoutKeyColumn(db, DEMONSTRACOES_FINANCEIRAS_6F2E, "coluna_df")
    ensures "demonstracoes_financeiras" in db.tables
    ensures var up := Run(Some(db), Up6f2e9b7c1a4d());
      && up.Some? && "demonstracoes_financeiras" in up.value.tables
      && var before, after := db.tables["demonstracoes_financeiras"], up.value.tables["demonstracoes_financeiras"];
      && after.columns == before.columns["coluna_df" := Column(Text, false, Str(""))]
      && |after.rows| == |before.rows| && forall i :: 0 <= i < |before.rows| ==> after.rows[i] == before.rows[i]["coluna_df" := Str("")]
  {
    var w := DEMONSTRACOES_FINANCEIRAS_6F2E;
    ColunaDfIsAdded();
    AddToKeySucceeds(db, w, "coluna_df", COLUNA_DF);
    RekeyedElsewhere(WithColumn(db, w.table, "coluna_df", COLUNA_DF), [w.New()], "");
  }

  method Upgrade6f2e9b7c1a4d(op: Operations)
    modifies op
    ensures op.Outcome() == Run(old(op.Outcome()), Up6f2e9b7c1a4d())
  {
    var w := DEMONSTRACOES_FINANCEIRAS_6F2E;
    op.Do(AddColumn(w.table, "coluna_df", COLUNA_DF));
    Replace(op, w.New());
    RunCons(old(op.Outcome()), AddColumn(w.table, "coluna_df", COLUNA_DF), Rekey(w.New()));
  }

  method Downgrade6f2e9b7c1a4d(op: Operations)
    modifies op
    ensures op.Outcome() == Run(old(op.Outcome()), Down6f2e9b7c1a4d())
  {
    var w := DEMONSTRACOES_FINANCEIRAS_6F2E;
    Replace(op, w.Old());
    RunAppend(old(op.Outcome()), Rekey(w.Old()), [DropColumn(w.table, "coluna_df")]);
    RunCons(op.Outcome(), DropColumn(w.table, "coluna_df"), []);
    op.Do(DropColumn(w.table, "coluna_df"));
  }

  // ----- Nullable: 20260623_004 -----

  const CLASSES := FRE_PLANO_RECOMPRA_CLASSES_20260623
  const ESPECIE := "especie_acao"
  const TIPO := "tipo_classe_acao_preferencial"
  const ESPECIE_INDEX := "ix_fre_plano_recompra_classes_acoes_especie_acao"
  const ESPECIE_ACAO := Column(Text, true, Null)

  /** upgrade, for the widening w of a table that gains `column` with an index on
      it, while `relaxed` becomes nullable. */
  function Relax(w: Widening, column: string, spec: Column, index: string, relaxed: string): seq<Op> {
    [AddColumn(w.table, column, spec), CreateIndex(w.table, index, [column]), SetNullable(w.table, relaxed, true)] + Rekey(w.New())
  }

  function Tighten(w: Widening, column: string, index: string, relaxed: string): seq<Op> {
    Rekey(w.Old()) + [SetNullable(w.table, relaxed, false), DropIndex(index), DropColumn(w.table, column)]
  }

  lemma RunThree(state: Option<Db>, a: Op, b: Op, c: Op)
    ensures Run(state, [a, b, c]) == Then(Then(Then(state, a), b), c)
  {
    assert [a, b, c] == [a] + [b, c] && [b, c] == [b] + [c];
    RunCons(state, a, [b, c]);
    RunCons(Then(state, a), b, [c]);
    RunCons(Then(Then(state, a), b), c, []);
  }

  /** The state before the upgrade: the column is not there, its index name is
      free, and the other column is NOT NULL. */
  ghost predicate BeforeRelax(db: Db, w: Widening, column: string, index: string, relaxed: string) {
    && WithoutKeyColumn(db, w, column)
    && !Taken(db, index)
    && relaxed in db.tables[w.table].columns && !db.tables[w.table].columns[relaxed].nullable
  }

  function WithIndex(db: Db, table: string, column: string, index: string): Db {
    db.(indexes := db.indexes[index := Index(table, [column], false)])
  }

  function WithNullable(db: Db, table: string, column: string, nullable: bool): Db
    requires HasColumn(db, table, column)
  {
    SetColumn(db, table, column, db.tables[table].columns[column].(nullable := nullable))
  }

  /** The first three operations, one after the other. */
  lemma RelaxColumns(db: Db, w: Widening, column: string, spec: Column, index: string, relaxed: string) returns (db1: Db, db2: Db, db3: Db)
    requires Valid(db) && FitsColumn(spec.default, spec) && BeforeRelax(db, w, column, index, relaxed)
    ensures db1 == WithColumn(db, w.table, column, spec) && Valid(db1)
    ensures db2 == WithIndex(db1, w.table, column, index) && Valid(db2)
    ensures HasColumn(db2, w.table, relaxed) && db3 == WithNullable(db2, w.table, relaxed, true) && Valid(db3)
    ensures Run(Some(db), [AddColumn(w.table, column, spec), CreateIndex(w.table, index, [column]), SetNullable(w.table, relaxed, true)]) == Some(db3)
    ensures Stored(db3, w.Old())
  {
    var a, b, c := AddColumn(w.table, column, spec), CreateIndex(w.table, index, [column]), SetNullable(w.table, relaxed, true);
    RunThree(Some(db), a, b, c);
    db1 := WithColumn(db, w.table, column, spec);
    ApplyKeepsValid(a, db);
    db2 := WithIndex(db1, w.table, column, index);
    assert Apply(b, db1) == Some(db2);
    ApplyKeepsValid(b, db1);
    db3 := WithNullable(db2, w.table, relaxed, true);
    assert Apply(c, db2) == Some(db3);
    ApplyKeepsValid(c, db2);
  }

  lemma TightenUndoesRelax(db2: Db, w: Widening, relaxed: string)
    requires Valid(db2) && HasColumn(db2, w.table, relaxed) && !db2.tables[w.table].columns[relaxed].nullable
    ensures Apply(SetNullable(w.table, relaxed, false), WithNullable(db2, w.table, relaxed, true)) == Some(db2)
  {
    var t := db2.tables[w.table];
    var db3 := WithNullable(db2, w.table, relaxed, true);
    forall i | 0 <= i < |t.rows|
      ensures relaxed in t.rows[i] && t.rows[i][relaxed] != Null
    {
      assert RowFits(t.rows[i], t.columns);
    }
    var back := db3.tables[w.table].columns[relaxed].(nullable := false);
    assert back == t.columns[relaxed];
    assert db3.tables[w.table].columns[relaxed := back] == t.columns;
    assert db3.tables[w.table := t] == db2.tables;
  }

  lemma DropIndexUndoesCreate(db1: Db, table: string, column: string, index: string)
    requires !Taken(db1, index)
    ensures Apply(DropIndex(index), WithIndex(db1, table, column, index)) == Some(db1)
  {
    assert db1.indexes[index := Index(table, [column], false)] - {index} == db1.indexes;
  }

  lemma RelaxSucceeds(db: Db, w: Widening, column: string, spec: Column, index: string, relaxed: string)
    requires Valid(db) && Adds(w, column) && FitsColumn(spec.default, spec) && relaxed != column
    requires BeforeRelax(db, w, column, index, relaxed)
    ensures Run(Some(db), Relax(w, column, spec, index, relaxed)).Some?
    ensures Run(Run(Some(db), Relax(w, column, spec, index, relaxed)), Tighten(w, column, index, relaxed)) == Some(db)
  {
    var db1, db2, db3 := RelaxColumns(db, w, column, spec, index, relaxed);
    assert IndexFits(db3, db3.indexes[w.name]);
    WidenAndBack(db3, w);
    var ups := [AddColumn(w.table, column, spec), CreateIndex(w.table, index, [column]), SetNullable(w.table, relaxed, true)];
    RunAppend(Some(db), ups, Rekey(w.New()));
    var up := Rekeyed(db3, [w.New()]);
    var downs := [SetNullable(w.table, relaxed, false), DropIndex(index), DropColumn(w.table, column)];
    RunAppend(Some(up), Rekey(w.Old()), downs);
    RunThree(Some(db3), downs[0], downs[1], downs[2]);
    TightenUndoesRelax(db2, w, relaxed);
    DropIndexUndoesCreate(db1, w.table, column, index);
    DropUndoesAdd(db, w.table, column, spec);
  }

  /** The state of the revision: the new key, the column with its index. */
  ghost predicate AfterRelax(db: Db, w: Widening, column: string, index: string, relaxed: string) {
    && Stored(db, w.New())
    && index in db.indexes && !db.indexes[index].unique
    && HasColumn(db, w.table, relaxed)
  }

  lemma TailSucceeds(db: Db, w: Widening, column: string, index: string, relaxed: string)
    requires HasColumn(db, w.table, relaxed) && HasColumn(db, w.table, column)
    requires index in db.indexes && !db.indexes[index].unique
    ensures Run(Some(db), [SetNullable(w.table, relaxed, false), DropIndex(index), DropColumn(w.table, column)]).None?
      <==> HasNull(db.tables[w.table], relaxed)
  {
    RunThree(Some(db), SetNullable(w.table, relaxed, false), DropIndex(index), DropColumn(w.table, column));
  }

  lemma TightenFailsExactly(db: Db, w: Widening, column: string, index: string, relaxed: string)
    requires Valid(db) && Adds(w, column) && AfterRelax(db, w, column, index, relaxed)
    ensures Run(Some(db), Tighten(w, column, index, relaxed)).None? <==>
      SomeCollision(db, w) || HasNull(db.tables[w.table], relaxed)
  {
    NarrowExactly(db, w);
    assert IndexFits(db, db.indexes[w.name]) && column in w.wide;
    var downs := [SetNullable(w.table, relaxed, false), DropIndex(index), DropColumn(w.table, column)];
    RunAppend(Some(db), Rekey(w.Old()), downs);
    if SomeCollision(db, w) {
      RunOfFailed(downs);
    } else {
      TailSucceeds(Rekeyed(db, [w.Old()]), w, column, index, relaxed);
    }
  }

  lemma EspecieAcaoIsAdded()
    ensures Adds(CLASSES, ESPECIE) && ESPECIE != TIPO
  {
  }

  function Up20260623_004(): seq<Op> {
    Relax(CLASSES, ESPECIE, ESPECIE_ACAO, ESPECIE_INDEX, TIPO)
  }

  function Down20260623_004(): seq<Op> {
    Tighten(CLASSES, ESPECIE, ESPECIE_INDEX, TIPO)
  }

  /** The upgrade succeeds whatever the rows, and the downgrade right after it
      restores the database. */
  lemma Upgrade20260623IsUndone(db: Db)
    requires Valid(db) && BeforeRelax(db, CLASSES, ESPECIE, ESPECIE_INDEX, TIPO)
    ensures Run(Some(db), Up20260623_004()).Some?
    ensures Run(Run(Some(db), Up20260623_004()), Down20260623_004()) == Some(db)
  {
    EspecieAcaoIsAdded();
    RelaxSucceeds(db, CLASSES, ESPECIE, ESPECIE_ACAO, ESPECIE_INDEX, TIPO);
  }

  lemma RelaxedTables(db: Db, w: Widening, column: string, spec: Column, index: string, relaxed: string) returns (up: Db, db3: Db)
    requires Valid(db) && Adds(w, column) && FitsColumn(spec.default, spec) && relaxed != column
    requires BeforeRelax(db, w, column, index, relaxed)
    ensures Run(Some(db), Relax(w, column, spec, index, relaxed)) == Some(up) && up.tables == db3.tables
    ensures index != w.name && index in up.indexes && up.indexes[index] == Index(w.table, [column], false)
    ensures HasColumn(WithIndex(WithColumn(db, w.table, column, spec), w.table, column, index), w.table, relaxed)
    ensures db3 == WithNullable(WithIndex(WithColumn(db, w.table, column, spec), w.table, column, index), w.table, relaxed, true)
  {
    var db1, db2;
    db1, db2, db3 := RelaxColumns(db, w, column, spec, index, relaxed);
    assert IndexFits(db3, db3.indexes[w.name]);
    WidenAndBack(db3, w);
    RunAppend(Some(db), [AddColumn(w.table, column, spec), CreateIndex(w.table, index, [column]), SetNullable(w.table, relaxed, true)], Rekey(w.New()));
    up := Rekeyed(db3, [w.New()]);
    RekeyedElsewhere(db3, [w.New()], index);
    assert Names([w.New()]) == {w.name};
  }

  /** The rows there are get NULL in especie_acao, which is indexed, and
      tipo_classe_acao_preferencial may be NULL from now on. */
  lemma EspecieAcaoIsNull(db: Db)
    requires Valid(db) && BeforeRelax(db, CLASSES, ESPECIE, ESPECIE_INDEX, TIPO)
    ensures "fre_plano_recompra_classes_acoes" in db.tables
    ensures var up := Run(Some(db), Up20260623_004());
      && up.Some? && "fre_plano_recompra_classes_acoes" in up.value.tables
      && var before, after := db.tables["fre_plano_recompra_classes_acoes"], up.value.tables["fre_plano_recompra_classes_acoes"];
      && (forall i :: 0 <= i < |before.rows| ==> i < |after.rows| && after.rows[i] == before.rows[i]["especie_acao" := Null])
      && "especie_acao" in after.columns && after.columns["especie_acao"] == Column(Text, true, Null)
      && "tipo_classe_acao_preferencial" in after.columns && after.columns["tipo_classe_acao_preferencial"].nullable
      && "ix_fre_plano_recompra_classes_acoes_especie_acao" in up.value.indexes
      && up.value.indexes["ix_fre_plano_recompra_classes_acoes_especie_acao"] == Index("fre_plano_recompra_classes_acoes", ["especie_acao"], false)
  {
    EspecieAcaoIsAdded();
    var up, db3 := RelaxedTables(db, CLASSES, ESPECIE, ESPECIE_ACAO, ESPECIE_INDEX, TIPO);
  }

  /** Rows that are older than the column never collide on the new key, not even
      rows that are equal in every other column. */
  lemma OldRowsNeverCollide(rows: seq<Row>)
    ensures UniqueOver(FillColumn(rows, ESPECIE, ESPECIE_ACAO.default), CLASSES.wide)
  {
    EspecieAcaoIsAdded();
    NullNeverCollides(rows, CLASSES, ESPECIE);
  }

  /** After further writes the downgrade fails exactly when two rows collide on the
      old key or a row has no tipo_classe_acao_preferencial. */
  lemma Downgrade20260623FailsExactly(db: Db)
    requires Valid(db) && AfterRelax(db, CLASSES, ESPECIE, ESPECIE_INDEX, TIPO)
    ensures Run(Some(db), Down20260623_004()).None? <==>
      SomeCollision(db, CLASSES) || HasNull(db.tables[CLASSES.table], TIPO)
  {
    EspecieAcaoIsAdded();
    TightenFailsExactly(db, CLASSES, ESPECIE, ESPECIE_INDEX, TIPO);
  }

  method Upgrade20260623_004(op: Operations)
    modifies op
    ensures op.Outcome() == Run(old(op.Outcome()), Up20260623_004())
  {
    var w := CLASSES;
    ghost var a, b, c := AddColumn(w.table, ESPECIE, ESPECIE_ACAO), CreateIndex(w.table, ESPECIE_INDEX, [ESPECIE]), SetNullable(w.table, TIPO, true);
    op.Do(AddColumn(w.table, ESPECIE, ESPECIE_ACAO));
    op.Do(CreateIndex(w.table, ESPECIE_INDEX, [ESPECIE]));
    op.Do(SetNullable(w.table, TIPO, true));
    RunThree(old(op.Outcome()), a, b, c);
    RunAppend(old(op.Outcome()), [a, b, c], Rekey(w.New()));
    Replace(op, w.New());
  }

  method Downgrade20260623_004(op: Operations)
    modifies op
    ensures op.Outcome() == Run(old(op.Outcome()), Down20260623_004())
  {
    var w := CLASSES;
    ghost var a, b, c := SetNullable(w.table, TIPO, false), DropIndex(ESPECIE_INDEX), DropColumn(w.table, ESPECIE);
    Replace(op, w.Old());
    RunAppend(old(op.Outcome()), Rekey(w.Old()), [a, b, c]);
    RunThree(op.Outcome(), a, b, c);
    op.Do(SetNullable(w.table, TIPO, false));
    op.Do(DropIndex(ESPECIE_INDEX));
    op.Do(DropColumn(w.table, ESPECIE));
  }
}
