/** No operation of a migration can leave a database in which a row misses a
    column or breaks its type, a NOT NULL, or a unique key, an index outlives its
    table or columns, or two relations share a name. */
module Integrity {
  import opened Options
  import opened Database

  // ----- Rounding -----

  /** Rounding gives a value with that many decimals: rounding again changes nothing. */
  lemma RoundingSettles(v: real, scale: nat)
    ensures Units(RoundTo(v, scale), scale) == Units(v, scale)
    ensures RoundTo(RoundTo(v, scale), scale) == RoundTo(v, scale)
  {
  }

  /** A value with that many decimals, as a count of the last one, that is nearest; of
      two equally near ones the one farther from zero. */
  lemma RoundingIsNearest(v: real, scale: nat)
    ensures var x := v * (Pow10(scale) as real); var u := Units(v, scale) as real;
      && -0.5 <= u - x <= 0.5
      && (u - x == 0.5 ==> x >= 0.0) && (u - x == -0.5 ==> x <= 0.0)
    ensures Pow10(scale) > 0 && RoundTo(v, scale) * (Pow10(scale) as real) == Units(v, scale) as real
    ensures Pow10(0) == 1 && Pow10(scale + 1) == 10 * Pow10(scale)
  {
    Pow10Positive(scale);
  }

  lemma RoundedFits(c: Cell, column: Column, precision: nat, scale: nat)
    requires FitsColumn(c, column) && column.kind.Numeric?
    requires c.Num? ==> InRange(c.value, precision, scale)
    ensures FitsColumn(RoundCell(c, scale), column.(kind := Numeric(precision, scale)))
  {
    if c.Num? {
      RoundingSettles(c.value, scale);
    }
  }

  // ----- Tables -----

  /** A row that fits its columns keeps fitting when one column and its cell are replaced together. */
  lemma SetColumnFits(r: Row, columns: map<string, Column>, column: string, cell: Cell, spec: Column)
    requires RowFits(r, columns) && FitsColumn(cell, spec)
    ensures RowFits(r[column := cell], columns[column := spec])
  {
  }

  lemma AddColumnFits(t: Table, column: string, spec: Column)
    requires TableFits(t) && (FitsColumn(spec.default, spec) || t.rows == [])
    ensures TableFits(Table(t.columns[column := spec], FillColumn(t.rows, column, spec.default)))
  {
  }

  predicate HasNull(t: Table, column: string) {
    exists i :: 0 <= i < |t.rows| && column in t.rows[i] && t.rows[i][column] == Null
  }

  lemma SetNumericFits(t: Table, column: string, precision: nat, scale: nat)
    requires TableFits(t) && column in t.columns && t.columns[column].kind.Numeric?
    requires NumericFits(t.rows, column, precision, scale)
    ensures TableFits(Table(t.columns[column := t.columns[column].(kind := Numeric(precision, scale))],
                            RoundColumn(t.rows, column, scale)))
  {
    forall i | 0 <= i < |t.rows|
      ensures RowFits(RoundColumn(t.rows, column, scale)[i], t.columns[column := t.columns[column].(kind := Numeric(precision, scale))])
    {
      var r := t.rows[i];
      assert RowFits(r, t.columns);
      RoundedFits(r[column], t.columns[column], precision, scale);
      SetColumnFits(r, t.columns, column, RoundCell(r[column], scale), t.columns[column].(kind := Numeric(precision, scale)));
    }
  }

  lemma {:induction false} UpdatedFits(rows: seq<Row>, columns: map<string, Column>, column: string, value: Cell, condition: Row -> Option<bool>)
    requires forall i :: 0 <= i < |rows| ==> RowFits(rows[i], columns)
    requires column in columns && FitsColumn(value, columns[column])
    ensures var u := Updated(rows, column, value, condition);
      u.Some? ==> |u.value| == |rows| && forall i :: 0 <= i < |rows| ==> RowFits(u.value[i], columns)
  {
    if rows != [] {
      UpdatedFits(rows[1..], columns, column, value, condition);
      assert RowFits(rows[0], columns);
      SetColumnFits(rows[0], columns, column, value, columns[column]);
      assert columns[column := columns[column]] == columns;
    }
  }

  // ----- Keys -----

  lemma KeysSurvive(rows: seq<Row>, rows': seq<Row>, cols: seq<string>)
    requires UniqueOver(rows, cols) && |rows'| == |rows|
    requires forall i, c :: 0 <= i < |rows| && c in cols && c in rows'[i] ==> c in rows[i] && rows[i][c] == rows'[i][c]
    ensures UniqueOver(rows', cols)
  {
    forall i, j | 0 <= i < j < |rows'|
      ensures !AgreeOn(rows'[i], rows'[j], cols)
    {
      assert !AgreeOn(rows[i], rows[j], cols);
    }
  }

  /** Replacing one table of a valid database by one that still has the columns of
      its indexes, and rows that meet its keys, keeps it valid. */
  lemma ReplaceTable(db: Db, table: string, t: Table)
    requires Valid(db) && table in db.tables && TableFits(t)
    requires forall n :: n in db.indexes && db.indexes[n].table == table ==>
      (forall c :: c in db.indexes[n].cols ==> c in t.columns) && (db.indexes[n].unique ==> UniqueOver(t.rows, db.indexes[n].cols))
    ensures Valid(db.(tables := db.tables[table := t]))
  {
  }

  lemma AddColumnKeepsValid(db: Db, table: string, column: string, spec: Column)
    requires Valid(db) && Apply(AddColumn(table, column, spec), db).Some?
    ensures Valid(Apply(AddColumn(table, column, spec), db).value)
  {
    var t := db.tables[table];
    AddColumnFits(t, column, spec);
    forall n | n in db.indexes && db.indexes[n].table == table && db.indexes[n].unique
      ensures UniqueOver(FillColumn(t.rows, column, spec.default), db.indexes[n].cols)
    {
      assert IndexFits(db, db.indexes[n]);
      KeysSurvive(t.rows, FillColumn(t.rows, column, spec.default), db.indexes[n].cols);
    }
    forall n | n in db.indexes && db.indexes[n].table == table
      ensures forall c :: c in db.indexes[n].cols ==> c in t.columns
    {
      assert IndexFits(db, db.indexes[n]);
    }
    ReplaceTable(db, table, Table(t.columns[column := spec], FillColumn(t.rows, column, spec.default)));
  }

  lemma DropColumnKeepsValid(db: Db, table: string, column: string)
    requires Valid(db) && Apply(DropColumn(table, column), db).Some?
    ensures Valid(Apply(DropColumn(table, column), db).value)
  {
  }

  lemma SetNullableKeepsValid(db: Db, table: string, column: string, nullable: bool)
    requires Valid(db) && Apply(SetNullable(table, column, nullable), db).Some?
    ensures Valid(Apply(SetNullable(table, column, nullable), db).value)
  {
  }

  lemma SetNumericKeepsValid(db: Db, table: string, column: string, precision: nat, scale: nat)
    requires Valid(db) && Apply(SetNumeric(table, column, precision, scale), db).Some?
    ensures Valid(Apply(SetNumeric(table, column, precision, scale), db).value)
  {
    var t := db.tables[table];
    SetNumericFits(t, column, precision, scale);
    forall n | n in db.indexes && db.indexes[n].table == table
      ensures IndexFits(db, db.indexes[n])
    {
    }
    ReplaceTable(db, table, Table(t.columns[column := t.columns[column].(kind := Numeric(precision, scale))],
                                  RoundColumn(t.rows, column, scale)));
  }

  lemma UpdateKeepsValid(db: Db, table: string, column: string, value: Cell, condition: Row -> Option<bool>)
    requires Valid(db) && Apply(Update(table, column, value, condition), db).Some?
    ensures Valid(Apply(Update(table, column, value, condition), db).value)
  {
    var t := db.tables[table];
    UpdatedFits(t.rows, t.columns, column, value, condition);
    forall n | n in db.indexes && db.indexes[n].table == table
      ensures IndexFits(db, db.indexes[n])
    {
    }
    ReplaceTable(db, table, t.(rows := Updated(t.rows, column, value, condition).value));
  }

  lemma RenameTableKeepsValid(db: Db, table: string, newName: string)
    requires Valid(db) && Apply(RenameTable(table, newName), db).Some?
    ensures Valid(Apply(RenameTable(table, newName), db).value)
  {
  }

  lemma DropTableKeepsValid(db: Db, table: string)
    requires Valid(db) && Apply(DropTable(table), db).Some?
    ensures Valid(Apply(DropTable(table), db).value)
  {
  }

  /** A change of the indexes alone: every new entry fits and takes no table's name. */
  lemma IndexChangeKeepsValid(db: Db, op: Op)
    requires Valid(db) && Apply(op, db).Some?
    requires op.DropConstraint? || op.CreateUnique? || op.CreateIndex? || op.CreateIndexIfNotExists?
      || op.DropIndex? || op.DropIndexIfExists? || op.RenameIndexIfExists? || op.CreateTable?
    ensures Valid(Apply(op, db).value)
  {
    var db' := Apply(op, db).value;
    forall n | n in db'.indexes
      ensures n !in db'.tables && IndexFits(db', db'.indexes[n])
    {
      assert n in db.indexes ==> IndexFits(db, db.indexes[n]);
      if op.RenameIndexIfExists? && op.name in db.indexes {
        assert IndexFits(db, db.indexes[op.name]);
      }
    }
  }

  /** Every operation that the server accepts keeps the database valid. */
  lemma ApplyKeepsValid(op: Op, db: Db)
    requires Valid(db) && Apply(op, db).Some?
    ensures Valid(Apply(op, db).value)
  {
    match op
    case AddColumn(t, c, spec) => AddColumnKeepsValid(db, t, c, spec);
    case DropColumn(t, c) => DropColumnKeepsValid(db, t, c);
    case SetNullable(t, c, nullable) => SetNullableKeepsValid(db, t, c, nullable);
    case SetNumeric(t, c, p, s) => SetNumericKeepsValid(db, t, c, p, s);
    case RenameTable(t, t') => RenameTableKeepsValid(db, t, t');
    case DropTable(t) => DropTableKeepsValid(db, t);
    case Update(t, c, v, condition) => UpdateKeepsValid(db, t, c, v, condition);
    case _ => IndexChangeKeepsValid(db, op);
  }

  /** So does every migration that runs to its end. */
  lemma {:induction false} RunKeepsValid(state: Option<Db>, ops: seq<Op>)
    requires state.Some? ==> Valid(state.value)
    ensures Run(state, ops).Some? ==> Valid(Run(state, ops).value)
    decreases |ops|
  {
    if ops != [] {
      if Then(state, ops[0]).Some? {
        ApplyKeepsValid(ops[0], state.value);
      }
      RunKeepsValid(Then(state, ops[0]), ops[1..]);
    }
  }

  /** Every database that operations build from nothing is valid. */
  lemma BuiltDatabasesAreValid(ops: seq<Op>)
    ensures Run(Some(Db(map[], map[])), ops).Some? ==> Valid(Run(Some(Db(map[], map[])), ops).value)
  {
    RunKeepsValid(Some(Db(map[], map[])), ops);
  }
}
