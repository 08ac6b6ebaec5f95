/** UPDATE statements that rewrite one column of the rows meeting a condition. */
module Rewrites {
  import opened Options
  import opened Database

  type Condition = Row -> Option<bool>

  /** The condition raises on some row. */
  ghost predicate Raises(rows: seq<Row>, condition: Condition) {
    exists i :: 0 <= i < |rows| && condition(rows[i]).None?
  }

  function Rewritten(r: Row, column: string, value: Cell, condition: Condition): Row {
    if condition(r) == Some(true) then r[column := value] else r
  }

  function RewrittenAll(rows: seq<Row>, column: string, value: Cell, condition: Condition): (r: seq<Row>)
    ensures |r| == |rows| && forall i :: 0 <= i < |rows| ==> r[i] == Rewritten(rows[i], column, value, condition)
  {
    seq(|rows|, i requires 0 <= i < |rows| => Rewritten(rows[i], column, value, condition))
  }

  /** The statement fails exactly when its condition raises on some row; otherwise
      it keeps the number and order of the rows and rewrites exactly those that
      meet the condition. */
  lemma {:induction false} UpdatedExactly(rows: seq<Row>, column: string, value: Cell, condition: Condition)
    ensures var u := Updated(rows, column, value, condition);
      && (u.None? <==> Raises(rows, condition))
      && (u.Some? ==> |u.value| == |rows| && forall i :: 0 <= i < |rows| ==> u.value[i] == Rewritten(rows[i], column, value, condition))
  {
    if rows != [] {
      var rest := rows[1..];
      UpdatedExactly(rest, column, value, condition);
      assert rows == [rows[0]] + rest;
      if Raises(rest, condition) {
        var i :| 0 <= i < |rest| && condition(rest[i]).None?;
        assert condition(rows[i + 1]).None?;
      }
    }
  }

  /** No unique index of the table uses the column. */
  predicate KeysAvoid(db: Db, table: string, column: string) {
    forall n :: n in db.indexes && db.indexes[n].table == table && db.indexes[n].unique ==> column !in db.indexes[n].cols
  }

  predicate Rewritable(db: Db, table: string, column: string, value: Cell) {
    HasColumn(db, table, column) && FitsColumn(value, db.tables[table].columns[column]) && KeysAvoid(db, table, column)
  }

  lemma RewrittenKeepsKey(rows: seq<Row>, rows': seq<Row>, column: string, cols: seq<string>)
    requires UniqueOver(rows, cols) && column !in cols && |rows'| == |rows|
    requires forall i, c :: 0 <= i < |rows| && c != column && c in rows'[i] ==> c in rows[i] && rows[i][c] == rows'[i][c]
    ensures UniqueOver(rows', cols)
  {
    forall i, j | 0 <= i < j < |rows'|
      ensures !AgreeOn(rows'[i], rows'[j], cols)
    {
      assert !AgreeOn(rows[i], rows[j], cols);
    }
  }

  lemma KeysHoldAfter(db: Db, table: string, column: string, value: Cell, condition: Condition, rows': seq<Row>)
    requires Valid(db) && Rewritable(db, table, column, value)
    requires Updated(db.tables[table].rows, column, value, condition) == Some(rows')
    ensures KeysHold(db, table, rows')
  {
    var rows := db.tables[table].rows;
    UpdatedExactly(rows, column, value, condition);
    forall n | n in db.indexes && db.indexes[n].table == table && db.indexes[n].unique
      ensures UniqueOver(rows', db.indexes[n].cols)
    {
      assert IndexFits(db, db.indexes[n]);
      RewrittenKeepsKey(rows, rows', column, db.indexes[n].cols);
    }
  }

  lemma ApplyUpdate(db: Db, table: string, column: string, value: Cell, condition: Condition, u: Option<seq<Row>>)
    requires HasColumn(db, table, column) && FitsColumn(value, db.tables[table].columns[column])
    requires u == Updated(db.tables[table].rows, column, value, condition)
    requires u.Some? ==> KeysHold(db, table, u.value)
    ensures Apply(Update(table, column, value, condition), db) == if u.Some? then Some(SetRows(db, table, u.value)) else None
  {
  }

  /** On a valid database whose keys do not use the column the statement succeeds
      exactly when its condition never raises, and changes nothing but that column. */
  lemma UpdateRuns(db: Db, table: string, column: string, value: Cell, condition: Condition) returns (u: Option<seq<Row>>)
    requires Valid(db) && Rewritable(db, table, column, value)
    ensures u == Updated(db.tables[table].rows, column, value, condition)
    ensures Apply(Update(table, column, value, condition), db) == if u.Some? then Some(SetRows(db, table, u.value)) else None
    ensures u.None? <==> Raises(db.tables[table].rows, condition)
    ensures u.Some? ==> |u.value| == |db.tables[table].rows|
    ensures u.Some? ==> forall i :: 0 <= i < |u.value| ==> u.value[i] == Rewritten(db.tables[table].rows[i], column, value, condition)
  {
    UpdatedExactly(db.tables[table].rows, column, value, condition);
    u := Updated(db.tables[table].rows, column, value, condition);
    if u.Some? {
      KeysHoldAfter(db, table, column, value, condition, u.value);
    }
    ApplyUpdate(db, table, column, value, condition, u);
  }

  lemma RowsSetTwice(db: Db, table: string, a: seq<Row>, b: seq<Row>)
    requires table in db.tables
    ensures SetRows(SetRows(db, table, a), table, b) == SetRows(db, table, b)
    ensures SetRows(db, table, db.tables[table].rows) == db
    ensures SetRows(db, table, a) == db <==> a == db.tables[table].rows
  {
  }

  predicate Holds(r: Row, column: string, text: string) {
    column in r && r[column] == Str(text)
  }
}
