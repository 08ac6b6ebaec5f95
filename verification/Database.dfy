/** A PostgreSQL schema with its rows, as far as the migrations under
    alembic/versions change it, and the operations they are written in.

    A unique constraint is the unique index that backs it. Tables and indexes
    share one name space. Two rows collide on a key only if they agree on every
    column of it and none of those is NULL. */
module Database {
  import opened Options

  datatype Cell = Null | Str(text: string) | Num(value: real) | Document(fields: map<string, string>)

  type Row = map<string, Cell>

  datatype Kind = Text | Varchar(length: nat) | Uuid | Integer | BigInteger | Timestamp | Numeric(precision: nat, scale: nat) | Json

  /** `default` is what existing rows get when the column is added; Null when there is none. */
  datatype Column = Column(kind: Kind, nullable: bool, default: Cell)

  datatype Table = Table(columns: map<string, Column>, rows: seq<Row>)

  datatype Index = Index(table: string, cols: seq<string>, unique: bool)

  datatype Db = Db(tables: map<string, Table>, indexes: map<string, Index>)

  function Reversed<T(!new)>(xs: seq<T>): (r: seq<T>)
    ensures |r| == |xs| && forall i :: 0 <= i < |r| ==> r[i] == xs[|xs| - 1 - i]
    ensures forall x :: x in r <==> x in xs
  {
    var r := seq(|xs|, i requires 0 <= i < |xs| => xs[|xs| - 1 - i]);
    assert forall i :: 0 <= i < |xs| ==> r[|xs| - 1 - i] == xs[i];
    r
  }

  // ----- Keys -----

  predicate AgreeOn(r: Row, q: Row, cols: seq<string>) {
    forall c :: c in cols ==> c in r && c in q && r[c] == q[c] && r[c] != Null
  }

  predicate UniqueOver(rows: seq<Row>, cols: seq<string>) {
    forall i, j :: 0 <= i < j < |rows| ==> !AgreeOn(rows[i], rows[j], cols)
  }

  /** Every unique index of the table holds on these rows. */
  predicate KeysHold(db: Db, table: string, rows: seq<Row>) {
    forall n :: n in db.indexes && db.indexes[n].table == table && db.indexes[n].unique ==> UniqueOver(rows, db.indexes[n].cols)
  }

  // ----- Numeric columns -----

  function Pow10(n: nat): nat {
    if n == 0 then 1 else 10 * Pow10(n - 1)
  }

  /** The value at the given scale, as a count of its last decimal place, rounded half away from zero. */
  function Units(v: real, scale: nat): int {
    var x := v * (Pow10(scale) as real);
    if x >= 0.0 then (x + 0.5).Floor else -((0.5 - x).Floor)
  }

  lemma Pow10Positive(n: nat)
    ensures Pow10(n) > 0
  {
  }

  function RoundTo(v: real, scale: nat): real {
    Pow10Positive(scale);
    Units(v, scale) as real / (Pow10(scale) as real)
  }

  predicate InRange(v: real, precision: nat, scale: nat) {
    0 - Pow10(precision) < Units(v, scale) < Pow10(precision)
  }

  /** v is a value of numeric(precision, scale). */
  predicate Representable(v: real, precision: nat, scale: nat) {
    RoundTo(v, scale) == v && InRange(v, precision, scale)
  }

  predicate FitsColumn(c: Cell, column: Column) {
    && (c == Null ==> column.nullable)
    && (column.kind.Numeric? ==> c == Null || (c.Num? && Representable(c.value, column.kind.precision, column.kind.scale)))
  }

  // ----- What every state keeps -----

  predicate RowFits(r: Row, columns: map<string, Column>) {
    r.Keys == columns.Keys && forall c :: c in columns ==> FitsColumn(r[c], columns[c])
  }

  predicate TableFits(t: Table) {
    forall i :: 0 <= i < |t.rows| ==> RowFits(t.rows[i], t.columns)
  }

  predicate IndexFits(db: Db, x: Index) {
    && x.table in db.tables
    && (forall c :: c in x.cols ==> c in db.tables[x.table].columns)
    && (x.unique ==> UniqueOver(db.tables[x.table].rows, x.cols))
  }

  predicate Taken(db: Db, name: string) {
    name in db.tables || name in db.indexes
  }

  predicate Valid(db: Db) {
    && (forall t :: t in db.tables ==> t !in db.indexes && TableFits(db.tables[t]))
    && (forall n :: n in db.indexes ==> IndexFits(db, db.indexes[n]))
  }

  // ----- Operations -----

  datatype Op =
    | AddColumn(table: string, column: string, spec: Column)
    | DropColumn(table: string, column: string)
    | SetNullable(table: string, column: string, nullable: bool)
    | SetNumeric(table: string, column: string, precision: nat, scale: nat)
    | DropConstraint(table: string, name: string)
    | CreateUnique(table: string, name: string, cols: seq<string>)
    | CreateIndex(table: string, name: string, cols: seq<string>)
    | CreateIndexIfNotExists(table: string, name: string, cols: seq<string>)
    | DropIndex(name: string)
    | DropIndexIfExists(name: string)
    | RenameTable(table: string, newName: string)
    | RenameIndexIfExists(name: string, newName: string)
    | CreateTable(table: string, columns: map<string, Column>)
    | DropTable(table: string)
    // UPDATE table SET column = value WHERE condition; the condition may raise
    | Update(table: string, column: string, value: Cell, condition: Row -> Option<bool>)

  function SetRows(db: Db, table: string, rows: seq<Row>): Db
    requires table in db.tables
  {
    db.(tables := db.tables[table := db.tables[table].(rows := rows)])
  }

  function SetColumn(db: Db, table: string, column: string, spec: Column): Db
    requires table in db.tables
  {
    var t := db.tables[table];
    db.(tables := db.tables[table := t.(columns := t.columns[column := spec])])
  }

  predicate HasColumn(db: Db, table: string, column: string) {
    table in db.tables && column in db.tables[table].columns
  }

  predicate HasColumns(db: Db, table: string, cols: seq<string>) {
    table in db.tables && forall c :: c in cols ==> c in db.tables[table].columns
  }

  function FillColumn(rows: seq<Row>, column: string, value: Cell): (r: seq<Row>)
    ensures |r| == |rows|
    ensures forall i :: 0 <= i < |r| ==> r[i] == rows[i][column := value]
  {
    seq(|rows|, i requires 0 <= i < |rows| => rows[i][column := value])
  }

  function ClearColumn(rows: seq<Row>, column: string): (r: seq<Row>)
    ensures |r| == |rows|
    ensures forall i :: 0 <= i < |r| ==> r[i] == rows[i] - {column}
  {
    seq(|rows|, i requires 0 <= i < |rows| => rows[i] - {column})
  }

  function RoundCell(c: Cell, scale: nat): Cell {
    if c.Num? then Num(RoundTo(c.value, scale)) else c
  }

  predicate NumericFits(rows: seq<Row>, column: string, precision: nat, scale: nat) {
    forall i :: 0 <= i < |rows| && column in rows[i] && rows[i][column].Num? ==> InRange(rows[i][column].value, precision, scale)
  }

  function RoundColumn(rows: seq<Row>, column: string, scale: nat): (r: seq<Row>)
    ensures |r| == |rows|
    ensures forall i :: 0 <= i < |r| ==>
      r[i] == if column in rows[i] then rows[i][column := RoundCell(rows[i][column], scale)] else rows[i]
  {
    seq(|rows|, i requires 0 <= i < |rows| =>
      if column in rows[i] then rows[i][column := RoundCell(rows[i][column], scale)] else rows[i])
  }

  /** The rows after an UPDATE; None when the condition raises on a row. */
  function Updated(rows: seq<Row>, column: string, value: Cell, condition: Row -> Option<bool>): Option<seq<Row>> {
    if rows == [] then Some([])
    else match (condition(rows[0]), Updated(rows[1..], column, value, condition))
      case (Some(b), Some(rest)) => Some([if b then rows[0][column := value] else rows[0]] + rest)
      case _ => None
  }

  predicate MentionsColumn(x: Index, table: string, column: string) {
    x.table == table && column in x.cols
  }

  function WithoutColumn(indexes: map<string, Index>, table: string, column: string): map<string, Index> {
    map n | n in indexes && !MentionsColumn(indexes[n], table, column) :: indexes[n]
  }

  function RetargetIndexes(indexes: map<string, Index>, from: string, newName: string): map<string, Index> {
    map n | n in indexes :: if indexes[n].table == from then indexes[n].(table := newName) else indexes[n]
  }

  /** One operation; None when the server refuses it. */
  function Apply(op: Op, db: Db): Option<Db> {
    match op
    case AddColumn(t, c, spec) =>
      if t !in db.tables || c in db.tables[t].columns then None
      // existing rows get the default, which must be a value of the column
      else if !FitsColumn(spec.default, spec) && db.tables[t].rows != [] then None
      else Some(SetColumn(SetRows(db, t, FillColumn(db.tables[t].rows, c, spec.default)), t, c, spec))
    case DropColumn(t, c) =>
      if !HasColumn(db, t, c) then None
      else
        // indexes and constraints that involve the column go with it
        Some(Db(db.tables[t := Table(db.tables[t].columns - {c}, ClearColumn(db.tables[t].rows, c))],
                WithoutColumn(db.indexes, t, c)))
    case SetNullable(t, c, nullable) =>
      if !HasColumn(db, t, c) then None
      else if !nullable && exists i :: 0 <= i < |db.tables[t].rows| && c in db.tables[t].rows[i] && db.tables[t].rows[i][c] == Null then None
      else Some(SetColumn(db, t, c, db.tables[t].columns[c].(nullable := nullable)))
    case SetNumeric(t, c, p, s) =>
      if !HasColumn(db, t, c) || !db.tables[t].columns[c].kind.Numeric? || !NumericFits(db.tables[t].rows, c, p, s) then None
      else
        var rows := RoundColumn(db.tables[t].rows, c, s);
        if KeysHold(db, t, rows)
        then Some(SetColumn(SetRows(db, t, rows), t, c, db.tables[t].columns[c].(kind := Numeric(p, s))))
        else None
    case DropConstraint(t, n) =>
      if n in db.indexes && db.indexes[n].table == t && db.indexes[n].unique then Some(db.(indexes := db.indexes - {n})) else None
    case CreateUnique(t, n, cols) =>
      if Taken(db, n) || !HasColumns(db, t, cols) || !UniqueOver(db.tables[t].rows, cols) then None
      else Some(db.(indexes := db.indexes[n := Index(t, cols, true)]))
    case CreateIndex(t, n, cols) =>
      if Taken(db, n) || !HasColumns(db, t, cols) then None
      else Some(db.(indexes := db.indexes[n := Index(t, cols, false)]))
    case CreateIndexIfNotExists(t, n, cols) =>
      if !HasColumns(db, t, cols) then None
      else if Taken(db, n) then Some(db)
      else Some(db.(indexes := db.indexes[n := Index(t, cols, false)]))
    case DropIndex(n) =>
      // the index of a constraint cannot be dropped by itself
      if n in db.indexes && !db.indexes[n].unique then Some(db.(indexes := db.indexes - {n})) else None
    case DropIndexIfExists(n) =>
      if !Taken(db, n) then Some(db)
      else if n in db.indexes && !db.indexes[n].unique then Some(db.(indexes := db.indexes - {n}))
      else None
    case RenameTable(t, t') =>
      if t !in db.tables || Taken(db, t') then None
      else Some(Db((db.tables - {t})[t' := db.tables[t]], RetargetIndexes(db.indexes, t, t')))
    case RenameIndexIfExists(n, n') =>
      if !Taken(db, n) then Some(db)
      else if n !in db.indexes || Taken(db, n') then None
      else Some(db.(indexes := (db.indexes - {n})[n' := db.indexes[n]]))
    case CreateTable(t, columns) =>
      if Taken(db, t) then None else Some(db.(tables := db.tables[t := Table(columns, [])]))
    case DropTable(t) =>
      if t !in db.tables then None
      else Some(Db(db.tables - {t}, map n | n in db.indexes && db.indexes[n].table != t :: db.indexes[n]))
    case Update(t, c, v, condition) =>
      if !HasColumn(db, t, c) || !FitsColumn(v, db.tables[t].columns[c]) then None
      else match Updated(db.tables[t].rows, c, v, condition)
        case None => None
        case Some(rows) => if KeysHold(db, t, rows) then Some(SetRows(db, t, rows)) else None
  }

  /** The state of a migration run: None once an operation was refused, for the
      transaction is then rolled back. */
  function Then(state: Option<Db>, op: Op): Option<Db> {
    match state
    case Some(db) => Apply(op, db)
    case None => None
  }

  function Run(state: Option<Db>, ops: seq<Op>): Option<Db>
    decreases |ops|
  {
    if ops == [] then state else Run(Then(state, ops[0]), ops[1..])
  }

  lemma {:induction false} RunAppend(state: Option<Db>, a: seq<Op>, b: seq<Op>)
    ensures Run(state, a + b) == Run(Run(state, a), b)
    decreases |a|
  {
    if a == [] {
      assert a + b == b;
    } else {
      assert (a + b)[1..] == a[1..] + b;
      RunAppend(Then(state, a[0]), a[1..], b);
    }
  }

  lemma RunCons(state: Option<Db>, op: Op, rest: seq<Op>)
    ensures Run(state, [op] + rest) == Run(Then(state, op), rest)
    ensures Run(state, [op]) == Then(state, op)
  {
  }

  lemma {:induction false} RunOfFailed(ops: seq<Op>)
    ensures Run(None, ops) == None
    decreases |ops|
  {
    if ops != [] {
      RunOfFailed(ops[1..]);
    }
  }

  /** The migration context `op`: a connection inside one transaction. */
  class Operations {
    var db: Db
    var failed: bool

    constructor (db: Db)
      ensures Outcome() == Some(db)
    {
      this.db := db;
      failed := false;
    }

    function Outcome(): Option<Db>
      reads this
    {
      if failed then None else Some(db)
    }

    method Do(o: Op)
      modifies this
      ensures Outcome() == Then(old(Outcome()), o)
      ensures failed ==> db == old(db)
    {
      if !failed {
        var next := Apply(o, db);
        if next.Some? {
          db := next.value;
        } else {
          failed := true;
        }
      }
    }
  }
}
