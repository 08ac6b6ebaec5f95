/** 20260715_001: a table of acknowledged references, and the status of pending
    updates whose analysis found nothing to change. */
module PendingUpdates {
  import opened Options
  import opened Database
  import opened Integrity
  import opened Rewrites
  import opened TableIndexes

  const PENDING := "pending_updates"
  const STATUS := "status"
  const SUMMARY := "change_summary"
  const READY := "ready_for_ingestion"
  const UNCHANGED := "content_unchanged"
  const REFERENCE := "reference_updated"

  // ----- text::integer -----

  predicate Blank(c: char) {
    c == ' ' || '\t' <= c <= '\r'
  }

  function SkipLeft(s: string): string {
    if s != "" && Blank(s[0]) then SkipLeft(s[1..]) else s
  }

  function SkipRight(s: string): string {
    if s != "" && Blank(s[|s| - 1]) then SkipRight(s[..|s| - 1]) else s
  }

  function Digits(s: string, value: nat): Option<nat> {
    if s == "" then Some(value)
    else if '0' <= s[0] <= '9' then Digits(s[1..], value * 10 + (s[0] - '0') as nat)
    else None
  }

  /** The cast of PostgreSQL to a 32-bit integer; None when it raises. */
  function CastInteger(text: string): Option<int> {
    CastSigned(SkipRight(SkipLeft(text)))
  }

  function CastSigned(s: string): Option<int> {
    var negative := s != "" && s[0] == '-';
    var digits := if negative || (s != "" && s[0] == '+') then s[1..] else s;
    if digits == "" then None
    else
      match Digits(digits, 0)
      case None => None
      case Some(n) =>
        var m: int := if negative then 0 - n else n;
        if -0x8000_0000 <= m <= 0x7fff_ffff then Some(m) else None
  }

  // ----- The rewrite of the status -----

  /** COALESCE((change_summary ->> 'total_changes')::integer, -1); None when the cast
      raises. A summary that is not an object has no such field. */
  function TotalChanges(summary: Cell): Option<int> {
    if summary.Document? && "total_changes" in summary.fields then CastInteger(summary.fields["total_changes"]) else Some(-1)
  }

  function IsUnchanged(r: Row): Option<bool> {
    if !Holds(r, STATUS, READY) || SUMMARY !in r || r[SUMMARY] == Null then Some(false)
    else match TotalChanges(r[SUMMARY])
      case None => None
      case Some(n) => Some(n == 0)
  }

  predicate NewStatus(r: Row) {
    Holds(r, STATUS, UNCHANGED) || Holds(r, STATUS, REFERENCE)
  }

  function HasNewStatus(r: Row): Option<bool> {
    Some(NewStatus(r))
  }

  function UpRow(r: Row): Row {
    Rewritten(r, STATUS, Str(UNCHANGED), IsUnchanged)
  }

  function DownRow(r: Row): Row {
    Rewritten(r, STATUS, Str(READY), HasNewStatus)
  }

  /** A row comes back from up and down exactly when it did not have a new status before. */
  lemma UpDownOfRow(r: Row)
    ensures DownRow(UpRow(r)) == r <==> !NewStatus(r)
    ensures UpRow(r).Keys == r.Keys && forall c :: c in r && c != STATUS ==> UpRow(r)[c] == r[c]
  {
  }

  function UpRows(rows: seq<Row>): seq<Row> {
    RewrittenAll(rows, STATUS, Str(UNCHANGED), IsUnchanged)
  }

  function DownRows(rows: seq<Row>): seq<Row> {
    RewrittenAll(rows, STATUS, Str(READY), HasNewStatus)
  }

  lemma UpDownExactly(rows: seq<Row>)
    ensures DownRows(UpRows(rows)) == rows <==> forall i :: 0 <= i < |rows| ==> !NewStatus(rows[i])
  {
    forall i | 0 <= i < |rows|
      ensures DownRows(UpRows(rows))[i] == rows[i] <==> !NewStatus(rows[i])
    {
      UpDownOfRow(rows[i]);
    }
    if DownRows(UpRows(rows)) == rows {
      assert forall i :: 0 <= i < |rows| ==> DownRows(UpRows(rows))[i] == rows[i];
    }
  }

  // ----- The migration -----

  const REFERENCES := "acknowledged_artifact_references"
  const REFERENCES_KEY := "uq_acknowledged_artifact_reference_pending_resource"
  const REFERENCES_KEY_COLUMNS := ["pending_update_id", "resource_key"]

  const REFERENCES_COLUMNS: map<string, Column> := map[
    "id" := Column(Uuid, false, Null),
    "pending_update_id" := Column(Uuid, false, Null),
    "baseline_ingestion_run_id" := Column(Uuid, false, Null),
    "fonte" := Column(Varchar(50), false, Null),
    "ano" := Column(Integer, true, Null),
    "resource_url" := Column(Varchar(1000), false, Null),
    "resource_key" := Column(Varchar(64), false, Null),
    "remote_etag" := Column(Varchar(255), true, Null),
    "remote_last_modified" := Column(Varchar(255), true, Null),
    "remote_content_length" := Column(BigInteger, true, Null),
    "artifact_content_sha256" := Column(Varchar(64), true, Null),
    "member_fingerprint" := Column(Varchar(64), false, Null),
    "confirmation_method" := Column(Varchar(32), false, Null),
    "confirmed_by" := Column(Varchar(64), true, Null),
    "confirmed_at" := Column(Timestamp, false, Null),
    "created_at" := Column(Timestamp, false, Str("now()"))]

  const REFERENCES_INDEXES := [
    Named("ix_acknowledged_artifact_references_ano", ["ano"]),
    Named("ix_acknowledged_artifact_references_baseline_ingestion_run_id", ["baseline_ingestion_run_id"]),
    Named("ix_acknowledged_artifact_references_fonte", ["fonte"]),
    Named("ix_acknowledged_artifact_references_pending_update_id", ["pending_update_id"]),
    Named("ix_acknowledged_artifact_reference_scope_confirmed", ["fonte", "ano", "confirmed_at"])]

  function UpSchema(list: seq<Named>): seq<Op> {
    [CreateTable(REFERENCES, REFERENCES_COLUMNS), CreateUnique(REFERENCES, REFERENCES_KEY, REFERENCES_KEY_COLUMNS)] + Creates(REFERENCES, list)
  }

  function DownSchema(list: seq<Named>): seq<Op> {
    Drops(Reversed(list)) + [DropTable(REFERENCES)]
  }

  /** The statement runs on PostgreSQL only. */
  function UpStatus(postgresql: bool): seq<Op> {
    if postgresql then [Update(PENDING, STATUS, Str(UNCHANGED), IsUnchanged)] else []
  }

  function DownStatus(postgresql: bool): seq<Op> {
    if postgresql then [Update(PENDING, STATUS, Str(READY), HasNewStatus)] else []
  }

  function Up(list: seq<Named>, postgresql: bool): seq<Op> {
    UpSchema(list) + UpStatus(postgresql)
  }

  function Down(list: seq<Named>, postgresql: bool): seq<Op> {
    DownStatus(postgresql) + DownSchema(list)
  }

  /** The names the schema part needs are free, and its indexes are on columns of the new table. */
  ghost predicate SchemaFree(db: Db, list: seq<Named>) {
    && !Taken(db, REFERENCES) && !Taken(db, REFERENCES_KEY) && REFERENCES != REFERENCES_KEY
    && NamesDiffer(list)
    && (forall e :: e in list ==> !Taken(db, e.name) && e.name != REFERENCES && e.name != REFERENCES_KEY)
    && (forall e, c :: e in list && c in e.cols ==> c in REFERENCES_COLUMNS)
    && (forall c :: c in REFERENCES_KEY_COLUMNS ==> c in REFERENCES_COLUMNS)
  }

  /** The database with the new table; only its own indexes are added. */
  ghost predicate SchemaAdded(db: Db, db': Db, list: seq<Named>) {
    && db'.tables == db.tables[REFERENCES := Table(REFERENCES_COLUMNS, [])]
    && (forall n :: n in db.indexes ==> n in db'.indexes && db'.indexes[n] == db.indexes[n])
    && (forall n :: n in db'.indexes && n !in db.indexes ==> db'.indexes[n].table == REFERENCES)
    && (forall e :: e in list ==> Droppable(REFERENCES, db', e.name) && db'.indexes[e.name].cols == e.cols)
    && REFERENCES_KEY in db'.indexes && db'.indexes[REFERENCES_KEY] == Index(REFERENCES, REFERENCES_KEY_COLUMNS, true)
  }

  lemma KeyedTable(db: Db, rest: seq<Op>) returns (keyed: Db)
    requires !Taken(db, REFERENCES) && !Taken(db, REFERENCES_KEY) && REFERENCES != REFERENCES_KEY
    requires forall c :: c in REFERENCES_KEY_COLUMNS ==> c in REFERENCES_COLUMNS
    ensures keyed == Db(db.tables[REFERENCES := Table(REFERENCES_COLUMNS, [])],
                        db.indexes[REFERENCES_KEY := Index(REFERENCES, REFERENCES_KEY_COLUMNS, true)])
    ensures Run(Some(db), [CreateTable(REFERENCES, REFERENCES_COLUMNS), CreateUnique(REFERENCES, REFERENCES_KEY, REFERENCES_KEY_COLUMNS)] + rest)
         == Run(Some(keyed), rest)
  {
    var a, b := CreateTable(REFERENCES, REFERENCES_COLUMNS), CreateUnique(REFERENCES, REFERENCES_KEY, REFERENCES_KEY_COLUMNS);
    var made := db.(tables := db.tables[REFERENCES := Table(REFERENCES_COLUMNS, [])]);
    assert [a, b] + rest == [a] + ([b] + rest);
    RunCons(Some(db), a, [b] + rest);
    RunCons(Some(made), b, rest);
    keyed := Apply(b, made).value;
  }

  lemma KeyedThenIndexed(db: Db, keyed: Db, db': Db, list: seq<Named>)
    requires !Taken(db, REFERENCES_KEY)
    requires keyed.tables == db.tables[REFERENCES := Table(REFERENCES_COLUMNS, [])]
    requires keyed.indexes == db.indexes[REFERENCES_KEY := Index(REFERENCES, REFERENCES_KEY_COLUMNS, true)]
    requires Created(REFERENCES, keyed, db', list)
    ensures SchemaAdded(db, db', list)
  {
    forall n | n in db'.indexes && n !in db.indexes
      ensures db'.indexes[n].table == REFERENCES
    {
      assert n == REFERENCES_KEY || Listed(REFERENCES, list, n, db'.indexes[n]);
    }
  }

  lemma IndexesCreatable(db: Db, keyed: Db, list: seq<Named>)
    requires SchemaFree(db, list)
    requires keyed.tables == db.tables[REFERENCES := Table(REFERENCES_COLUMNS, [])]
    requires keyed.indexes == db.indexes[REFERENCES_KEY := Index(REFERENCES, REFERENCES_KEY_COLUMNS, true)]
    ensures Creatable(REFERENCES, keyed, list)
  {
  }

  lemma UpSchemaRuns(db: Db, list: seq<Named>) returns (db': Db)
    requires SchemaFree(db, list)
    ensures Run(Some(db), UpSchema(list)) == Some(db') && SchemaAdded(db, db', list)
  {
    var keyed := KeyedTable(db, Creates(REFERENCES, list));
    IndexesCreatable(db, keyed, list);
    db' := CreatesRun(REFERENCES, keyed, list);
    KeyedThenIndexed(db, keyed, db', list);
  }

  predicate NoIndexOnReferences(db: Db) {
    forall n :: n in db.indexes ==> db.indexes[n].table != REFERENCES
  }

  lemma DropReferences(db: Db, db': Db, list: seq<Named>)
    requires NoIndexOnReferences(db) && REFERENCES !in db.tables && SchemaAdded(db, db', list)
    ensures Apply(DropTable(REFERENCES), db') == Some(db)
  {
    assert db'.tables - {REFERENCES} == db.tables;
    assert (map n | n in db'.indexes && db'.indexes[n].table != REFERENCES :: db'.indexes[n]) == db.indexes;
  }

  lemma DownSchemaRuns(db: Db, db': Db, list: seq<Named>)
    requires NoIndexOnReferences(db) && REFERENCES !in db.tables && NamesDiffer(list) && SchemaAdded(db, db', list)
    ensures Run(Some(db'), DownSchema(list)) == Some(db)
  {
    forall e | e in Reversed(list)
      ensures Droppable(REFERENCES, db', e.name)
    {
      var i :| 0 <= i < |list| && Reversed(list)[i] == e;
      assert list[|list| - 1 - i] in list;
    }
    var dropped := DropsRun(REFERENCES, db', Reversed(list));
    RunAppend(Some(db'), Drops(Reversed(list)), [DropTable(REFERENCES)]);
    RunCons(Some(dropped), DropTable(REFERENCES), []);
    DropReferences(db, db', list);
  }

  /** The database before the migration; no key uses the status, which is text. */
  ghost predicate Before(db: Db, list: seq<Named>) {
    && Valid(db) && SchemaFree(db, list) && PENDING != REFERENCES
    && Rewritable(db, PENDING, STATUS, Str(UNCHANGED)) && Rewritable(db, PENDING, STATUS, Str(READY))
  }

  lemma StillRewritable(db: Db, db': Db, list: seq<Named>)
    requires Before(db, list) && SchemaAdded(db, db', list)
    ensures Rewritable(db', PENDING, STATUS, Str(UNCHANGED)) && Rewritable(db', PENDING, STATUS, Str(READY))
    ensures db'.tables[PENDING] == db.tables[PENDING]
  {
  }

  lemma StatusRun(db: Db, value: string, condition: Condition) returns (u: Option<seq<Row>>)
    requires Valid(db) && Rewritable(db, PENDING, STATUS, Str(value))
    ensures Run(Some(db), [Update(PENDING, STATUS, Str(value), condition)]) == if u.Some? then Some(SetRows(db, PENDING, u.value)) else None
    ensures u.None? <==> Raises(db.tables[PENDING].rows, condition)
    ensures u.Some? ==> |u.value| == |db.tables[PENDING].rows|
    ensures u.Some? ==> forall i :: 0 <= i < |u.value| ==> u.value[i] == Rewritten(db.tables[PENDING].rows[i], STATUS, Str(value), condition)
  {
    RunCons(Some(db), Update(PENDING, STATUS, Str(value), condition), []);
    u := UpdateRuns(db, PENDING, STATUS, Str(value), condition);
  }

  /** What the upgrade leaves: the schema part, and the status rewritten on PostgreSQL.
      It fails exactly when a ready update has a total that is not an integer. */
  lemma UpRuns(db: Db, list: seq<Named>, postgresql: bool) returns (added: Db)
    requires Before(db, list)
    ensures SchemaAdded(db, added, list) && Valid(added) && PENDING in added.tables
    ensures Run(Some(db), Up(list, postgresql)) ==
      if !postgresql then Some(added)
      else if Raises(db.tables[PENDING].rows, IsUnchanged) then None
      else Some(SetRows(added, PENDING, UpRows(db.tables[PENDING].rows)))
  {
    added := UpSchemaRuns(db, list);
    RunKeepsValid(Some(db), UpSchema(list));
    StillRewritable(db, added, list);
    RunAppend(Some(db), UpSchema(list), UpStatus(postgresql));
    if postgresql {
      var u := StatusRun(added, UNCHANGED, IsUnchanged);
      assert u.Some? ==> u.value == UpRows(db.tables[PENDING].rows);
    }
  }

  lemma AddedWithRows(db: Db, added: Db, list: seq<Named>, rows: seq<Row>)
    requires Before(db, list) && SchemaAdded(db, added, list) && PENDING in added.tables
    ensures SchemaAdded(SetRows(db, PENDING, rows), SetRows(added, PENDING, rows), list)
  {
    assert db.tables[REFERENCES := Table(REFERENCES_COLUMNS, [])][PENDING := db.tables[PENDING].(rows := rows)]
        == db.tables[PENDING := db.tables[PENDING].(rows := rows)][REFERENCES := Table(REFERENCES_COLUMNS, [])];
  }

  /** The schema part of the downgrade takes the new table away whatever the rows
      of pending_updates have become. */
  lemma DownSchemaWithRows(db: Db, added: Db, list: seq<Named>, rows: seq<Row>)
    requires Before(db, list) && SchemaAdded(db, added, list) && PENDING in added.tables
    ensures Run(Some(SetRows(added, PENDING, rows)), DownSchema(list)) == Some(SetRows(db, PENDING, rows))
  {
    forall n | n in db.indexes
      ensures db.indexes[n].table != REFERENCES
    {
      assert IndexFits(db, db.indexes[n]);
    }
    AddedWithRows(db, added, list, rows);
    DownSchemaRuns(SetRows(db, PENDING, rows), SetRows(added, PENDING, rows), list);
  }

  lemma DownRuns(db: Db, added: Db, list: seq<Named>, rows: seq<Row>)
    requires Before(db, list) && SchemaAdded(db, added, list) && PENDING in added.tables
    requires Valid(SetRows(added, PENDING, rows))
    ensures Run(Some(SetRows(added, PENDING, rows)), Down(list, true)) == Some(SetRows(db, PENDING, DownRows(rows)))
  {
    var up := SetRows(added, PENDING, rows);
    StillRewritable(db, added, list);
    RunAppend(Some(up), DownStatus(true), DownSchema(list));
    var u := StatusRun(up, READY, HasNewStatus);
    assert u.value == DownRows(rows);
    RowsSetTwice(added, PENDING, rows, u.value);
    DownSchemaWithRows(db, added, list, u.value);
  }

  /** On PostgreSQL, when the upgrade succeeds the downgrade succeeds after it, and
      restores the database exactly when no update had one of the new statuses. */
  lemma UndoneExactly(db: Db, list: seq<Named>)
    requires Before(db, list) && Run(Some(db), Up(list, true)).Some?
    ensures var rows := db.tables[PENDING].rows;
      && Run(Run(Some(db), Up(list, true)), Down(list, true)) == Some(SetRows(db, PENDING, DownRows(UpRows(rows))))
      && (Run(Run(Some(db), Up(list, true)), Down(list, true)) == Some(db) <==> forall i :: 0 <= i < |rows| ==> !NewStatus(rows[i]))
  {
    var rows := db.tables[PENDING].rows;
    var added := UpRuns(db, list, true);
    RunKeepsValid(Some(db), Up(list, true));
    DownRuns(db, added, list, UpRows(rows));
    UpDownExactly(rows);
    RowsSetTwice(db, PENDING, DownRows(UpRows(rows)), []);
  }

  /** Elsewhere no row is rewritten and the downgrade always restores the database. */
  lemma UndoneElsewhere(db: Db, list: seq<Named>)
    requires Before(db, list)
    ensures Run(Run(Some(db), Up(list, false)), Down(list, false)) == Some(db)
  {
    var added := UpRuns(db, list, false);
    StillRewritable(db, added, list);
    var rows := db.tables[PENDING].rows;
    RowsSetTwice(added, PENDING, rows, []);
    RowsSetTwice(db, PENDING, rows, []);
    DownSchemaWithRows(db, added, list, rows);
    assert Down(list, false) == DownSchema(list);
  }

  lemma ReferencesSchemaIsSound()
    ensures NamesDiffer(REFERENCES_INDEXES) && REFERENCES != REFERENCES_KEY && PENDING != REFERENCES
    ensures forall e :: e in REFERENCES_INDEXES ==> e.name != REFERENCES && e.name != REFERENCES_KEY
    ensures forall c :: c in REFERENCES_KEY_COLUMNS ==> c in REFERENCES_COLUMNS
  {
  }

  lemma ReferencesIndexColumnsExist()
    ensures forall e, c :: e in REFERENCES_INDEXES && c in e.cols ==> c in REFERENCES_COLUMNS
  {
  }

  /** For the names and columns of the migration it is enough that the names are free. */
  lemma FreeNamesSuffice(db: Db)
    requires !Taken(db, REFERENCES) && !Taken(db, REFERENCES_KEY)
    requires forall e :: e in REFERENCES_INDEXES ==> !Taken(db, e.name)
    ensures SchemaFree(db, REFERENCES_INDEXES)
  {
    ReferencesSchemaIsSound();
    ReferencesIndexColumnsExist();
  }

  method Upgrade20260715_001(op: Operations, dialect: string)
    modifies op
    ensures op.Outcome() == Run(old(op.Outcome()), Up(REFERENCES_INDEXES, dialect == "postgresql"))
  {
    ghost var start := op.Outcome();
    ghost var a, b := CreateTable(REFERENCES, REFERENCES_COLUMNS), CreateUnique(REFERENCES, REFERENCES_KEY, REFERENCES_KEY_COLUMNS);
    op.Do(CreateTable(REFERENCES, REFERENCES_COLUMNS));
    op.Do(CreateUnique(REFERENCES, REFERENCES_KEY, REFERENCES_KEY_COLUMNS));
    ghost var keyed := op.Outcome();
    CreateIndexOf(op, REFERENCES, REFERENCES_INDEXES[0]);
    CreateIndexOf(op, REFERENCES, REFERENCES_INDEXES[1]);
    CreateIndexOf(op, REFERENCES, REFERENCES_INDEXES[2]);
    CreateIndexOf(op, REFERENCES, REFERENCES_INDEXES[3]);
    CreateIndexOf(op, REFERENCES, REFERENCES_INDEXES[4]);
    CreatesOfFive(REFERENCES, keyed, REFERENCES_INDEXES);
    TwoThenRest(start, a, b, Creates(REFERENCES, REFERENCES_INDEXES));
    RunAppend(start, UpSchema(REFERENCES_INDEXES), UpStatus(dialect == "postgresql"));
    if dialect == "postgresql" {
      RunCons(op.Outcome(), Update(PENDING, STATUS, Str(UNCHANGED), IsUnchanged), []);
      op.Do(Update(PENDING, STATUS, Str(UNCHANGED), IsUnchanged));
    }
  }

  lemma TwoThenRest(state: Option<Db>, a: Op, b: Op, rest: seq<Op>)
    ensures Run(state, [a, b] + rest) == Run(Then(Then(state, a), b), rest)
  {
  }

  method Downgrade20260715_001(op: Operations, dialect: string)
    modifies op
    ensures op.Outcome() == Run(old(op.Outcome()), Down(REFERENCES_INDEXES, dialect == "postgresql"))
  {
    ghost var start := op.Outcome();
    if dialect == "postgresql" {
      RunCons(op.Outcome(), Update(PENDING, STATUS, Str(READY), HasNewStatus), []);
      op.Do(Update(PENDING, STATUS, Str(READY), HasNewStatus));
    }
    RunAppend(start, DownStatus(dialect == "postgresql"), DownSchema(REFERENCES_INDEXES));
    ghost var dropping := op.Outcome();
    op.Do(DropIndex(REFERENCES_INDEXES[4].name));
    op.Do(DropIndex(REFERENCES_INDEXES[3].name));
    op.Do(DropIndex(REFERENCES_INDEXES[2].name));
    op.Do(DropIndex(REFERENCES_INDEXES[1].name));
    op.Do(DropIndex(REFERENCES_INDEXES[0].name));
    DropsOfFive(dropping, Reversed(REFERENCES_INDEXES));
    RunAppend(dropping, Drops(Reversed(REFERENCES_INDEXES)), [DropTable(REFERENCES)]);
    RunCons(op.Outcome(), DropTable(REFERENCES), []);
    op.Do(DropTable(REFERENCES));
  }
}
