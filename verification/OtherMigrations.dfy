/** The key widenings with the other migrations of the history, and any writes of
    the application, between them. */
module OtherMigrations {
  import opened Options
  import opened Database
  import opened Integrity
  import opened NaturalKeys
  import opened KeyHistory
  import opened ColumnKeys
  import opened NumericWidening

  /** The tables T keep their columns and the constraints N on them stay as they
      are; rows, other indexes and other tables may change in any way. */
  ghost predicate Keeps(db: Db, db': Db, T: set<string>, N: set<string>) {
    && (forall t :: t in T && t in db.tables ==> t in db'.tables && db.tables[t].columns.Keys <= db'.tables[t].columns.Keys)
    && (forall n :: n in N && n in db.indexes && db.indexes[n].table in T ==>
          n in db'.indexes && db'.indexes[n] == db.indexes[n])
  }

  /** The operation drops or renames none of the tables, no column of them and none
      of the constraints. */
  predicate Spares(op: Op, T: set<string>, N: set<string>) {
    match op
    case DropColumn(t, _) => t !in T
    case DropConstraint(t, n) => t !in T || n !in N
    case DropIndex(n) => n !in N
    case DropIndexIfExists(n) => n !in N
    case RenameTable(t, _) => t !in T
    case RenameIndexIfExists(n, _) => n !in N
    case DropTable(t) => t !in T
    case _ => true
  }

  ghost predicate AllSpare(ops: seq<Op>, T: set<string>, N: set<string>) {
    forall op :: op in ops ==> Spares(op, T, N)
  }

  lemma SparingKeeps(op: Op, db: Db, T: set<string>, N: set<string>)
    requires Spares(op, T, N) && Apply(op, db).Some?
    ensures Keeps(db, Apply(op, db).value, T, N)
  {
  }

  lemma KeepsTransitive(a: Db, b: Db, c: Db, T: set<string>, N: set<string>)
    requires Keeps(a, b, T, N) && Keeps(b, c, T, N)
    ensures Keeps(a, c, T, N)
  {
  }

  /** What a migration of such operations leaves, if it runs to its end. */
  lemma {:induction false} SparingRunKeeps(db: Db, ops: seq<Op>, T: set<string>, N: set<string>)
    requires Valid(db) && AllSpare(ops, T, N) && Run(Some(db), ops).Some?
    ensures Valid(Run(Some(db), ops).value) && Keeps(db, Run(Some(db), ops).value, T, N)
    decreases |ops|
  {
    if ops != [] {
      assert ops == [ops[0]] + ops[1..];
      RunCons(Some(db), ops[0], ops[1..]);
      if Apply(ops[0], db).None? {
        RunOfFailed(ops[1..]);
      } else {
        var next := Apply(ops[0], db).value;
        ApplyKeepsValid(ops[0], db);
        SparingKeeps(ops[0], db, T, N);
        SparingRunKeeps(next, ops[1..], T, N);
        KeepsTransitive(db, next, Run(Some(db), ops).value, T, N);
      }
    }
  }

  // ----- The chain -----

  ghost predicate Covered(ws: seq<Widening>, T: set<string>, N: set<string>) {
    forall w :: w in ws ==> w.table in T && w.name in N
  }

  ghost predicate AllCovered(revisions: seq<seq<Widening>>, T: set<string>, N: set<string>) {
    forall ws :: ws in revisions ==> Covered(ws, T, N)
  }

  lemma BeforeIsKept(db: Db, db': Db, ws: seq<Widening>, T: set<string>, N: set<string>)
    requires Covered(ws, T, N) && Keeps(db, db', T, N) && Before(db, ws)
    ensures Before(db', ws)
  {
  }

  lemma {:induction false} RekeyedKeeps(db: Db, db': Db, ks: seq<Key>, T: set<string>, N: set<string>)
    requires Keeps(db, db', T, N)
    ensures Keeps(Rekeyed(db, ks), Rekeyed(db', ks), T, N)
    decreases |ks|
  {
    if ks != [] {
      var x := Index(ks[0].table, ks[0].cols, true);
      RekeyedKeeps(db.(indexes := db.indexes[ks[0].name := x]), db'.(indexes := db'.indexes[ks[0].name := x]), ks[1..], T, N);
    }
  }

  lemma {:induction false} LinkedIsKept(db: Db, db': Db, revisions: seq<seq<Widening>>, T: set<string>, N: set<string>)
    requires AllCovered(revisions, T, N) && Keeps(db, db', T, N) && Linked(db, revisions)
    ensures Linked(db', revisions)
    decreases |revisions|
  {
    if revisions != [] {
      var ws, rest := revisions[0], revisions[1..];
      assert revisions == [ws] + rest && ws in revisions;
      BeforeIsKept(db, db', ws, T, N);
      RekeyedKeeps(db, db', Ups(ws), T, N);
      LinkedIsKept(Rekeyed(db, Ups(ws)), Rekeyed(db', Ups(ws)), rest, T, N);
    }
  }

  /** `starts[i]` is the database on which revision i runs: valid, and grown out of
      what the revision before left. */
  ghost predicate Grown(revisions: seq<seq<Widening>>, starts: seq<Db>, T: set<string>, N: set<string>) {
    && |starts| == |revisions|
    && (forall i :: 0 <= i < |starts| ==> Valid(starts[i]))
    && (forall i :: 0 < i < |starts| ==> Keeps(Rekeyed(starts[i - 1], Ups(revisions[i - 1])), starts[i], T, N))
  }

  /** No revision of a linked chain can be refused, whatever rows have been written
      and whatever migrations have run since the one before it, as long as they left
      its columns and constraints alone. */
  lemma {:induction false} ChainSucceedsAmong(revisions: seq<seq<Widening>>, starts: seq<Db>, T: set<string>, N: set<string>, i: nat)
    requires i < |revisions| && AllCovered(revisions, T, N) && Grown(revisions, starts, T, N)
    requires Linked(starts[0], revisions)
    ensures Linked(starts[i], revisions[i..])
    ensures Run(Some(starts[i]), Rekeys(Ups(revisions[i]))) == Some(Rekeyed(starts[i], Ups(revisions[i])))
    ensures Valid(Rekeyed(starts[i], Ups(revisions[i]))) && Rekeyed(starts[i], Ups(revisions[i])).tables == starts[i].tables
  {
    if i == 0 {
      assert revisions[0..] == revisions;
    } else {
      ChainSucceedsAmong(revisions, starts, T, N, i - 1);
      assert revisions[i - 1..][0] == revisions[i - 1] && revisions[i - 1..][1..] == revisions[i..];
      forall ws | ws in revisions[i..]
        ensures Covered(ws, T, N)
      {
        assert ws in revisions;
      }
      LinkedIsKept(Rekeyed(starts[i - 1], Ups(revisions[i - 1])), starts[i], revisions[i..], T, N);
    }
    assert revisions[i..][0] == revisions[i];
    UpgradeSucceeds(starts[i], revisions[i]);
  }

  // ----- The four revisions of the history -----

  function TablesOf(revisions: seq<seq<Widening>>): set<string> {
    set ws, w | ws in revisions && w in ws :: w.table
  }

  function NamesIn(revisions: seq<seq<Widening>>): set<string> {
    set ws, w | ws in revisions && w in ws :: w.name
  }

  lemma FourAmong(a: seq<Widening>, b: seq<Widening>, c: seq<Widening>, d: seq<Widening>, starts: seq<Db>, i: nat)
    requires i < 4 && Grown([a, b, c, d], starts, TablesOf([a, b, c, d]), NamesIn([a, b, c, d]))
    requires Continuous(a, b, c, d) && AtStart(starts[0], a, b, c, d)
    ensures var ws := [a, b, c, d][i];
      && Run(Some(starts[i]), Rekeys(Ups(ws))) == Some(Rekeyed(starts[i], Ups(ws)))
      && Valid(Rekeyed(starts[i], Ups(ws))) && Rekeyed(starts[i], Ups(ws)).tables == starts[i].tables
  {
    HistoryIsLinked(starts[0], a, b, c, d);
    var all := [a, b, c, d];
    ChainSucceedsAmong(all, starts, TablesOf(all), NamesIn(all), i);
  }

  /** So none of 1c2d3e4f5a6b, 6e7f8a9b0c1d, cfcc31a7815b and e768d8885a52 can be
      refused, with anything between them that leaves their columns and constraints. */
  lemma HistoryAcceptsAmong(starts: seq<Db>, i: nat)
    requires i < 4 && Grown(HISTORY, starts, TablesOf(HISTORY), NamesIn(HISTORY))
    requires AtStart(starts[0], REVISION_1C2D, REVISION_6E7F, REVISION_CFCC, REVISION_E768)
    ensures Run(Some(starts[i]), Rekeys(Ups(HISTORY[i]))) == Some(Rekeyed(starts[i], Ups(HISTORY[i])))
    ensures Valid(Rekeyed(starts[i], Ups(HISTORY[i]))) && Rekeyed(starts[i], Ups(HISTORY[i])).tables == starts[i].tables
  {
    HistoryIsContinuous();
    FourAmong(REVISION_1C2D, REVISION_6E7F, REVISION_CFCC, REVISION_E768, starts, i);
  }

  // ----- Between 1c2d3e4f5a6b and 6e7f8a9b0c1d -----

  /** 2a4b6c8d0e1f and 1f2a3b4c5d6e. */
  const WIDEN_AND_ADD := [
    SetNumeric("demonstracoes_financeiras", "valor_conta", 38, 10),
    AddColumn("ingestion_runs", "remote_probe", Column(Kind.Json, true, Null)),
    AddColumn("ingestion_runs", "change_summary", Column(Kind.Json, true, Null))]

  /** 4c5d6e7f8a9b and 5d6e7f8a9b0c. */
  const IPE_KEYS := [
    DropConstraint("ipe_documentos", "uq_ipe_documentos_protocolo_versao"),
    DropConstraint("ipe_documentos", "uq_ipe_documentos_chave_alternativa"),
    CreateUnique("ipe_documentos", "uq_ipe_documentos_chave_alternativa",
      ["cnpj_companhia", "codigo_cvm", "data_referencia", "categoria", "tipo", "especie", "assunto",
       "data_entrega", "protocolo_entrega", "versao"])]

  /** The other branch of the fork, the merge, and what follows it up to 5d6e7f8a9b0c;
      3b4c5d6e7f8a widens the columns FRE_NUMERIC_COLUMNS. */
  function Between(columns: seq<NumericColumn>): seq<Op> {
    Up6f2e9b7c1a4d() + Rekeys(Ups(REVISION_7B5C)) + WIDEN_AND_ADD + Alters(columns, WIDE, SCALE) + IPE_KEYS
  }

  /** The tables of the four revisions are those of forms: fca_..., fre_... */
  predicate FormTable(t: string) {
    t != "" && t[0] == 'f'
  }

  ghost predicate AllOfForms(ws: seq<Widening>) {
    forall w :: w in ws ==> FormTable(w.table)
  }

  lemma FormTables6e7f()
    ensures AllOfForms(REVISION_6E7F)
  {
    FormTablesFca();
    FormTablesFre();
    Nine(FCA_DRI_6E7F, FCA_AUDITORES_6E7F, FCA_VALORES_MOBILIARIOS_6E7F, FRE_POSICOES_ACIONARIAS_CLASSES_ACOES_6E7F,
      FRE_ADMIN_MEMB_CONS_FISC_6E7F, FRE_MEMBROS_COMITES_6E7F, FRE_RELACOES_FAMILIARES_6E7F,
      FRE_RELACOES_SUBORDINACAO_6E7F, FRE_TRANSACOES_PARTES_RELAC_6E7F);
  }

  lemma FormTablesFca()
    ensures FormTable(FCA_DRI_6E7F.table) && FormTable(FCA_AUDITORES_6E7F.table) && FormTable(FCA_VALORES_MOBILIARIOS_6E7F.table)
  {
  }

  lemma FormTablesFre()
    ensures FormTable(FRE_POSICOES_ACIONARIAS_CLASSES_ACOES_6E7F.table) && FormTable(FRE_ADMIN_MEMB_CONS_FISC_6E7F.table)
    ensures FormTable(FRE_MEMBROS_COMITES_6E7F.table) && FormTable(FRE_RELACOES_FAMILIARES_6E7F.table)
    ensures FormTable(FRE_RELACOES_SUBORDINACAO_6E7F.table) && FormTable(FRE_TRANSACOES_PARTES_RELAC_6E7F.table)
  {
  }

  lemma Nine(a: Widening, b: Widening, c: Widening, d: Widening, e: Widening, f: Widening, g: Widening, h: Widening, i: Widening)
    requires FormTable(a.table) && FormTable(b.table) && FormTable(c.table) && FormTable(d.table) && FormTable(e.table)
    requires FormTable(f.table) && FormTable(g.table) && FormTable(h.table) && FormTable(i.table)
    ensures AllOfForms([a, b, c, d, e, f, g, h, i])
  {
  }

  /** The other revisions carry on constraints of that one. */
  lemma AllFormTables(a: seq<Widening>, b: seq<Widening>, c: seq<Widening>, d: seq<Widening>)
    requires Continuous(a, b, c, d) && AllOfForms(b)
    ensures forall t :: t in TablesOf([a, b, c, d]) ==> FormTable(t)
  {
  }

  /** Operations that add a column or a key, change a precision, or drop a key of another table. */
  predicate Elsewhere(op: Op) {
    match op
    case DropConstraint(t, _) => !FormTable(t)
    case CreateUnique(_, _, _) => true
    case _ => op.AddColumn? || op.SetNumeric?
  }

  ghost predicate AllElsewhere(ops: seq<Op>) {
    forall op :: op in ops ==> Elsewhere(op)
  }

  lemma ElsewhereSpares(ops: seq<Op>, T: set<string>, N: set<string>)
    requires AllElsewhere(ops) && forall t :: t in T ==> FormTable(t)
    ensures AllSpare(ops, T, N)
  {
  }

  lemma ElsewhereAppend(xs: seq<Op>, ys: seq<Op>)
    requires AllElsewhere(xs) && AllElsewhere(ys)
    ensures AllElsewhere(xs + ys)
  {
  }

  lemma {:induction false} AltersAreElsewhere(cs: seq<NumericColumn>, precision: nat, scale: nat)
    ensures AllElsewhere(Alters(cs, precision, scale))
    decreases |cs|
  {
    if cs != [] {
      AltersAreElsewhere(cs[1..], precision, scale);
      ElsewhereAppend([SetNumeric(cs[0].table, cs[0].column, precision, scale)], Alters(cs[1..], precision, scale));
    }
  }

  lemma BranchIsElsewhere(w: Widening, column: string, spec: Column, v: Widening)
    requires !FormTable(w.table) && !FormTable(v.table)
    ensures AllElsewhere(AddToKey(w, column, spec) + Rekeys(Ups([v])))
  {
    assert Ups([v]) == [v.New()] && [v.New()][1..] == [];
    assert Rekeys([v.New()]) == Rekey(v.New()) + Rekeys([]) == Rekey(v.New());
    ElsewhereAppend([AddColumn(w.table, column, spec)], Rekey(w.New()));
    ElsewhereAppend(AddToKey(w, column, spec), Rekey(v.New()));
  }

  lemma RestIsElsewhere()
    ensures AllElsewhere(WIDEN_AND_ADD) && AllElsewhere(IPE_KEYS)
  {
  }

  lemma AppendFour(a: seq<Op>, b: seq<Op>, c: seq<Op>, d: seq<Op>)
    requires AllElsewhere(a) && AllElsewhere(b) && AllElsewhere(c) && AllElsewhere(d)
    ensures AllElsewhere(a + b + c + d)
  {
    ElsewhereAppend(a, b);
    ElsewhereAppend(a + b, c);
    ElsewhereAppend(a + b + c, d);
  }

  lemma BetweenIsElsewhere(columns: seq<NumericColumn>)
    ensures AllElsewhere(Between(columns))
  {
    RestIsElsewhere();
    AltersAreElsewhere(columns, WIDE, SCALE);
    BranchIsElsewhere(DEMONSTRACOES_FINANCEIRAS_6F2E, "coluna_df", COLUNA_DF, DEMONSTRACOES_FINANCEIRAS_7B5C);
    AppendFour(Up6f2e9b7c1a4d() + Rekeys(Ups(REVISION_7B5C)), WIDEN_AND_ADD, Alters(columns, WIDE, SCALE), IPE_KEYS);
  }

  /** The second revision of a chain, behind a migration that spares it. */
  lemma SecondSucceeds(db: Db, revisions: seq<seq<Widening>>, others: seq<Op>)
    requires Valid(db) && |revisions| > 1 && Linked(db, revisions)
    requires AllSpare(others, TablesOf(revisions), NamesIn(revisions))
    ensures var start := Run(Some(db), Rekeys(Ups(revisions[0])) + others);
      start.Some? ==> Run(start, Rekeys(Ups(revisions[1]))) == Some(Rekeyed(start.value, Ups(revisions[1])))
  {
    var T, N := TablesOf(revisions), NamesIn(revisions);
    var next := Rekeyed(db, Ups(revisions[0]));
    UpgradeSucceeds(db, revisions[0]);
    RunAppend(Some(db), Rekeys(Ups(revisions[0])), others);
    if Run(Some(next), others).Some? {
      SparingRunKeeps(next, others, T, N);
      assert revisions[1..][0] == revisions[1];
      BeforeIsKept(next, Run(Some(next), others).value, revisions[1], T, N);
      UpgradeSucceeds(Run(Some(next), others).value, revisions[1]);
    }
  }

  lemma FirstTwo(a: seq<Widening>, b: seq<Widening>, c: seq<Widening>, d: seq<Widening>, db: Db, others: seq<Op>)
    requires Continuous(a, b, c, d) && Valid(db) && AtStart(db, a, b, c, d)
    requires AllElsewhere(others) && AllOfForms(b)
    ensures var start := Run(Some(db), Rekeys(Ups(a)) + others);
      start.Some? ==> Run(start, Rekeys(Ups(b))) == Some(Rekeyed(start.value, Ups(b)))
  {
    HistoryIsLinked(db, a, b, c, d);
    AllFormTables(a, b, c, d);
    ElsewhereSpares(others, TablesOf([a, b, c, d]), NamesIn([a, b, c, d]));
    SecondSucceeds(db, [a, b, c, d], others);
  }

  /** From 1c2d3e4f5a6b to 6e7f8a9b0c1d: whatever rows the database holds, once
      migrations like those between them have run, the expansion of the keys succeeds. */
  lemma ExpansionSucceeds(db: Db, between: seq<Op>)
    requires AllElsewhere(between)
    requires Valid(db) && AtStart(db, REVISION_1C2D, REVISION_6E7F, REVISION_CFCC, REVISION_E768)
    ensures var start := Run(Some(db), Rekeys(Ups(REVISION_1C2D)) + between);
      start.Some? ==> Run(start, Rekeys(Ups(REVISION_6E7F))) == Some(Rekeyed(start.value, Ups(REVISION_6E7F)))
  {
    HistoryIsContinuous();
    FormTables6e7f();
    FirstTwo(REVISION_1C2D, REVISION_6E7F, REVISION_CFCC, REVISION_E768, db, between);
  }
}
