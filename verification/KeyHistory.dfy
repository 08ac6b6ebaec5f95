/** The unique keys the migrations replace, revision by revision, and the
    migrations that only replace keys. */
module KeyHistory {
  import opened Options
  import opened Database
  import opened NaturalKeys

  /** A constraint with its columns before and after an upgrade. */
  datatype Widening = Widening(table: string, name: string, narrow: seq<string>, wide: seq<string>) {
    function Old(): Key {
      Key(table, name, narrow)
    }

    function New(): Key {
      Key(table, name, wide)
    }

    /** The new columns include the old ones. */
    predicate Proper() {
      forall c :: c in narrow ==> c in wide
    }
  }

  const DEMONSTRACOES_FINANCEIRAS_6F2E := Widening(
    "demonstracoes_financeiras", "uq_demonstracoes_financeiras_chave_natural",
    ["tipo_formulario", "tipo_demonstracao", "escopo_demonstracao", "cnpj_companhia", "data_referencia",
     "versao", "grupo_demonstracao", "ordem_exercicio", "data_fim_exercicio", "codigo_conta"],
    ["tipo_formulario", "tipo_demonstracao", "escopo_demonstracao", "cnpj_companhia", "data_referencia",
     "versao", "grupo_demonstracao", "ordem_exercicio", "data_fim_exercicio", "codigo_conta", "coluna_df"])

  const DEMONSTRACOES_FINANCEIRAS_7B5C := Widening(
    "demonstracoes_financeiras", "uq_demonstracoes_financeiras_chave_natural",
    ["tipo_formulario", "tipo_demonstracao", "escopo_demonstracao", "cnpj_companhia", "data_referencia",
     "versao", "grupo_demonstracao", "ordem_exercicio", "data_fim_exercicio", "codigo_conta", "coluna_df"],
    ["tipo_formulario", "tipo_demonstracao", "escopo_demonstracao", "cnpj_companhia", "data_referencia",
     "versao", "grupo_demonstracao", "ordem_exercicio", "data_inicio_exercicio", "data_fim_exercicio",
     "codigo_conta", "coluna_df"])

  const FCA_DRI_1C2D := Widening(
    "fca_dri", "uq_fca_dri_chave_natural",
    ["id_documento", "versao", "data_referencia", "cnpj_companhia", "cpf_responsavel", "tipo_responsavel"],
    ["id_documento", "versao", "data_referencia", "cnpj_companhia", "cpf_responsavel", "tipo_responsavel",
     "data_inicio_atuacao"])

  const FCA_DRI_6E7F := Widening(
    "fca_dri", "uq_fca_dri_chave_natural",
    ["id_documento", "versao", "data_referencia", "cnpj_companhia", "cpf_responsavel", "tipo_responsavel",
     "data_inicio_atuacao"],
    ["id_documento", "versao", "data_referencia", "cnpj_companhia", "cpf_responsavel", "tipo_responsavel",
     "data_inicio_atuacao", "tipo_endereco", "logradouro", "cep", "telefone", "email_dri"])

  const FCA_AUDITORES_6E7F := Widening(
    "fca_auditores", "uq_fca_auditores_chave_natural",
    ["id_documento", "versao", "data_referencia", "cnpj_companhia", "cpf_cnpj_auditor", "codigo_cvm_auditor"],
    ["id_documento", "versao", "data_referencia", "cnpj_companhia", "cpf_cnpj_auditor", "codigo_cvm_auditor",
     "data_inicio_atuacao_auditor", "data_fim_atuacao_auditor", "responsavel_tecnico",
     "cpf_responsavel_tecnico", "data_inicio_atuacao_responsavel_tecnico"])

  const FCA_VALORES_MOBILIARIOS_6E7F := Widening(
    "fca_valores_mobiliarios", "uq_fca_valores_mobiliarios_chave_natural",
    ["id_documento", "versao", "data_referencia", "cnpj_companhia", "tipo_valor_mobiliario",
     "codigo_negociacao", "mercado"],
    ["id_documento", "versao", "data_referencia", "cnpj_companhia", "tipo_valor_mobiliario",
     "codigo_negociacao", "mercado", "sigla_classe_acao_preferencial", "classe_acao_preferencial",
     "composicao_bdr_unit", "data_inicio_negociacao", "data_fim_negociacao", "data_inicio_listagem",
     "data_fim_listagem"])

  const FRE_POSICOES_ACIONARIAS_CLASSES_ACOES_6E7F := Widening(
    "fre_posicoes_acionarias_classes_acoes", "uq_fre_posicoes_acionarias_classes_acoes_chave_natural",
    ["id_documento", "versao", "data_referencia", "cnpj_companhia", "id_acionista",
     "tipo_classe_acao_preferencial"],
    ["id_documento", "versao", "data_referencia", "cnpj_companhia", "id_acionista",
     "tipo_classe_acao_preferencial", "quantidade_acoes", "percentual_acoes"])

  const FRE_ADMIN_MEMB_CONS_FISC_6E7F := Widening(
    "fre_administradores_membros_conselho_fiscal", "uq_fre_admin_memb_cons_fisc_chave_natural",
    ["id_documento", "versao", "data_referencia", "cnpj_companhia", "nome", "cpf", "orgao_administracao"],
    ["id_documento", "versao", "data_referencia", "cnpj_companhia", "nome", "cpf", "orgao_administracao",
     "data_eleicao", "data_posse"])

  const FRE_MEMBROS_COMITES_6E7F := Widening(
    "fre_membros_comites", "uq_fre_membros_comites_chave_natural",
    ["id_documento", "versao", "data_referencia", "cnpj_companhia", "nome", "cpf", "tipo_comite"],
    ["id_documento", "versao", "data_referencia", "cnpj_companhia", "nome", "cpf", "tipo_comite",
     "descricao_outros_comites"])

  const FRE_RELACOES_FAMILIARES_6E7F := Widening(
    "fre_relacoes_familiares", "uq_fre_relacoes_familiares_chave_natural",
    ["id_documento", "versao", "data_referencia", "cnpj_companhia", "nome_administrador",
     "nome_pessoa_relacionada", "tipo_parentesco"],
    ["id_documento", "versao", "data_referencia", "cnpj_companhia", "nome_administrador",
     "nome_pessoa_relacionada", "tipo_parentesco", "cnpj_emissor_pessoa_relacionada",
     "nome_emissor_pessoa_relacionada", "cargo_Pessoa_relacionada"])

  const FRE_RELACOES_SUBORDINACAO_6E7F := Widening(
    "fre_relacoes_subordinacao", "uq_fre_relacoes_subordinacao_chave_natural",
    ["id_documento", "versao", "data_referencia", "cnpj_companhia", "nome_administrador",
     "nome_pessoa_relacionada", "tipo_relacao"],
    ["id_documento", "versao", "data_referencia", "cnpj_companhia", "data_inicio_exercicio_social",
     "data_fim_exercicio_social", "nome_administrador", "nome_pessoa_relacionada", "tipo_relacao"])

  const FRE_TRANSACOES_PARTES_RELAC_6E7F := Widening(
    "fre_transacoes_partes_relacionadas", "uq_fre_transacoes_partes_relac_chave_natural",
    ["id_documento", "versao", "data_referencia", "cnpj_companhia", "parte_relacionada", "relacao_emissor",
     "data_transacao"],
    ["id_documento", "versao", "data_referencia", "cnpj_companhia", "parte_relacionada",
     "documento_parte_relacionada", "relacao_emissor", "data_transacao", "montante_envolvido",
     "saldo_existente", "montante_interesse_parte_relacionada", "posicao_contratual_emissor"])

  const FRE_ADMIN_MEMB_CONS_FISC_CFCC := Widening(
    "fre_administradores_membros_conselho_fiscal", "uq_fre_admin_memb_cons_fisc_chave_natural",
    ["id_documento", "versao", "data_referencia", "cnpj_companhia", "nome", "cpf", "orgao_administracao",
     "data_eleicao", "data_posse"],
    ["id_documento", "versao", "data_referencia", "cnpj_companhia", "nome", "cpf", "orgao_administracao",
     "data_eleicao", "data_posse", "cargo_eletivo_ocupado", "outro_cargo_funcao"])

  const FRE_RELACOES_FAMILIARES_E768 := Widening(
    "fre_relacoes_familiares", "uq_fre_relacoes_familiares_chave_natural",
    ["id_documento", "versao", "data_referencia", "cnpj_companhia", "nome_administrador",
     "nome_pessoa_relacionada", "tipo_parentesco", "cnpj_emissor_pessoa_relacionada",
     "nome_emissor_pessoa_relacionada", "cargo_Pessoa_relacionada"],
    ["id_documento", "versao", "data_referencia", "cnpj_companhia", "nome_administrador",
     "nome_pessoa_relacionada", "tipo_parentesco", "cnpj_emissor_pessoa_relacionada",
     "nome_emissor_pessoa_relacionada", "cargo_Pessoa_relacionada", "cnpj_emissor", "nome_emissor",
     "cargo_administrador"])

  const FRE_RELACOES_SUBORDINACAO_E768 := Widening(
    "fre_relacoes_subordinacao", "uq_fre_relacoes_subordinacao_chave_natural",
    ["id_documento", "versao", "data_referencia", "cnpj_companhia", "data_inicio_exercicio_social",
     "data_fim_exercicio_social", "nome_administrador", "nome_pessoa_relacionada", "tipo_relacao"],
    ["id_documento", "versao", "data_referencia", "cnpj_companhia", "data_inicio_exercicio_social",
     "data_fim_exercicio_social", "nome_administrador", "nome_pessoa_relacionada", "tipo_relacao",
     "cargo_administrador", "cargo_pessoa_relacionada"])

  const FRE_PLANO_RECOMPRA_CLASSES_20260623 := Widening(
    "fre_plano_recompra_classes_acoes", "uq_fre_plano_recompra_classes_chave_natural",
    ["id_documento", "versao", "data_referencia", "cnpj_companhia", "id_plano_recompra",
     "tipo_classe_acao_preferencial"],
    ["id_documento", "versao", "data_referencia", "cnpj_companhia", "id_plano_recompra", "especie_acao",
     "tipo_classe_acao_preferencial"])

  const REVISION_7B5C := [DEMONSTRACOES_FINANCEIRAS_7B5C]

  const REVISION_1C2D := [FCA_DRI_1C2D]

  const REVISION_6E7F := [
    FCA_DRI_6E7F, FCA_AUDITORES_6E7F, FCA_VALORES_MOBILIARIOS_6E7F, FRE_POSICOES_ACIONARIAS_CLASSES_ACOES_6E7F,
    FRE_ADMIN_MEMB_CONS_FISC_6E7F, FRE_MEMBROS_COMITES_6E7F, FRE_RELACOES_FAMILIARES_6E7F,
    FRE_RELACOES_SUBORDINACAO_6E7F, FRE_TRANSACOES_PARTES_RELAC_6E7F]

  const REVISION_CFCC := [FRE_ADMIN_MEMB_CONS_FISC_CFCC]

  const REVISION_E768 := [FRE_RELACOES_FAMILIARES_E768, FRE_RELACOES_SUBORDINACAO_E768]

  /** The keys an upgrade creates, in its order. */
  function Ups(ws: seq<Widening>): (r: seq<Key>)
    ensures |r| == |ws| && forall i :: 0 <= i < |r| ==> r[i] == ws[i].New()
  {
    seq(|ws|, i requires 0 <= i < |ws| => ws[i].New())
  }

  /** The keys a downgrade creates, in its order: the last one first. */
  function Downs(ws: seq<Widening>): (r: seq<Key>)
    ensures |r| == |ws| && forall i :: 0 <= i < |r| ==> r[i] == ws[|ws| - 1 - i].Old()
  {
    seq(|ws|, i requires 0 <= i < |ws| => ws[|ws| - 1 - i].Old())
  }

  ghost predicate AllProper(ws: seq<Widening>) {
    forall w :: w in ws ==> w.Proper()
  }

  /** The database is at the revision below: the old keys stand and the columns of the new ones exist. */
  ghost predicate Before(db: Db, ws: seq<Widening>) {
    forall w :: w in ws ==> Stored(db, w.Old()) && HasColumns(db, w.table, w.wide)
  }

  /** The database is at the revision itself. */
  ghost predicate After(db: Db, ws: seq<Widening>) {
    forall w :: w in ws ==> Stored(db, w.New())
  }

  lemma FormWideningsProper()
    ensures AllProper(REVISION_6E7F)
  {
  }

  lemma WideningsProper()
    ensures AllProper(REVISION_7B5C) && AllProper(REVISION_1C2D) && AllProper(REVISION_6E7F)
    ensures AllProper(REVISION_CFCC) && AllProper(REVISION_E768)
  {
    FormWideningsProper();
  }

  lemma NamesOfUps(ws: seq<Widening>, n: string)
    ensures n in Names(Ups(ws)) <==> exists w :: w in ws && w.name == n
    ensures n in Names(Downs(ws)) <==> exists w :: w in ws && w.name == n
  {
    if w :| w in ws && w.name == n {
      var i :| 0 <= i < |ws| && ws[i] == w;
      assert Ups(ws)[i] in Ups(ws) && Downs(ws)[|ws| - 1 - i] in Downs(ws);
    }
  }

  lemma UpIsWidening(db: Db, ws: seq<Widening>)
    requires AllProper(ws) && Before(db, ws)
    ensures AllPresent(db, Ups(ws)) && forall k :: k in Ups(ws) ==> Widens(db, k)
  {
  }

  /** Such an upgrade succeeds on every valid database, whatever its rows, and
      changes nothing but the columns of the constraints. */
  lemma UpgradeSucceeds(db: Db, ws: seq<Widening>)
    requires Valid(db) && AllProper(ws) && Before(db, ws)
    ensures Run(Some(db), Rekeys(Ups(ws))) == Some(Rekeyed(db, Ups(ws)))
    ensures Valid(Rekeyed(db, Ups(ws))) && Rekeyed(db, Ups(ws)).tables == db.tables
  {
    UpIsWidening(db, ws);
    WideningSucceeds(db, Ups(ws));
  }

  /** Downgrading right after upgrading restores the database. */
  lemma DowngradeUndoesUpgrade(db: Db, ws: seq<Widening>)
    requires Valid(db) && AllProper(ws) && Before(db, ws)
    ensures Run(Run(Some(db), Rekeys(Ups(ws))), Rekeys(Downs(ws))) == Some(db)
  {
    UpIsWidening(db, ws);
    assert Names(Ups(ws)) == Names(Downs(ws)) by {
      forall n
        ensures n in Names(Ups(ws)) <==> n in Names(Downs(ws))
      {
        NamesOfUps(ws, n);
      }
    }
    forall o | o in Downs(ws)
      ensures Stored(db, o)
    {
      var i :| 0 <= i < |ws| && Downs(ws)[i] == o;
      assert ws[|ws| - 1 - i] in ws;
    }
    WideningIsUndone(db, Ups(ws), Downs(ws));
  }

  predicate Collide(db: Db, w: Widening, i: nat, j: nat) {
    w.table in db.tables && i < j < |db.tables[w.table].rows| && AgreeOn(db.tables[w.table].rows[i], db.tables[w.table].rows[j], w.narrow)
  }

  lemma DownKey(ws: seq<Widening>, k: Key) returns (w: Widening)
    requires k in Downs(ws)
    ensures w in ws && k == w.Old()
  {
    var i :| 0 <= i < |ws| && Downs(ws)[i] == k;
    w := ws[|ws| - 1 - i];
  }

  lemma OldIsDownKey(ws: seq<Widening>, w: Widening)
    requires w in ws
    ensures w.Old() in Downs(ws)
  {
    var i :| 0 <= i < |ws| && ws[i] == w;
    assert Downs(ws)[|ws| - 1 - i] in Downs(ws);
  }

  lemma DownKeysPresent(db: Db, ws: seq<Widening>)
    requires Valid(db) && AllProper(ws) && After(db, ws)
    ensures AllPresent(db, Downs(ws))
  {
    forall k | k in Downs(ws)
      ensures Present(db, k)
    {
      var w := DownKey(ws, k);
      assert w.Proper() && Stored(db, w.New()) && IndexFits(db, db.indexes[w.name]);
    }
  }

  ghost predicate SomeCollision(db: Db, w: Widening) {
    exists i, j :: Collide(db, w, i, j)
  }

  lemma CollisionIsBrokenKey(db: Db, w: Widening)
    requires w.table in db.tables
    ensures SomeCollision(db, w) <==> !Holds(db, w.Old())
  {
    var rows := db.tables[w.table].rows;
    if i, j :| 0 <= i < j < |rows| && AgreeOn(rows[i], rows[j], w.narrow) {
      assert Collide(db, w, i, j);
    }
  }

  /** From any valid database at the revision, with whatever rows were written
      since, the downgrade is refused exactly when two rows of some table agree on
      the narrow key with no NULL in it. */
  lemma DowngradeFailsExactly(db: Db, ws: seq<Widening>)
    requires Valid(db) && AllProper(ws) && After(db, ws)
    ensures Run(Some(db), Rekeys(Downs(ws))).None? <==> exists w :: w in ws && SomeCollision(db, w)
  {
    DownKeysPresent(db, ws);
    RekeysRun(db, Downs(ws));
    if k :| k in Downs(ws) && !Holds(db, k) {
      var w := DownKey(ws, k);
      assert Present(db, k);
      CollisionIsBrokenKey(db, w);
    }
    forall w | w in ws && SomeCollision(db, w)
      ensures !Holds(db, w.Old()) && w.Old() in Downs(ws)
    {
      OldIsDownKey(ws, w);
      CollisionIsBrokenKey(db, w);
    }
  }

  // ----- The chain of revisions -----

  /** The upgrades of consecutive revisions. */
  function UpAll(revisions: seq<seq<Widening>>): seq<Op> {
    if revisions == [] then [] else Rekeys(Ups(revisions[0])) + UpAll(revisions[1..])
  }

  function UpgradedAll(db: Db, revisions: seq<seq<Widening>>): Db
    decreases |revisions|
  {
    if revisions == [] then db else UpgradedAll(Rekeyed(db, Ups(revisions[0])), revisions[1..])
  }

  /** Each revision starts from the keys the ones before it left. */
  ghost predicate Linked(db: Db, revisions: seq<seq<Widening>>)
    decreases |revisions|
  {
    revisions == [] ||
    (AllProper(revisions[0]) && Before(db, revisions[0]) && Linked(Rekeyed(db, Ups(revisions[0])), revisions[1..]))
  }

  lemma {:induction false} ChainSucceeds(db: Db, revisions: seq<seq<Widening>>)
    requires Valid(db) && Linked(db, revisions)
    ensures Run(Some(db), UpAll(revisions)) == Some(UpgradedAll(db, revisions))
    ensures Valid(UpgradedAll(db, revisions)) && UpgradedAll(db, revisions).tables == db.tables
    decreases |revisions|
  {
    if revisions != [] {
      UpgradeSucceeds(db, revisions[0]);
      RunAppend(Some(db), Rekeys(Ups(revisions[0])), UpAll(revisions[1..]));
      ChainSucceeds(Rekeyed(db, Ups(revisions[0])), revisions[1..]);
    }
  }

  /** The downgrades in the reverse order. */
  function DownAll(revisions: seq<seq<Widening>>): seq<Op> {
    if revisions == [] then [] else DownAll(revisions[1..]) + Rekeys(Downs(revisions[0]))
  }

  /** Downgrading a whole chain restores the database it started from. */
  lemma {:induction false} ChainIsUndone(db: Db, revisions: seq<seq<Widening>>)
    requires Valid(db) && Linked(db, revisions)
    ensures Run(Run(Some(db), UpAll(revisions)), DownAll(revisions)) == Some(db)
    decreases |revisions|
  {
    if revisions != [] {
      var rest := revisions[1..];
      var up := Rekeyed(db, Ups(revisions[0]));
      UpgradeSucceeds(db, revisions[0]);
      DowngradeUndoesUpgrade(db, revisions[0]);
      RunAppend(Some(db), Rekeys(Ups(revisions[0])), UpAll(rest));
      RunAppend(Run(Some(db), UpAll(revisions)), DownAll(rest), Rekeys(Downs(revisions[0])));
      ChainIsUndone(up, rest);
    }
  }

  /** No two widenings of the revision replace the same constraint. */
  ghost predicate NamesDiffer(ws: seq<Widening>) {
    forall i, j :: 0 <= i < j < |ws| ==> ws[i].name != ws[j].name
  }

  lemma KeyAfterUpgrade(db: Db, ws: seq<Widening>, w: Widening)
    requires w in ws && NamesDiffer(ws)
    ensures Stored(Rekeyed(db, Ups(ws)), w.New())
  {
    NamesOfUps(ws, w.name);
    var k := RekeyedAt(db, Ups(ws), w.name);
    var i :| 0 <= i < |ws| && Ups(ws)[i] == k;
    var j :| 0 <= j < |ws| && ws[j] == w;
    assert i == j;
  }

  ghost predicate Untouched(ws: seq<Widening>, w: Widening) {
    forall v :: v in ws ==> v.name != w.name
  }

  lemma KeyKept(db: Db, ws: seq<Widening>, w: Widening)
    requires Untouched(ws, w) && Stored(db, w.Old())
    ensures Stored(Rekeyed(db, Ups(ws)), w.Old())
  {
    NamesOfUps(ws, w.name);
    RekeyedElsewhere(db, Ups(ws), w.name);
  }

  /** The widening starts from the columns the revision gives its constraint. */
  ghost predicate Continues(ws: seq<Widening>, w: Widening) {
    exists v :: v in ws && v.New() == w.Old()
  }

  /** Each constraint of `next` is carried on from `ws` or untouched by it. */
  ghost predicate Follows(db: Db, ws: seq<Widening>, next: seq<Widening>) {
    forall w :: w in next ==> HasColumns(db, w.table, w.wide) && (Continues(ws, w) || (Untouched(ws, w) && Stored(db, w.Old())))
  }

  lemma BeforeNext(db: Db, ws: seq<Widening>, next: seq<Widening>)
    requires NamesDiffer(ws) && Follows(db, ws, next)
    ensures Before(Rekeyed(db, Ups(ws)), next)
  {
    RekeyedElsewhere(db, Ups(ws), "");
    forall w | w in next
      ensures Stored(Rekeyed(db, Ups(ws)), w.Old())
    {
      if Continues(ws, w) {
        var v :| v in ws && v.New() == w.Old();
        KeyAfterUpgrade(db, ws, v);
      } else {
        KeyKept(db, ws, w);
      }
    }
  }

  /** The revisions that replace natural keys of the cadastral and reference forms, oldest first. */
  const HISTORY := [REVISION_1C2D, REVISION_6E7F, REVISION_CFCC, REVISION_E768]

  /** Each later widening starts from the columns that the last one before it gave its constraint. */
  ghost predicate Continuous(a: seq<Widening>, b: seq<Widening>, c: seq<Widening>, d: seq<Widening>) {
    && |a| == 1 && |b| == 9 && |c| == 1 && |d| == 2
    && AllProper(a) && AllProper(b) && AllProper(c) && AllProper(d)
    && NamesDiffer(b)
    && a[0].New() == b[0].Old()
    && b[4].New() == c[0].Old()
    && b[6].New() == d[0].Old()
    && b[7].New() == d[1].Old()
  }

  /** All these names but two have different lengths. */
  ghost predicate LengthsOf6e7f(ws: seq<Widening>) {
    && |ws| == 9
    && |ws[0].name| == 24 && |ws[1].name| == 30 && |ws[2].name| == 40 && |ws[3].name| == 54 && |ws[4].name| == 41
    && |ws[5].name| == 36 && |ws[6].name| == 40 && |ws[7].name| == 42 && |ws[8].name| == 44
    && ws[2].name[4] == 'c' && ws[6].name[4] == 'r'
  }

  lemma LengthsTellApart(ws: seq<Widening>)
    requires LengthsOf6e7f(ws)
    ensures NamesDiffer(ws)
  {
  }

  lemma HistoryIsContinuous()
    ensures Continuous(REVISION_1C2D, REVISION_6E7F, REVISION_CFCC, REVISION_E768)
  {
    WideningsProper();
    LengthsAre();
    LengthsTellApart(REVISION_6E7F);
    KeysContinue();
  }

  lemma LengthsAre()
    ensures LengthsOf6e7f(REVISION_6E7F)
  {
  }

  lemma KeysContinue()
    ensures FCA_DRI_1C2D.New() == FCA_DRI_6E7F.Old()
    ensures FRE_ADMIN_MEMB_CONS_FISC_6E7F.New() == FRE_ADMIN_MEMB_CONS_FISC_CFCC.Old()
    ensures FRE_RELACOES_FAMILIARES_6E7F.New() == FRE_RELACOES_FAMILIARES_E768.Old()
    ensures FRE_RELACOES_SUBORDINACAO_6E7F.New() == FRE_RELACOES_SUBORDINACAO_E768.Old()
  {
  }

  /** Every constraint has the columns it had before the first of these
      revisions, and the tables have every column a later key uses. */
  ghost predicate AtStart(db: Db, a: seq<Widening>, b: seq<Widening>, c: seq<Widening>, d: seq<Widening>) {
    && Before(db, a)
    && (forall i :: 1 <= i < |b| ==> Stored(db, b[i].Old()))
    && (forall w :: w in b + c + d ==> HasColumns(db, w.table, w.wide))
  }

  lemma FromFirst(db: Db, a: seq<Widening>, b: seq<Widening>, c: seq<Widening>, d: seq<Widening>)
    requires Continuous(a, b, c, d) && AtStart(db, a, b, c, d)
    ensures Before(Rekeyed(db, Ups(a)), b)
  {
  }

  lemma FollowsThird(db: Db, b: seq<Widening>, c: seq<Widening>, d: seq<Widening>)
    requires |b| == 9 && |c| == 1 && |d| == 2 && NamesDiffer(b) && forall w :: w in d ==> HasColumns(db, w.table, w.wide)
    requires b[4].New() == c[0].Old() && b[6].New() == d[0].Old() && b[7].New() == d[1].Old()
    ensures Follows(Rekeyed(db, Ups(b)), c, d)
  {
    RekeyedElsewhere(db, Ups(b), "");
    assert b[6].name != c[0].name && b[7].name != c[0].name;
    KeyAfterUpgrade(db, b, b[6]);
    KeyAfterUpgrade(db, b, b[7]);
  }

  lemma FromSecond(db: Db, a: seq<Widening>, b: seq<Widening>, c: seq<Widening>, d: seq<Widening>)
    requires Continuous(a, b, c, d) && Before(db, b) && forall w :: w in c + d ==> HasColumns(db, w.table, w.wide)
    ensures var db' := Rekeyed(db, Ups(b)); Before(db', c) && Before(Rekeyed(db', Ups(c)), d)
  {
    RekeyedElsewhere(db, Ups(b), "");
    assert Continues(b, c[0]) by { assert b[4] in b; }
    BeforeNext(db, b, c);
    FollowsThird(db, b, c, d);
    BeforeNext(Rekeyed(db, Ups(b)), c, d);
  }

  lemma HistoryIsLinked(db: Db, a: seq<Widening>, b: seq<Widening>, c: seq<Widening>, d: seq<Widening>)
    requires Continuous(a, b, c, d) && AtStart(db, a, b, c, d)
    ensures Linked(db, [a, b, c, d])
  {
    var db1 := Rekeyed(db, Ups(a));
    var db2 := Rekeyed(db1, Ups(b));
    var db3 := Rekeyed(db2, Ups(c));
    RekeyedElsewhere(db, Ups(a), "");
    FromFirst(db, a, b, c, d);
    FromSecond(db1, a, b, c, d);
    assert [d][1..] == [] && [c, d][1..] == [d] && [b, c, d][1..] == [c, d] && [a, b, c, d][1..] == [b, c, d];
    assert Linked(db3, [d]);
    assert Linked(db2, [c, d]);
    assert Linked(db1, [b, c, d]);
  }

  /** Whatever rows a valid database holds, none of the key widenings in the
      history can reject them, no row is changed, and downgrading through all of
      them again restores the database. */
  lemma HistoryAcceptsAllData(db: Db)
    requires Valid(db) && AtStart(db, REVISION_1C2D, REVISION_6E7F, REVISION_CFCC, REVISION_E768)
    ensures Run(Some(db), UpAll(HISTORY)) == Some(UpgradedAll(db, HISTORY))
    ensures Valid(UpgradedAll(db, HISTORY)) && UpgradedAll(db, HISTORY).tables == db.tables
    ensures Run(Run(Some(db), UpAll(HISTORY)), DownAll(HISTORY)) == Some(db)
  {
    HistoryIsContinuous();
    HistoryIsLinked(db, REVISION_1C2D, REVISION_6E7F, REVISION_CFCC, REVISION_E768);
    ChainSucceeds(db, HISTORY);
    ChainIsUndone(db, HISTORY);
  }

  // ----- The migrations -----

  /** drop_constraint and create_unique_constraint of the same name. */
  method Replace(op: Operations, k: Key)
    modifies op
    ensures op.Outcome() == Run(old(op.Outcome()), Rekey(k))
  {
    op.Do(DropConstraint(k.table, k.name));
    op.Do(CreateUnique(k.table, k.name, k.cols));
    RunCons(old(op.Outcome()), DropConstraint(k.table, k.name), [CreateUnique(k.table, k.name, k.cols)]);
    RunCons(Then(old(op.Outcome()), DropConstraint(k.table, k.name)), CreateUnique(k.table, k.name, k.cols), []);
    assert Rekey(k) == [DropConstraint(k.table, k.name)] + [CreateUnique(k.table, k.name, k.cols)];
  }

  lemma RekeysFrom(state: Option<Db>, ks: seq<Key>, i: nat)
    requires i < |ks|
    ensures Run(state, Rekeys(ks[i..])) == Run(Run(state, Rekey(ks[i])), Rekeys(ks[i + 1..]))
  {
    assert ks[i..][0] == ks[i] && ks[i..][1..] == ks[i + 1..];
    RunAppend(state, Rekey(ks[i]), Rekeys(ks[i + 1..]));
  }

  lemma RekeysOfThree(state: Option<Db>, ks: seq<Key>, i: nat)
    requires i + 2 < |ks|
    ensures Run(state, Rekeys(ks[i..])) ==
      Run(Run(Run(Run(state, Rekey(ks[i])), Rekey(ks[i + 1])), Rekey(ks[i + 2])), Rekeys(ks[i + 3..]))
  {
    RekeysFrom(state, ks, i);
    RekeysFrom(Run(state, Rekey(ks[i])), ks, i + 1);
    RekeysFrom(Run(Run(state, Rekey(ks[i])), Rekey(ks[i + 1])), ks, i + 2);
  }

  lemma RekeysOfNine(state: Option<Db>, ks: seq<Key>)
    requires |ks| == 9
    ensures
      var s3 := Run(Run(Run(state, Rekey(ks[0])), Rekey(ks[1])), Rekey(ks[2]));
      var s6 := Run(Run(Run(s3, Rekey(ks[3])), Rekey(ks[4])), Rekey(ks[5]));
      Run(state, Rekeys(ks)) == Run(Run(Run(s6, Rekey(ks[6])), Rekey(ks[7])), Rekey(ks[8]))
  {
    assert ks[0..] == ks;
    RekeysOfThree(state, ks, 0);
    var s3 := Run(Run(Run(state, Rekey(ks[0])), Rekey(ks[1])), Rekey(ks[2]));
    RekeysOfThree(s3, ks, 3);
    RekeysOfThree(Run(Run(Run(s3, Rekey(ks[3])), Rekey(ks[4])), Rekey(ks[5])), ks, 6);
  }

  method Upgrade7b5c9d2e4f11(op: Operations)
    modifies op
    ensures op.Outcome() == Run(old(op.Outcome()), Rekeys(Ups(REVISION_7B5C)))
  {
    RekeysFrom(op.Outcome(), Ups(REVISION_7B5C), 0);
    Replace(op, DEMONSTRACOES_FINANCEIRAS_7B5C.New());
  }

  method Downgrade7b5c9d2e4f11(op: Operations)
    modifies op
    ensures op.Outcome() == Run(old(op.Outcome()), Rekeys(Downs(REVISION_7B5C)))
  {
    RekeysFrom(op.Outcome(), Downs(REVISION_7B5C), 0);
    Replace(op, DEMONSTRACOES_FINANCEIRAS_7B5C.Old());
  }

  method Upgrade1c2d3e4f5a6b(op: Operations)
    modifies op
    ensures op.Outcome() == Run(old(op.Outcome()), Rekeys(Ups(REVISION_1C2D)))
  {
    RekeysFrom(op.Outcome(), Ups(REVISION_1C2D), 0);
    Replace(op, FCA_DRI_1C2D.New());
  }

  method Downgrade1c2d3e4f5a6b(op: Operations)
    modifies op
    ensures op.Outcome() == Run(old(op.Outcome()), Rekeys(Downs(REVISION_1C2D)))
  {
    RekeysFrom(op.Outcome(), Downs(REVISION_1C2D), 0);
    Replace(op, FCA_DRI_1C2D.Old());
  }

  method Upgrade6e7f8a9b0c1d(op: Operations)
    modifies op
    ensures op.Outcome() == Run(old(op.Outcome()), Rekeys(Ups(REVISION_6E7F)))
  {
    Replace(op, FCA_DRI_6E7F.New());
    Replace(op, FCA_AUDITORES_6E7F.New());
    Replace(op, FCA_VALORES_MOBILIARIOS_6E7F.New());
    Replace(op, FRE_POSICOES_ACIONARIAS_CLASSES_ACOES_6E7F.New());
    Replace(op, FRE_ADMIN_MEMB_CONS_FISC_6E7F.New());
    Replace(op, FRE_MEMBROS_COMITES_6E7F.New());
    Replace(op, FRE_RELACOES_FAMILIARES_6E7F.New());
    Replace(op, FRE_RELACOES_SUBORDINACAO_6E7F.New());
    Replace(op, FRE_TRANSACOES_PARTES_RELAC_6E7F.New());
    RekeysOfNine(old(op.Outcome()), Ups(REVISION_6E7F));
  }

  method Downgrade6e7f8a9b0c1d(op: Operations)
    modifies op
    ensures op.Outcome() == Run(old(op.Outcome()), Rekeys(Downs(REVISION_6E7F)))
  {
    Replace(op, FRE_TRANSACOES_PARTES_RELAC_6E7F.Old());
    Replace(op, FRE_RELACOES_SUBORDINACAO_6E7F.Old());
    Replace(op, FRE_RELACOES_FAMILIARES_6E7F.Old());
    Replace(op, FRE_MEMBROS_COMITES_6E7F.Old());
    Replace(op, FRE_ADMIN_MEMB_CONS_FISC_6E7F.Old());
    Replace(op, FRE_POSICOES_ACIONARIAS_CLASSES_ACOES_6E7F.Old());
    Replace(op, FCA_VALORES_MOBILIARIOS_6E7F.Old());
    Replace(op, FCA_AUDITORES_6E7F.Old());
    Replace(op, FCA_DRI_6E7F.Old());
    RekeysOfNine(old(op.Outcome()), Downs(REVISION_6E7F));
  }

  method UpgradeCfcc31a7815b(op: Operations)
    modifies op
    ensures op.Outcome() == Run(old(op.Outcome()), Rekeys(Ups(REVISION_CFCC)))
  {
    RekeysFrom(op.Outcome(), Ups(REVISION_CFCC), 0);
    Replace(op, FRE_ADMIN_MEMB_CONS_FISC_CFCC.New());
  }

  method DowngradeCfcc31a7815b(op: Operations)
    modifies op
    ensures op.Outcome() == Run(old(op.Outcome()), Rekeys(Downs(REVISION_CFCC)))
  {
    RekeysFrom(op.Outcome(), Downs(REVISION_CFCC), 0);
    Replace(op, FRE_ADMIN_MEMB_CONS_FISC_CFCC.Old());
  }

  method UpgradeE768d8885a52(op: Operations)
    modifies op
    ensures op.Outcome() == Run(old(op.Outcome()), Rekeys(Ups(REVISION_E768)))
  {
    ghost var ks := Ups(REVISION_E768);
    assert ks[0..] == ks;
    RekeysFrom(op.Outcome(), ks, 0);
    Replace(op, FRE_RELACOES_FAMILIARES_E768.New());
    RekeysFrom(op.Outcome(), ks, 1);
    Replace(op, FRE_RELACOES_SUBORDINACAO_E768.New());
  }

  method DowngradeE768d8885a52(op: Operations)
    modifies op
    ensures op.Outcome() == Run(old(op.Outcome()), Rekeys(Downs(REVISION_E768)))
  {
    ghost var ks := Downs(REVISION_E768);
    assert ks[0..] == ks;
    RekeysFrom(op.Outcome(), ks, 0);
    Replace(op, FRE_RELACOES_SUBORDINACAO_E768.Old());
    RekeysFrom(op.Outcome(), ks, 1);
    Replace(op, FRE_RELACOES_FAMILIARES_E768.Old());
  }
}
