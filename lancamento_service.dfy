/**
 * `LancamentoServiceImpl`: validation of an entry, its lifecycle (create,
 * update, delete, status change) over the entry store, search, and the
 * balance of a user.
 */
module LancamentoServiceImpl {
  import opened Wrappers
  import opened Exceptions
  import opened JavaLang
  import opened Entities
  import opened Repositories

  const MsgDescricao := "Informe um lançamento válido!"
  const MsgMes := "Informe um mês válido!"
  const MsgAno := "Informe um ano válido!"
  const MsgUsuario := "Informe um usuário existente!"
  const MsgValor := "Informe um valor válido!"
  const MsgTipo := "Informe um tipo de lançamento!"

  // ---------------------------------------------------------------------
  // Validation
  // ---------------------------------------------------------------------

  /** `validar`: the guard chain as written; the first failing guard throws. */
  function Validar(l: Lancamento): (r: Outcome<Failure>)
    ensures r.Fail? ==> r.error.RegraNegocio? && r.error.message in [MsgDescricao, MsgMes, MsgAno, MsgUsuario, MsgValor, MsgTipo]
    ensures r.Pass? ==> l.descricao.Some? && l.mes.Some? && l.ano.Some? && l.usuario.Some? && l.valor.Some? && l.tipo.Some?
  {
    if l.descricao.None? || Trim(l.descricao.value) == "" then
      Fail(RegraNegocio(MsgDescricao))
    else if l.mes.None? || l.mes.value < 1 || l.mes.value > 12 then
      Fail(RegraNegocio(MsgMes))
    else if l.ano.None? || |IntegerToString(l.ano.value)| != 4 then
      Fail(RegraNegocio(MsgAno))
    else if l.usuario.None? || l.usuario.value.id.None? then
      Fail(RegraNegocio(MsgUsuario))
    else if l.valor.None? || l.valor.value <= 0.0 then
      // `compareTo(BigDecimal.ZERO) < 1`
      Fail(RegraNegocio(MsgValor))
    else if l.tipo.None? then
      Fail(RegraNegocio(MsgTipo))
    else
      Pass
  }

  /** The six rules an entry must meet, in the order they are checked. */
  datatype Rule = DescricaoRule | MesRule | AnoRule | UsuarioRule | ValorRule | TipoRule

  const RuleOrder: seq<Rule> := [DescricaoRule, MesRule, AnoRule, UsuarioRule, ValorRule, TipoRule]

  function Message(rule: Rule): string
  {
    match rule
    case DescricaoRule => MsgDescricao
    case MesRule => MsgMes
    case AnoRule => MsgAno
    case UsuarioRule => MsgUsuario
    case ValorRule => MsgValor
    case TipoRule => MsgTipo
  }

  /** What each rule demands, stated on values rather than through Java's string operations. */
  predicate Holds(rule: Rule, l: Lancamento)
  {
    match rule
    case DescricaoRule => l.descricao.Some? && !IsBlank(l.descricao.value)
    case MesRule => l.mes.Some? && 1 <= l.mes.value <= 12
    case AnoRule => l.ano.Some? && (1000 <= l.ano.value <= 9999 || -999 <= l.ano.value <= -100)
    case UsuarioRule => l.usuario.Some? && l.usuario.value.id.Some?
    case ValorRule => l.valor.Some? && l.valor.value > 0.0
    case TipoRule => l.tipo.Some?
  }

  /** The first rule of `rules` that `l` breaks, if any. */
  function FirstViolation(rules: seq<Rule>, l: Lancamento): Option<Rule>
  {
    if rules == [] then None
    else if !Holds(rules[0], l) then Some(rules[0])
    else FirstViolation(rules[1..], l)
  }

  lemma {:induction false} FirstViolationIsFirst(rules: seq<Rule>, l: Lancamento)
    ensures FirstViolation(rules, l).None? <==> forall i :: 0 <= i < |rules| ==> Holds(rules[i], l)
    ensures FirstViolation(rules, l).Some? ==>
              exists i :: 0 <= i < |rules| && rules[i] == FirstViolation(rules, l).value
                          && !Holds(rules[i], l) && forall j :: 0 <= j < i ==> Holds(rules[j], l)
  {
    if rules != [] && Holds(rules[0], l) {
      FirstViolationIsFirst(rules[1..], l);
      if FirstViolation(rules[1..], l).Some? {
        var i :| 0 <= i < |rules[1..]| && rules[1..][i] == FirstViolation(rules[1..], l).value
                 && !Holds(rules[1..][i], l) && forall j :: 0 <= j < i ==> Holds(rules[1..][j], l);
        assert rules[i + 1] == rules[1..][i];
        forall j | 0 <= j < i + 1
          ensures Holds(rules[j], l)
        {
          if j > 0 {
            assert rules[j] == rules[1..][j - 1];
          }
        }
      } else {
        forall i | 0 <= i < |rules|
          ensures Holds(rules[i], l)
        {
          if i > 0 {
            assert rules[i] == rules[1..][i - 1];
          }
        }
      }
    }
  }

  /** Each guard of `validar` fires exactly when its rule is broken. */
  lemma GuardsAreBrokenRules(l: Lancamento)
    ensures (l.descricao.None? || Trim(l.descricao.value) == "") <==> !Holds(DescricaoRule, l)
    ensures (l.mes.None? || l.mes.value < 1 || l.mes.value > 12) <==> !Holds(MesRule, l)
    ensures (l.ano.None? || |IntegerToString(l.ano.value)| != 4) <==> !Holds(AnoRule, l)
    ensures (l.usuario.None? || l.usuario.value.id.None?) <==> !Holds(UsuarioRule, l)
    ensures (l.valor.None? || l.valor.value <= 0.0) <==> !Holds(ValorRule, l)
    ensures l.tipo.None? <==> !Holds(TipoRule, l)
  {
    if l.ano.Some? {
      IntegerToStringHasFourChars(l.ano.value);
    }
  }

  /** The first broken rule of the six, spelled out rule by rule. */
  lemma FirstViolationInOrder(l: Lancamento)
    ensures FirstViolation(RuleOrder, l) ==
              if !Holds(DescricaoRule, l) then Some(DescricaoRule)
              else if !Holds(MesRule, l) then Some(MesRule)
              else if !Holds(AnoRule, l) then Some(AnoRule)
              else if !Holds(UsuarioRule, l) then Some(UsuarioRule)
              else if !Holds(ValorRule, l) then Some(ValorRule)
              else if !Holds(TipoRule, l) then Some(TipoRule)
              else None
  {
    var r0 := RuleOrder;
    var r1 := [MesRule, AnoRule, UsuarioRule, ValorRule, TipoRule];
    var r2 := [AnoRule, UsuarioRule, ValorRule, TipoRule];
    var r3 := [UsuarioRule, ValorRule, TipoRule];
    var r4 := [ValorRule, TipoRule];
    var r5 := [TipoRule];
    assert r0[1..] == r1 && r1[1..] == r2 && r2[1..] == r3;
    assert r3[1..] == r4 && r4[1..] == r5 && r5[1..] == [];
    assert FirstViolation(r0, l) == if !Holds(DescricaoRule, l) then Some(DescricaoRule) else FirstViolation(r1, l);
    assert FirstViolation(r1, l) == if !Holds(MesRule, l) then Some(MesRule) else FirstViolation(r2, l);
    assert FirstViolation(r2, l) == if !Holds(AnoRule, l) then Some(AnoRule) else FirstViolation(r3, l);
    assert FirstViolation(r3, l) == if !Holds(UsuarioRule, l) then Some(UsuarioRule) else FirstViolation(r4, l);
    assert FirstViolation(r4, l) == if !Holds(ValorRule, l) then Some(ValorRule) else FirstViolation(r5, l);
    assert FirstViolation(r5, l) == if !Holds(TipoRule, l) then Some(TipoRule) else FirstViolation([], l);
  }

  /** `validar` throws the message of the first rule, in rule order, that the entry breaks. */
  lemma ValidarIsFirstViolation(l: Lancamento)
    ensures Validar(l) == match FirstViolation(RuleOrder, l)
                          case None => Pass
                          case Some(rule) => Fail(RegraNegocio(Message(rule)))
  {
    GuardsAreBrokenRules(l);
    FirstViolationInOrder(l);
  }

  /** Where a rule sits in `RuleOrder`. */
  function RuleIndex(rule: Rule): (i: nat)
    ensures i < |RuleOrder| && RuleOrder[i] == rule
  {
    match rule
    case DescricaoRule => 0
    case MesRule => 1
    case AnoRule => 2
    case UsuarioRule => 3
    case ValorRule => 4
    case TipoRule => 5
  }

  /**
   * `validar` accepts exactly the entries that meet all six rules; when it
   * throws, it is a business-rule error carrying the message of a broken rule
   * that every earlier rule let through.
   */
  lemma ValidarAcceptsIffAllRulesHold(l: Lancamento)
    ensures Validar(l) == Pass <==> forall rule :: Holds(rule, l)
    ensures Validar(l).Fail? ==>
              exists i :: 0 <= i < |RuleOrder| && !Holds(RuleOrder[i], l)
                          && (forall j :: 0 <= j < i ==> Holds(RuleOrder[j], l))
                          && Validar(l) == Fail(RegraNegocio(Message(RuleOrder[i])))
  {
    ValidarIsFirstViolation(l);
    FirstViolationIsFirst(RuleOrder, l);
    if FirstViolation(RuleOrder, l).None? {
      assert Validar(l) == Pass;
      forall rule: Rule
        ensures Holds(rule, l)
      {
        var i := RuleIndex(rule);
        assert Holds(RuleOrder[i], l);
      }
    } else {
      var i :| 0 <= i < |RuleOrder| && RuleOrder[i] == FirstViolation(RuleOrder, l).value
               && !Holds(RuleOrder[i], l) && forall j :: 0 <= j < i ==> Holds(RuleOrder[j], l);
      assert Validar(l) == Fail(RegraNegocio(Message(RuleOrder[i])));
    }
  }

  /** `validar` looks at neither the id nor the status, so saving or re-tagging keeps an entry valid. */
  lemma ValidarIgnoresIdAndStatus(l: Lancamento, id: Option<int>, status: Option<StatusLancamento>)
    ensures Validar(l.(id := id, status := status)) == Validar(l)
  {
    var l' := l.(id := id, status := status);
    ValidarIsFirstViolation(l);
    ValidarIsFirstViolation(l');
    FirstViolationInOrder(l);
    FirstViolationInOrder(l');
    assert forall rule :: Holds(rule, l') == Holds(rule, l);
  }

  /** The checks of `deveLancarErroAoValidarLancamento`, filling in one field at a time. */
  lemma ValidarTestSequence()
    ensures var empty := Lancamento(None, None, None, None, None, None, None, None);
            var described := empty.(descricao := Some("Qualquer descrição"));
            var dated := described.(mes := Some(1), ano := Some(2020));
            var owned := dated.(usuario := Some(Usuario(Some(1), None, None, None)));
            && Validar(empty) == Fail(RegraNegocio(MsgDescricao))
            && Validar(empty.(descricao := Some(""))) == Fail(RegraNegocio(MsgDescricao))
            && Validar(described) == Fail(RegraNegocio(MsgMes))
            && Validar(described.(mes := Some(0))) == Fail(RegraNegocio(MsgMes))
            && Validar(described.(mes := Some(13))) == Fail(RegraNegocio(MsgMes))
            && Validar(described.(mes := Some(1))) == Fail(RegraNegocio(MsgAno))
            && Validar(dated.(ano := Some(202))) == Fail(RegraNegocio(MsgAno))
            && Validar(dated.(ano := Some(20201))) == Fail(RegraNegocio(MsgAno))
            && Validar(dated) == Fail(RegraNegocio(MsgUsuario))
            && Validar(dated.(usuario := Some(Usuario(None, None, None, None)))) == Fail(RegraNegocio(MsgUsuario))
            && Validar(owned) == Fail(RegraNegocio(MsgValor))
            && Validar(owned.(valor := Some(10.0))) == Fail(RegraNegocio(MsgTipo))
  {
    IntegerToStringHasFourChars(202);
    IntegerToStringHasFourChars(20201);
    IntegerToStringHasFourChars(2020);
    assert !IsTrimmable("Qualquer descrição"[0]);
  }

  // ---------------------------------------------------------------------
  // Balance
  // ---------------------------------------------------------------------

  /** `obterSaldoPorUsuario` after the two queries: a null sum counts as zero. */
  function Saldo(receitas: Option<real>, despesas: Option<real>): (r: real)
    ensures receitas.Some? && despesas.Some? ==> r == receitas.value - despesas.value
    ensures receitas.None? && despesas.Some? ==> r == -despesas.value
    ensures despesas.None? ==> r == (if receitas.Some? then receitas.value else 0.0)
  {
    var receitas := if receitas.None? then 0.0 else receitas.value;
    var despesas := if despesas.None? then 0.0 else despesas.value;
    receitas - despesas
  }

  /** The three balance cases of `LancamentoServiceTest`. */
  lemma SaldoTestCases()
    ensures Saldo(Some(300.0), Some(100.0)) == 200.0
    ensures Saldo(None, Some(100.0)) == -100.0
    ensures Saldo(Some(300.0), None) == 300.0
  {
  }

  /** What an entry adds to its owner's balance: its value as income, minus its value as expense. */
  function Contribution(e: Lancamento, usuarioId: int): real
  {
    if CountsTowards(e, usuarioId, Receita) then e.valor.value
    else if CountsTowards(e, usuarioId, Despesa) then -e.valor.value
    else 0.0
  }

  /** The user's balance, entry by entry: the reference the two sums are checked against. */
  function Balance(m: map<int, Lancamento>, usuarioId: int): real
    decreases m.Keys
  {
    if m == map[] then 0.0
    else
      var k := MinKey(m.Keys);
      assert forall j :: j in m - {k} ==> j in m;
      Contribution(m[k], usuarioId) + Balance(m - {k}, usuarioId)
  }

  /** Income sum minus expense sum is the entry-by-entry balance. */
  lemma {:induction false} BalanceIsIncomeMinusExpense(m: map<int, Lancamento>, usuarioId: int)
    ensures Balance(m, usuarioId) == SumMatching(m, usuarioId, Receita) - SumMatching(m, usuarioId, Despesa)
    decreases m.Keys
  {
    if m != map[] {
      var k := MinKey(m.Keys);
      assert forall j :: j in m - {k} ==> j in m;
      BalanceIsIncomeMinusExpense(m - {k}, usuarioId);
    }
  }

  /** Any one stored entry can be taken out of the balance, whatever its id. */
  lemma {:induction false} BalanceWithout(m: map<int, Lancamento>, k: int, usuarioId: int)
    requires k in m
    ensures Balance(m, usuarioId) == Contribution(m[k], usuarioId) + Balance(m - {k}, usuarioId)
    decreases m.Keys
  {
    var j := MinKey(m.Keys);
    if j != k {
      var mj := m - {j};
      var mk := m - {k};
      assert forall i :: i in mj ==> i in m;
      assert k in mj && mj[k] == m[k];
      BalanceWithout(mj, k, usuarioId);
      assert j in mk && mk[j] == m[j];
      assert MinKey(mk.Keys) == j;
      assert mk - {j} == mj - {k};
    }
  }

  /** Storing `e` under `k` (insert or replace) moves the balance by `e`'s contribution. */
  lemma BalanceAfterPut(m: map<int, Lancamento>, k: int, e: Lancamento, usuarioId: int)
    ensures Balance(m[k := e], usuarioId) == Balance(m - {k}, usuarioId) + Contribution(e, usuarioId)
  {
    BalanceWithout(m[k := e], k, usuarioId);
    assert m[k := e] - {k} == m - {k};
  }

  /** `BalanceAfterPut` for every user at once, as a save needs it. */
  lemma BalanceMovesBySaved(m: map<int, Lancamento>, k: int, e: Lancamento)
    ensures forall u :: Balance(m[k := e], u) == Balance(m - {k}, u) + Contribution(e, u)
    ensures k !in m ==> forall u :: Balance(m[k := e], u) == Balance(m, u) + Contribution(e, u)
  {
    forall u
      ensures Balance(m[k := e], u) == Balance(m - {k}, u) + Contribution(e, u)
    {
      BalanceAfterPut(m, k, e, u);
    }
    if k !in m {
      assert m - {k} == m;
    }
  }

  /** Over valid entries, a user with no expense entry never has a negative balance. */
  lemma BalanceNonNegativeWithoutExpenses(m: map<int, Lancamento>, usuarioId: int)
    requires forall k :: k in m ==> Validar(m[k]) == Pass
    requires forall k :: k in m ==> !CountsTowards(m[k], usuarioId, Despesa)
    ensures Balance(m, usuarioId) >= 0.0
  {
    BalanceIsIncomeMinusExpense(m, usuarioId);
    forall k | k in m
      ensures m[k].valor.Some? && m[k].valor.value > 0.0
    {
      ValidarAcceptsIffAllRulesHold(m[k]);
      assert Holds(ValorRule, m[k]);
    }
  }

  // ---------------------------------------------------------------------
  // The service
  // ---------------------------------------------------------------------

  class LancamentoService {
    const repository: LancamentoRepository

    /** The store is well formed and holds only entries that pass `validar`. */
    ghost predicate Valid()
      reads this, repository
    {
      && repository.Valid()
      && forall k :: k in repository.entries ==> Validar(repository.entries[k]) == Pass
    }

    constructor (repository: LancamentoRepository)
      requires repository.Valid()
      requires forall k :: k in repository.entries ==> Validar(repository.entries[k]) == Pass
      ensures this.repository == repository && Valid()
    {
      this.repository := repository;
    }

    /**
     * `salvar`: an invalid entry is refused and nothing is stored; a valid one
     * is stored as PENDENTE whatever status it came with, under a fresh id
     * when it had none.
     */
    method Salvar(l: Lancamento) returns (r: Result<Lancamento, Failure>)
      requires Valid()
      modifies repository
      ensures Valid()
      ensures Validar(l).Fail? ==> r == Failure(Validar(l).error) && unchanged(repository)
      ensures Validar(l).Pass? ==>
                && r.Success? && r.value.status == Some(Pendente)
                && repository.SavedFrom(l.(status := Some(Pendente)), r.value)
      ensures r.Success? && l.id.None? ==>
                r.value.id == Some(old(repository.nextId)) && old(repository.nextId) !in old(repository.entries)
      ensures r.Success? ==> r.value.id.Some? && FindLancamentoById(r.value.id.value) == Some(r.value)
      ensures r.Success? ==>
                forall u ::
                  Balance(repository.entries, u) == Balance(old(repository.entries) - {r.value.id.value}, u) + Contribution(r.value, u)
      ensures r.Success? && l.id.None? ==>
                forall u :: ObterSaldoPorUsuario(u) == old(ObterSaldoPorUsuario(u)) + Contribution(r.value, u)
    {
      var v := Validar(l);
      if v.Fail? {
        return Failure(v.error);
      }
      var pendente := l.(status := Some(Pendente));
      var saved := repository.Save(pendente);
      ValidarIgnoresIdAndStatus(l, saved.id, saved.status);
      BalanceMovesBySaved(old(repository.entries), saved.id.value, saved);
      r := Success(saved);
    }

    /**
     * `atualizar`: an entry without an id is a fault raised before anything
     * else; otherwise it is validated and saved with the status it carries.
     */
    method Atualizar(l: Lancamento) returns (r: Result<Lancamento, Failure>)
      requires Valid()
      modifies repository
      ensures Valid()
      ensures l.id.None? ==> r == Failure(NullPointer) && unchanged(repository)
      ensures l.id.Some? && Validar(l).Fail? ==> r == Failure(Validar(l).error) && unchanged(repository)
      ensures l.id.Some? && Validar(l).Pass? ==>
                && r.Success? && r.value.status == l.status
                && repository.SavedFrom(l, r.value)
      ensures r.Success? ==> r.value.id.Some? && FindLancamentoById(r.value.id.value) == Some(r.value)
      ensures r.Success? ==>
                forall u ::
                  Balance(repository.entries, u) == Balance(old(repository.entries) - {r.value.id.value}, u) + Contribution(r.value, u)
    {
      if l.id.None? {
        return Failure(NullPointer);
      }
      var v := Validar(l);
      if v.Fail? {
        return Failure(v.error);
      }
      var saved := repository.Save(l);
      ValidarIgnoresIdAndStatus(l, saved.id, saved.status);
      BalanceMovesBySaved(old(repository.entries), saved.id.value, saved);
      r := Success(saved);
    }

    /**
     * `deletar`: an entry without an id is a fault and nothing is removed;
     * otherwise exactly the row with that id goes, without validation.
     */
    method Deletar(l: Lancamento) returns (r: Outcome<Failure>)
      requires Valid()
      modifies repository
      ensures Valid()
      ensures l.id.None? ==> r == Fail(NullPointer) && unchanged(repository)
      ensures l.id.Some? ==>
                && r == Pass
                && repository.entries == old(repository.entries) - {l.id.value}
                && repository.nextId == old(repository.nextId)
      ensures l.id.Some? ==> FindLancamentoById(l.id.value) == None
    {
      if l.id.None? {
        return Fail(NullPointer);
      }
      repository.Delete(l.id.value);
      r := Pass;
    }

    /**
     * `atualizarStatus`: the entry takes the new status first (`updated`, the
     * caller's object after the call, even when the update then throws), and
     * then exactly what `atualizar` does to it happens.
     */
    method AtualizarStatus(l: Lancamento, status: Option<StatusLancamento>) returns (updated: Lancamento, r: Outcome<Failure>)
      requires Valid()
      modifies repository
      ensures Valid()
      ensures updated == l.(status := status)
      ensures updated.id.None? ==> r == Fail(NullPointer) && unchanged(repository)
      ensures updated.id.Some? && Validar(updated).Fail? ==> r == Fail(Validar(updated).error) && unchanged(repository)
      ensures updated.id.Some? && Validar(updated).Pass? ==>
                && r == Pass
                && repository.SavedFrom(updated,
                     updated.(id := Some(AssignedId(old(repository.entries), old(repository.nextId), updated.id))))
    {
      updated := l.(status := status);
      var result := Atualizar(updated);
      r := if result.Success? then Pass else Fail(result.error);
    }

    /** `findLancamentoById`: the entry stored under that id, if any. */
    function FindLancamentoById(id: int): (r: Option<Lancamento>)
      requires Valid()
      reads this, repository
      ensures r.Some? <==> id in repository.entries
      ensures r.Some? ==> r.value == repository.entries[id] && r.value.id == Some(id)
    {
      repository.FindById(id)
    }

    /** `buscar`: the stored entries the probe matches, field by field. */
    function Buscar(probe: Lancamento): (r: set<Lancamento>)
      requires Valid()
      reads this, repository, repository.usuarios
      ensures forall k :: k in repository.entries ==>
                (repository.entries[k] in r <==> LancamentoMatches(probe, repository.entries[k], repository.usuarios.users))
      ensures forall e :: e in r ==> exists k :: k in repository.entries && repository.entries[k] == e
    {
      repository.FindAll(probe)
    }

    /** `obterSaldoPorUsuario`: income minus expenses of the user, entry by entry. */
    function ObterSaldoPorUsuario(usuarioId: int): (saldo: real)
      reads this, repository
      ensures saldo == Balance(repository.entries, usuarioId)
    {
      BalanceIsIncomeMinusExpense(repository.entries, usuarioId);
      Saldo(repository.SumByTipoAndUsuario(usuarioId, Receita), repository.SumByTipoAndUsuario(usuarioId, Despesa))
    }
  }

  /**
   * The probe the search endpoint builds: the optional description, month and
   * year of the request, and the owner's user row as found by its id.
   */
  function SearchProbe(descricao: Option<string>, mes: Option<int32>, ano: Option<int32>, owner: Usuario): Lancamento
  {
    Lancamento(None, descricao, mes, ano, Some(owner), None, None, None)
  }

  /**
   * With the owner's stored row in the probe, the search finds exactly that
   * user's entries whose description contains the requested text and whose
   * month and year are the requested ones (each when given).
   */
  lemma SearchProbeFindsOwnedEntries(users: map<int, Usuario>, usuarioId: int, descricao: Option<string>,
                                     mes: Option<int32>, ano: Option<int32>, e: Lancamento)
    requires usuarioId in users
    requires forall k :: k in users ==> users[k].id == Some(k)
    ensures LancamentoMatches(SearchProbe(descricao, mes, ano, users[usuarioId]), e, users) <==>
              && e.usuario.Some? && e.usuario.value.id == Some(usuarioId)
              && TextMatches(descricao, e.descricao) && ValueMatches(mes, e.mes) && ValueMatches(ano, e.ano)
  {
    var owner := users[usuarioId];
    if owner.nome.Some? {
      ContainsItself(owner.nome.value);
    }
    if owner.email.Some? {
      ContainsItself(owner.email.value);
    }
    if owner.senha.Some? {
      ContainsItself(owner.senha.value);
    }
    assert UsuarioMatches(owner, owner);
    if OwnerRow(users, e).Some? {
      var j := e.usuario.value.id.value;
      assert users[j].id == Some(j);
    }
  }
}
