/**
 * The two Spring Data repositories the services call, as in-memory stores:
 * a map from generated id to row and the next id to generate. Only the
 * behaviour the services use is modelled: save (insert or update), delete,
 * find by id, find by example, find and test by e-mail, and the sum query.
 */
module Repositories {
  import opened Wrappers
  import opened Entities

  /** A non-empty finite set of ints has a least element. */
  lemma {:induction false} MinimumExists(s: set<int>)
    requires s != {}
    ensures exists k :: k in s && forall j :: j in s ==> k <= j
    decreases |s|
  {
    if forall x :: x !in s {
      assert false;
    }
    var x :| x in s;
    if forall j :: j in s ==> x <= j {
      assert x in s;
    } else {
      var y :| y in s && y < x;
      var rest := s - {x};
      assert y in rest;
      assert |rest| < |s|;
      MinimumExists(rest);
      var m :| m in rest && forall j :: j in rest ==> m <= j;
      forall j | j in s
        ensures m <= j
      {
        if j != x {
          assert j in rest;
        } else {
          assert m <= y;
        }
      }
      assert m in s;
    }
  }

  /** The least key of a non-empty set: folds over stored rows go in id order. */
  function MinKey(s: set<int>): (k: int)
    requires s != {}
    ensures k in s && forall j :: j in s ==> k <= j
  {
    MinimumExists(s);
    var k :| k in s && forall j :: j in s ==> k <= j;
    k
  }

  /**
   * The id under which `save` stores an entity: its own id when a row with
   * that id exists (an update), the next generated id otherwise (an insert;
   * an id with no row behind it is replaced, as a JPA merge of an unknown
   * entity does).
   */
  function AssignedId<T>(rows: map<int, T>, nextId: int, id: Option<int>): int
  {
    if id.Some? && id.value in rows then id.value else nextId
  }

  /** `text` contains `fragment` (the CONTAINING string matcher, without case folding). */
  predicate Contains(text: string, fragment: string)
  {
    exists i :: 0 <= i <= |text| && fragment <= text[i..]
  }

  /** A probe field matches when it is null or equal to the stored one. */
  predicate ValueMatches<T(==)>(probe: Option<T>, value: Option<T>)
  {
    probe.None? || probe == value
  }

  /** A probe text matches when it is null or contained in the stored text. */
  predicate TextMatches(probe: Option<string>, value: Option<string>)
  {
    probe.None? || (value.Some? && Contains(value.value, probe.value))
  }

  predicate UsuarioMatches(probe: Usuario, u: Usuario)
  {
    && ValueMatches(probe.id, u.id)
    && TextMatches(probe.nome, u.nome)
    && TextMatches(probe.email, u.email)
    && TextMatches(probe.senha, u.senha)
  }

  /** Every string contains itself. */
  lemma ContainsItself(text: string)
    ensures Contains(text, text)
  {
    assert text <= text[0..];
  }

  /**
   * The user row an entry refers to. The entry table holds only the owner's
   * id; the row behind it is the one stored under that id in the user table.
   */
  function OwnerRow(users: map<int, Usuario>, e: Lancamento): (r: Option<Usuario>)
    ensures r.Some? <==> e.usuario.Some? && e.usuario.value.id.Some? && e.usuario.value.id.value in users
    ensures r.Some? ==> r.value == users[e.usuario.value.id.value]
  {
    if e.usuario.Some? && e.usuario.value.id.Some? && e.usuario.value.id.value in users
    then Some(users[e.usuario.value.id.value])
    else None
  }

  /**
   * Query by example: every non-null field of the probe matches the stored
   * entry; the probe's owner is matched against the user row the entry refers
   * to, as the join of the query does.
   */
  predicate LancamentoMatches(probe: Lancamento, e: Lancamento, users: map<int, Usuario>): (b: bool)
    ensures probe == Lancamento(None, None, None, None, None, None, None, None) ==> b
    ensures b && probe.usuario.Some? ==> OwnerRow(users, e).Some?
    ensures b && probe.id.Some? ==> e.id == probe.id
  {
    && ValueMatches(probe.id, e.id)
    && TextMatches(probe.descricao, e.descricao)
    && ValueMatches(probe.mes, e.mes)
    && ValueMatches(probe.ano, e.ano)
    && (probe.usuario.None? || (OwnerRow(users, e).Some? && UsuarioMatches(probe.usuario.value, OwnerRow(users, e).value)))
    && ValueMatches(probe.valor, e.valor)
    && ValueMatches(probe.tipo, e.tipo)
    && ValueMatches(probe.status, e.status)
  }

  /**
   * An entry is found by the probe made of its own fields and the user row it
   * refers to, or by its own fields alone.
   */
  lemma LancamentoMatchesItself(e: Lancamento, users: map<int, Usuario>)
    ensures LancamentoMatches(e.(usuario := None), e, users)
    ensures OwnerRow(users, e).Some? ==> LancamentoMatches(e.(usuario := OwnerRow(users, e)), e, users)
  {
    if e.descricao.Some? {
      ContainsItself(e.descricao.value);
    }
    var owner := OwnerRow(users, e);
    if owner.Some? {
      if owner.value.nome.Some? {
        ContainsItself(owner.value.nome.value);
      }
      if owner.value.email.Some? {
        ContainsItself(owner.value.email.value);
      }
      if owner.value.senha.Some? {
        ContainsItself(owner.value.senha.value);
      }
    }
  }

  /** The rows the sum query adds up: the user's entries of the type that have a value. */
  predicate CountsTowards(e: Lancamento, usuarioId: int, tipo: TipoLancamento)
  {
    e.usuario.Some? && e.usuario.value.id == Some(usuarioId) && e.tipo == Some(tipo) && e.valor.Some?
  }

  /** SUM(valor) over the matching rows, taken in id order; 0 when none match. */
  function SumMatching(m: map<int, Lancamento>, usuarioId: int, tipo: TipoLancamento): (r: real)
    ensures (forall k :: k in m ==> !CountsTowards(m[k], usuarioId, tipo)) ==> r == 0.0
    ensures (forall k :: k in m && CountsTowards(m[k], usuarioId, tipo) ==> m[k].valor.value > 0.0) ==>
              r >= 0.0 && ((exists k :: k in m && CountsTowards(m[k], usuarioId, tipo)) ==> r > 0.0)
    decreases m.Keys
  {
    if m == map[] then 0.0
    else
      var k := MinKey(m.Keys);
      var rest := m - {k};
      var here := if CountsTowards(m[k], usuarioId, tipo) then m[k].valor.value else 0.0;
      assert forall j :: j in rest ==> j in m && rest[j] == m[j];
      here + SumMatching(rest, usuarioId, tipo)
  }

  /**
   * The entry store behind `LancamentoRepository`. It shares the database with
   * the user store, whose rows the owner of an entry is resolved against.
   */
  class LancamentoRepository {
    var entries: map<int, Lancamento>
    var nextId: int
    const usuarios: UsuarioRepository

    /** Ids are generated from 1 upwards, and every row carries its own key as its id. */
    ghost predicate Valid()
      reads this
    {
      1 <= nextId && forall k :: k in entries ==> 1 <= k < nextId && entries[k].id == Some(k)
    }

    constructor (usuarios: UsuarioRepository)
      ensures Valid() && entries == map[] && nextId == 1 && this.usuarios == usuarios
    {
      this.usuarios := usuarios;
      entries := map[];
      nextId := 1;
    }

    /** `save(l)` returned `saved`: `l` with its assigned id, stored under that id and nowhere else. */
    twostate predicate SavedFrom(l: Lancamento, saved: Lancamento)
      reads this
    {
      var k := AssignedId(old(entries), old(nextId), l.id);
      && saved == l.(id := Some(k))
      && entries == old(entries)[k := saved]
      && nextId == (if k == old(nextId) then old(nextId) + 1 else old(nextId))
    }

    method Save(l: Lancamento) returns (saved: Lancamento)
      requires Valid()
      modifies this
      ensures Valid()
      ensures SavedFrom(l, saved)
    {
      var k := AssignedId(entries, nextId, l.id);
      saved := l.(id := Some(k));
      entries := entries[k := saved];
      if k == nextId {
        nextId := nextId + 1;
      }
    }

    /** `delete`: the row with that id is gone, if there was one. */
    method Delete(id: int)
      requires Valid()
      modifies this
      ensures Valid()
      ensures entries == old(entries) - {id} && nextId == old(nextId)
    {
      entries := entries - {id};
    }

    function FindById(id: int): (r: Option<Lancamento>)
      reads this
    {
      if id in entries then Some(entries[id]) else None
    }

    /** `findAll(Example)`: the stored entries the probe matches. */
    function FindAll(probe: Lancamento): (r: set<Lancamento>)
      reads this, usuarios
      ensures forall k :: k in entries ==> (entries[k] in r <==> LancamentoMatches(probe, entries[k], usuarios.users))
      ensures forall e :: e in r ==> exists k :: k in entries && entries[k] == e
    {
      set k | k in entries && LancamentoMatches(probe, entries[k], usuarios.users) :: entries[k]
    }

    /** `obterSaldoPorTipoLancamentoEUsuario`: the SUM query, null when no row matches. */
    function SumByTipoAndUsuario(usuarioId: int, tipo: TipoLancamento): (r: Option<real>)
      reads this
      ensures r.None? <==> forall k :: k in entries ==> !CountsTowards(entries[k], usuarioId, tipo)
      ensures r.Some? ==> r.value == SumMatching(entries, usuarioId, tipo)
    {
      if exists k :: k in entries && CountsTowards(entries[k], usuarioId, tipo)
      then Some(SumMatching(entries, usuarioId, tipo))
      else None
    }
  }

  /** The user store behind `UsuarioRepository`. */
  class UsuarioRepository {
    var users: map<int, Usuario>
    var nextId: int

    ghost predicate Valid()
      reads this
    {
      1 <= nextId && forall k :: k in users ==> 1 <= k < nextId && users[k].id == Some(k)
    }

    constructor ()
      ensures Valid() && users == map[] && nextId == 1
    {
      users := map[];
      nextId := 1;
    }

    twostate predicate SavedFrom(u: Usuario, saved: Usuario)
      reads this
    {
      var k := AssignedId(old(users), old(nextId), u.id);
      && saved == u.(id := Some(k))
      && users == old(users)[k := saved]
      && nextId == (if k == old(nextId) then old(nextId) + 1 else old(nextId))
    }

    method Save(u: Usuario) returns (saved: Usuario)
      requires Valid()
      modifies this
      ensures Valid()
      ensures SavedFrom(u, saved)
    {
      var k := AssignedId(users, nextId, u.id);
      saved := u.(id := Some(k));
      users := users[k := saved];
      if k == nextId {
        nextId := nextId + 1;
      }
    }

    function FindById(id: int): (r: Option<Usuario>)
      reads this
    {
      if id in users then Some(users[id]) else None
    }

    /** `existsByEmail` (a null e-mail matches a user whose e-mail is null). */
    function ExistsByEmail(email: Option<string>): (r: bool)
      reads this
      ensures r <==> email in (set k | k in users :: users[k].email)
    {
      var found := exists k :: k in users && users[k].email == email;
      assert found ==> email in (set k | k in users :: users[k].email) by {
        if found {
          var k :| k in users && users[k].email == email;
        }
      }
      found
    }

    /** `findByEmail`: a stored user with that e-mail (the one with the least id, should there be several). */
    function FindByEmail(email: Option<string>): (r: Option<Usuario>)
      reads this
      ensures r.None? <==> !ExistsByEmail(email)
      ensures r.Some? ==> exists k :: k in users && users[k] == r.value && r.value.email == email
    {
      var ks := set k | k in users && users[k].email == email;
      assert ExistsByEmail(email) ==> ks != {} by {
        if ExistsByEmail(email) {
          var k :| k in users && users[k].email == email;
          assert k in ks;
        }
      }
      if ks == {} then None else Some(users[MinKey(ks)])
    }
  }
}
