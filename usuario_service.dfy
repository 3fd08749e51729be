/**
 * `UsuarioServiceImpl`: registration of a user with an e-mail not yet taken,
 * authentication by e-mail and password, and lookup by id.
 */
module UsuarioServiceImpl {
  import opened Wrappers
  import opened Exceptions
  import opened Entities
  import opened Repositories

  const MsgEmailNaoEncontrado := "O e-mail informado não foi encontrado!"
  const MsgSenhaInvalida := "Senha inválida!"
  const MsgEmailJaCadastrado := "Já existe um usuário com este e-mail cadastrado!"

  /** No two stored users share an e-mail. */
  ghost predicate EmailsDistinct(users: map<int, Usuario>)
  {
    forall i, j :: i in users && j in users && users[i].email == users[j].email ==> i == j
  }

  /** Some stored user has this e-mail. */
  predicate EmailTaken(users: map<int, Usuario>, email: Option<string>)
  {
    exists k :: k in users && users[k].email == email
  }

  /** Storing a user whose e-mail no one has keeps the e-mails distinct, whatever key it goes under. */
  lemma PutKeepsEmailsDistinct(users: map<int, Usuario>, k: int, u: Usuario)
    requires EmailsDistinct(users)
    requires !EmailTaken(users, u.email)
    ensures EmailsDistinct(users[k := u])
  {
  }

  class UsuarioService {
    const repository: UsuarioRepository

    /** The store is well formed and e-mails identify users. */
    ghost predicate Valid()
      reads this, repository
    {
      repository.Valid() && EmailsDistinct(repository.users)
    }

    constructor (repository: UsuarioRepository)
      requires repository.Valid() && EmailsDistinct(repository.users)
      ensures this.repository == repository && Valid()
    {
      this.repository := repository;
    }

    /**
     * `autenticar`: an unknown e-mail and a wrong password are refused with
     * their own messages, the e-mail being checked first; a stored user
     * without a password makes the comparison dereference null. On success
     * the result is the stored user with that e-mail and that password.
     */
    function Autenticar(email: Option<string>, senha: Option<string>): (r: Result<Usuario, Failure>)
      requires Valid()
      reads this, repository
      ensures r == Failure(ErroValidacao(MsgEmailNaoEncontrado)) <==> !EmailTaken(repository.users, email)
      ensures r == Failure(ErroValidacao(MsgSenhaInvalida)) <==>
                exists k :: k in repository.users && repository.users[k].email == email
                            && repository.users[k].senha.Some? && repository.users[k].senha != senha
      ensures r == Failure(NullPointer) <==>
                exists k :: k in repository.users && repository.users[k].email == email
                            && repository.users[k].senha.None?
      ensures r.Success? <==>
                exists k :: k in repository.users && repository.users[k].email == email
                            && repository.users[k].senha.Some? && repository.users[k].senha == senha
      ensures r.Success? ==>
                exists k :: k in repository.users && repository.users[k] == r.value
                            && r.value.email == email && r.value.senha == senha
    {
      var usuario := repository.FindByEmail(email);
      if usuario.None? then
        Failure(ErroValidacao(MsgEmailNaoEncontrado))
      else if usuario.value.senha.None? then
        // `getSenha().equals(senha)` on a null password
        Failure(NullPointer)
      else if usuario.value.senha != senha then
        Failure(ErroValidacao(MsgSenhaInvalida))
      else
        Success(usuario.value)
    }

    /** `validarEmail`: throws the duplicate-e-mail business error exactly when a stored user has it. */
    function ValidarEmail(email: Option<string>): (r: Outcome<Failure>)
      reads this, repository
      ensures r.Fail? <==> EmailTaken(repository.users, email)
      ensures r.Fail? ==> r.error == RegraNegocio(MsgEmailJaCadastrado)
    {
      if repository.ExistsByEmail(email) then Fail(RegraNegocio(MsgEmailJaCadastrado)) else Pass
    }

    /**
     * `salvar`: a taken e-mail is refused and nothing is stored; otherwise the
     * user is stored, under a fresh id when it had none, and the e-mails stay
     * distinct.
     */
    method Salvar(u: Usuario) returns (r: Result<Usuario, Failure>)
      requires Valid()
      modifies repository
      ensures Valid()
      ensures EmailTaken(old(repository.users), u.email) ==>
                r == Failure(RegraNegocio(MsgEmailJaCadastrado)) && unchanged(repository)
      ensures !EmailTaken(old(repository.users), u.email) ==>
                r.Success? && repository.SavedFrom(u, r.value)
      ensures r.Success? && u.id.None? ==>
                && r.value.id == Some(old(repository.nextId))
                && old(repository.nextId) !in old(repository.users)
                && repository.users == old(repository.users)[old(repository.nextId) := r.value]
      ensures r.Success? && u.senha.Some? ==> Autenticar(u.email, u.senha) == Success(r.value)
    {
      var v := ValidarEmail(u.email);
      if v.Fail? {
        return Failure(v.error);
      }
      var k := AssignedId(repository.users, repository.nextId, u.id);
      PutKeepsEmailsDistinct(repository.users, k, u.(id := Some(k)));
      var saved := repository.Save(u);
      r := Success(saved);
    }

    /** `findByUsuarioId`: the user stored under that id, if any. */
    function FindByUsuarioId(id: int): (r: Option<Usuario>)
      requires Valid()
      reads this, repository
      ensures r.Some? <==> id in repository.users
      ensures r.Some? ==> r.value == repository.users[id] && r.value.id == Some(id)
    {
      repository.FindById(id)
    }
  }
}
