/** The two persisted entities and the two enumerations of an entry. */
module Entities {
  import opened Wrappers
  import opened JavaLang

  /** `StatusLancamento`: the lifecycle tag of an entry. */
  datatype StatusLancamento = Pendente | Efetivado | Cancelado

  /** `TipoLancamento`: income or expense. */
  datatype TipoLancamento = Receita | Despesa

  /** A user account. Every field is a nullable Java reference. */
  datatype Usuario = Usuario(
    id: Option<int>,
    nome: Option<string>,
    email: Option<string>,
    senha: Option<string>)

  /**
   * An entry (income or expense record). `mes` and `ano` are Java `Integer`s,
   * `valor` a `BigDecimal` (exact, so a real). `usuario` is the owner object the
   * caller set; the store keeps it as given, and the search resolves the owner
   * through the user table by its id.
   */
  datatype Lancamento = Lancamento(
    id: Option<int>,
    descricao: Option<string>,
    mes: Option<int32>,
    ano: Option<int32>,
    usuario: Option<Usuario>,
    valor: Option<real>,
    tipo: Option<TipoLancamento>,
    status: Option<StatusLancamento>)
}
