/** The three ways the services can fail. */
module Exceptions {

  /**
   * `RegraNegocio` is `RegraNegocioException` (a business rule was broken),
   * `ErroValidacao` is `ErroValidacao` (authentication was refused), and
   * `NullPointer` is the `NullPointerException` that `Objects.requireNonNull`
   * or a dereference of a null field raises: a fault of the caller, not of the user.
   */
  datatype Failure =
    | RegraNegocio(message: string)
    | ErroValidacao(message: string)
    | NullPointer
}
