# minhasfinancas — a verified model of the service layer

`minhasfinancas` is a personal-finance backend. Users register with an e-mail
and a password. They record entries (`Lancamento`): an income (`RECEITA`) or
an expense (`DESPESA`) with a description, a month, a year, a value, a status
and an owner. All of the decision logic sits in two services, and this
project models both:

- `LancamentoServiceImpl` validates an entry in six ordered steps. The first
  broken rule decides the message. The service creates entries, forcing the
  status to PENDENTE, and updates them, keeping the caller's status. It
  deletes entries, changes an entry's status, finds one by id, searches by
  example and computes a user's balance: the income sum minus the expense
  sum, where a missing sum counts as zero.
- `UsuarioServiceImpl` registers a user only when the e-mail is not taken.
  It authenticates by e-mail first and then by password, each failure with
  its own message, and finds a user by id.

Layout, one module per file:

| file | module | what it holds |
|---|---|---|
| `wrappers.dfy` | `Wrappers` | `Option`, `Result` and `Outcome`: nulls, `Optional`, and calls that throw |
| `exceptions.dfy` | `Exceptions` | `Failure`: `RegraNegocio`, `ErroValidacao` and the `NullPointer` fault |
| `java_lang.dfy` | `JavaLang` | `int32`, `String.trim` and `Integer.toString` written out, with their lemmas |
| `entities.dfy` | `Entities` | `Usuario`, `Lancamento`, `StatusLancamento`, `TipoLancamento` |
| `repositories.dfy` | `Repositories` | the two stores as classes (a map from id to row plus the next id), the query-by-example matcher and the sum query |
| `lancamento_service.dfy` | `LancamentoServiceImpl` | `Validar`, the rule-order reference, the balance reference and the `LancamentoService` class |
| `usuario_service.dfy` | `UsuarioServiceImpl` | e-mail uniqueness and the `UsuarioService` class |

How the Java becomes Dafny:

- **Entities are values.** A nullable field is an `Option`. A thrown
  exception is the `Failure` arm of a `Result` or an `Outcome`.
- **Stores are classes.** Each store is a class with a `Valid()` invariant.
  Every method that changes a store states its whole new state through the
  twostate predicate `SavedFrom`, or as an explicit map update.
- **Specifications are separate from code.** `Validar` is the guard chain
  exactly as written. It uses `Trim` and the length of `IntegerToString`. It
  is proved equal to a separate reference: `Holds`, `RuleOrder` and
  `FirstViolation`. That reference states each rule directly on the values:
  blank text, the two ranges of four-character years, a value above zero.
- **The balance has a reference too.** The balance is proved equal to
  `Balance`, which adds up each entry's own contribution.

## Model

| member | source | states |
|---|---|---|
| `JavaLang.TrimStart` | src/main/java/com/ajeff/minhasfinancas/services/impl/LancamentoServiceImpl.java:69 | what is left is a suffix that starts with a non-blank character, and what was dropped is blank |
| `JavaLang.TrimEnd` | src/main/java/com/ajeff/minhasfinancas/services/impl/LancamentoServiceImpl.java:69 | what is left is a prefix that ends with a non-blank character, and what was dropped is blank |
| `JavaLang.Trim` | src/main/java/com/ajeff/minhasfinancas/services/impl/LancamentoServiceImpl.java:69 | `trim()` yields "" exactly when every character is at most U+0020; otherwise neither end is blank |
| `JavaLang.IntegerToString` | src/main/java/com/ajeff/minhasfinancas/services/impl/LancamentoServiceImpl.java:77 | `Integer.toString` is a non-empty string that starts with '-' exactly for a negative number |
| `JavaLang.IntegerToStringReadsBack` | src/main/java/com/ajeff/minhasfinancas/services/impl/LancamentoServiceImpl.java:77 | after the optional '-', `Integer.toString` is a non-empty run of decimal digits that, with the sign, reads back as the number itself |
| `JavaLang.NaturalToStringValue` | src/main/java/com/ajeff/minhasfinancas/services/impl/LancamentoServiceImpl.java:77 | the decimal digits of a natural number read back as that number |
| `JavaLang.NaturalToStringLength` | src/main/java/com/ajeff/minhasfinancas/services/impl/LancamentoServiceImpl.java:77 | a natural number has at most k decimal digits exactly when it is below 10^k |
| `JavaLang.IntegerToStringHasFourChars` | src/main/java/com/ajeff/minhasfinancas/services/impl/LancamentoServiceImpl.java:77 | `getAno().toString().length() == 4` holds exactly for 1000..9999 and -999..-100, so 202 and 20201 fail |
| `LancamentoServiceImpl.Validar` | src/main/java/com/ajeff/minhasfinancas/services/impl/LancamentoServiceImpl.java:67-92 | `validar` throws only `RegraNegocioException`, with one of the six messages; an entry it accepts has description, month, year, owner, value and type all non-null |
| `LancamentoServiceImpl.FirstViolationIsFirst` | src/main/java/com/ajeff/minhasfinancas/services/impl/LancamentoServiceImpl.java:67-92 | there is no violation exactly when every rule holds; a reported rule is broken and every earlier rule holds |
| `LancamentoServiceImpl.GuardsAreBrokenRules` | src/main/java/com/ajeff/minhasfinancas/services/impl/LancamentoServiceImpl.java:69-89 | each `if` guard of `validar` fires exactly when its rule is broken (null or blank description, month outside 1..12, year string not four characters long, owner or owner id null, value null or not above zero, type null) |
| `LancamentoServiceImpl.FirstViolationInOrder` | src/main/java/com/ajeff/minhasfinancas/services/impl/LancamentoServiceImpl.java:67-92 | the first broken rule is searched in the order description, month, year, owner, value, type |
| `LancamentoServiceImpl.ValidarIsFirstViolation` | src/main/java/com/ajeff/minhasfinancas/services/impl/LancamentoServiceImpl.java:67-92 | `validar` passes when no rule is broken; otherwise it throws `RegraNegocioException` with the message of the first broken rule |
| `LancamentoServiceImpl.ValidarAcceptsIffAllRulesHold` | src/main/java/com/ajeff/minhasfinancas/services/impl/LancamentoServiceImpl.java:67-92 | `validar` accepts if and only if all six rules hold; a failure carries the message of a broken rule that all earlier rules let through |
| `LancamentoServiceImpl.ValidarIgnoresIdAndStatus` | src/main/java/com/ajeff/minhasfinancas/services/impl/LancamentoServiceImpl.java:67-92 | the verdict does not depend on the id or the status |
| `LancamentoServiceImpl.ValidarTestSequence` | src/test/java/com/ajeff/minhasfinancas/service/LancamentoServiceTest.java:138-188 | the messages of the stepwise test, from an empty entry to a missing type, including years 202 and 20201 |
| `LancamentoServiceImpl.Saldo` | src/main/java/com/ajeff/minhasfinancas/services/impl/LancamentoServiceImpl.java:105-112 | a null sum counts as zero: both present gives income minus expense, no income gives minus the expense, no expense gives the income or zero |
| `LancamentoServiceImpl.SaldoTestCases` | src/test/java/com/ajeff/minhasfinancas/service/LancamentoServiceTest.java:191-216 | 300/100 gives 200, none/100 gives -100, 300/none gives 300 |
| `LancamentoServiceImpl.BalanceIsIncomeMinusExpense` | src/main/java/com/ajeff/minhasfinancas/services/impl/LancamentoServiceImpl.java:101-113 | income sum minus expense sum equals the entry-by-entry balance |
| `LancamentoServiceImpl.BalanceWithout` | src/main/java/com/ajeff/minhasfinancas/services/impl/LancamentoServiceImpl.java:101-113 | any one entry can be taken out of the balance by subtracting its contribution, whatever its id |
| `LancamentoServiceImpl.BalanceAfterPut` | src/main/java/com/ajeff/minhasfinancas/services/impl/LancamentoServiceImpl.java:32-44 | saving an entry under an id changes the balance by the new entry's contribution, less that of the entry it replaces; `Salvar` and `Atualizar` state it of the store they leave |
| `LancamentoServiceImpl.BalanceNonNegativeWithoutExpenses` | src/main/java/com/ajeff/minhasfinancas/services/impl/LancamentoServiceImpl.java:101-113 | when all stored entries are valid, a user with no expense entries has a balance of at least zero |
| `LancamentoServiceImpl.LancamentoService.Salvar` | src/main/java/com/ajeff/minhasfinancas/services/impl/LancamentoServiceImpl.java:32-36 | an invalid entry throws the validation error and the store is unchanged; a valid one is saved with status PENDENTE and every other field as given, under a fresh id when it had none, and is then found by its id; every user's balance moves by the saved entry's contribution, less that of a replaced row (for a new entry, `obterSaldoPorUsuario` grows by exactly its contribution); the store stays valid |
| `LancamentoServiceImpl.LancamentoService.Atualizar` | src/main/java/com/ajeff/minhasfinancas/services/impl/LancamentoServiceImpl.java:40-44 | a null id is a `NullPointer` fault before validation and the store is unchanged; otherwise the entry is validated, saved with its own status and then found by its id; every user's balance moves by the new entry's contribution less the replaced row's |
| `LancamentoServiceImpl.LancamentoService.Deletar` | src/main/java/com/ajeff/minhasfinancas/services/impl/LancamentoServiceImpl.java:48-51 | a null id is a `NullPointer` fault and the store is unchanged; otherwise exactly the row with that id is removed, without validation, and is no longer found |
| `LancamentoServiceImpl.LancamentoService.AtualizarStatus` | src/main/java/com/ajeff/minhasfinancas/services/impl/LancamentoServiceImpl.java:61-64 | the entry takes the new status, null included, even when the update then fails, and the outcome and the store are what `atualizar` of the updated entry gives |
| `LancamentoServiceImpl.LancamentoService.FindLancamentoById` | src/main/java/com/ajeff/minhasfinancas/services/impl/LancamentoServiceImpl.java:95-97 | the entry stored under the id, which carries that id, or none |
| `LancamentoServiceImpl.LancamentoService.Buscar` | src/main/java/com/ajeff/minhasfinancas/services/impl/LancamentoServiceImpl.java:54-58 | exactly the stored entries that the probe matches, the probe's owner being matched against the user row each entry refers to |
| `LancamentoServiceImpl.LancamentoService.ObterSaldoPorUsuario` | src/main/java/com/ajeff/minhasfinancas/services/impl/LancamentoServiceImpl.java:101-113 | the two sums, a null sum taken as zero, subtracted: equal to the user's entry-by-entry balance |
| `LancamentoServiceImpl.SearchProbeFindsOwnedEntries` | src/main/java/com/ajeff/minhasfinancas/controller/LancamentoController.java:58-73 | the probe the search endpoint builds, holding the owner's stored user row, matches exactly that user's entries that also match the requested description, month and year |
| `Repositories.SumMatching` | src/main/java/com/ajeff/minhasfinancas/services/impl/LancamentoServiceImpl.java:102-103 | the sum over no matching row is 0; over positive values it is at least 0, and above 0 when a row matches |
| `Repositories.OwnerRow` | src/main/java/com/ajeff/minhasfinancas/services/impl/LancamentoServiceImpl.java:55-57 | a definition, not a derived property: the owner an entry is matched through is the user row stored under the entry's owner id, and there is none when that id has no row; what the join means for a search is proved in `SearchProbeFindsOwnedEntries` |
| `Repositories.LancamentoMatches` | src/main/java/com/ajeff/minhasfinancas/services/impl/LancamentoServiceImpl.java:55-56 | the query-by-example matcher: the all-null probe matches every entry, a probe with an owner matches only entries whose owner row exists, a probe with an id only the entry with that id |
| `Repositories.LancamentoMatchesItself` | src/main/java/com/ajeff/minhasfinancas/services/impl/LancamentoServiceImpl.java:55-56 | an entry is matched by the probe made of its own fields, with or without its owner's row |
| `Repositories.LancamentoRepository.SumByTipoAndUsuario` | src/main/java/com/ajeff/minhasfinancas/services/impl/LancamentoServiceImpl.java:102-103 | the sum query is null exactly when none of the user's entries of that type has a value, and otherwise the sum of those values |
| `Repositories.LancamentoRepository.FindAll` | src/main/java/com/ajeff/minhasfinancas/services/impl/LancamentoServiceImpl.java:55-57 | the result holds a stored entry exactly when the probe matches it, and nothing else |
| `Repositories.LancamentoRepository.Save` | src/main/java/com/ajeff/minhasfinancas/services/impl/LancamentoServiceImpl.java:35 | the entry is stored under its own id when that id is stored, else under the next id, which is then advanced; nothing else changes |
| `Repositories.LancamentoRepository.Delete` | src/main/java/com/ajeff/minhasfinancas/services/impl/LancamentoServiceImpl.java:50 | only the row with that id is gone |
| `Repositories.UsuarioRepository.Save` | src/main/java/com/ajeff/minhasfinancas/services/impl/UsuarioServiceImpl.java:45 | the user is stored under its own id when that id is stored, else under the next id; nothing else changes |
| `Repositories.UsuarioRepository.ExistsByEmail` | src/main/java/com/ajeff/minhasfinancas/services/impl/UsuarioServiceImpl.java:50 | `existsByEmail` is true exactly when the e-mail is among the stored users' e-mails |
| `Repositories.UsuarioRepository.FindByEmail` | src/main/java/com/ajeff/minhasfinancas/services/impl/UsuarioServiceImpl.java:29 | none exactly when no stored user has the e-mail; otherwise a stored user with that e-mail |
| `UsuarioServiceImpl.PutKeepsEmailsDistinct` | src/main/java/com/ajeff/minhasfinancas/services/impl/UsuarioServiceImpl.java:43-46 | storing a user whose e-mail nobody has keeps the stored e-mails pairwise distinct |
| `UsuarioServiceImpl.UsuarioService.Autenticar` | src/main/java/com/ajeff/minhasfinancas/services/impl/UsuarioServiceImpl.java:28-38 | an unknown e-mail fails with "O e-mail informado não foi encontrado!"; a stored user with a null password is a `NullPointer` fault (from `getSenha().equals`); a known e-mail with another password fails with "Senha inválida!"; otherwise the result is the stored user with that e-mail and password; the store is only read |
| `UsuarioServiceImpl.UsuarioService.ValidarEmail` | src/main/java/com/ajeff/minhasfinancas/services/impl/UsuarioServiceImpl.java:49-55 | throws "Já existe um usuário com este e-mail cadastrado!" if and only if a stored user has the e-mail; only reads the store |
| `UsuarioServiceImpl.UsuarioService.Salvar` | src/main/java/com/ajeff/minhasfinancas/services/impl/UsuarioServiceImpl.java:43-46 | a taken e-mail fails and the store is unchanged; otherwise the user is saved: it replaces the row under its id when that id is stored, and is added under a fresh id otherwise, e-mails stay distinct, and, for a non-null password, `autenticar` with the user's e-mail and password then returns the saved user |
| `UsuarioServiceImpl.UsuarioService.FindByUsuarioId` | src/main/java/com/ajeff/minhasfinancas/services/impl/UsuarioServiceImpl.java:58-60 | the user stored under the id, which carries that id, or none |

## Left out

- Persistence is an in-memory map. Id generation starts at 1 and counts up. `@Transactional`, the database and concurrent requests are not modelled.
- `save` with an id that has no row inserts under a newly generated id. That is what a JPA merge of an unknown detached entity does; the repository itself is not part of this model.
- `delete` of an id with no row does nothing.
- `LancamentoServiceImpl.LancamentoService.Buscar`: the query-by-example matching is written out explicitly. Every non-null field of the probe must match. Text fields match by containment, as case-sensitive character comparison: the case folding of `withIgnoreCase` is not modelled. A probe's owner matches on its non-null fields against the user row stored under the entry's owner id. Spring's `ExampleMatcher` itself is not part of this model.
- The foreign key from an entry to its owner is not enforced: `salvar` and `atualizar` store an entry whose owner id has no user row, where the database would refuse it. Such an entry matches no search probe that names an owner.
- LancamentoServiceImpl.LancamentoService.FindLancamentoById: a stored entry keeps the owner object the caller gave, and `findLancamentoById` returns that object, not the user row reloaded from the user table.
- LancamentoServiceImpl.LancamentoService.Buscar: the result is a set, so the order of the returned `List` is not modelled. Under the store invariant each row carries its own id, so no two matched rows are equal and none is lost to the set.
- The sum query `obterSaldoPorTipoLancamentoEUsuario` is called by the service but not declared in `LancamentoRepository.java`. It is modelled as SQL `SUM(valor)` over the user's entries of that type: null when no row with a value matches.
- `BigDecimal` is an exact `real`. Its scale, and so `equals` between `200` and `200.00`, is not modelled.
- Ids (`Long`) are unbounded integers; 64-bit overflow of generated ids is not modelled. `mes` and `ano` are 32-bit `int32`, as Java `Integer`s are.
- `String.trim` strips characters up to U+0020, code point by code point. UTF-16 surrogate pairs are not distinguished.
- A lookup by a null e-mail matches users whose e-mail is null, as a derived Spring Data query does.
- `findByEmail` with several matching users would throw in Spring. The model keeps e-mails distinct as an invariant of `UsuarioService`, so this case cannot arise.
- Entries and users are values, not shared objects. The in-place `setStatus` of `salvar` shows in the returned entry; that of `atualizarStatus` shows in the returned `updated` entry. Aliasing between the caller's object and the stored row is not modelled.
- `dataCadastro` (a clock reading), the DTOs, the HTTP controllers and enum-tag parsing are outside the service layer and are left out.
- `Lancamento.java`, `Usuario.java`, `StatusLancamento.java`, `TipoLancamento.java` and the exception classes are not part of this model. Their fields and constants are taken from how the services use them. The third status, `Efetivado`, stands for the settled state next to `PENDENTE` and `CANCELADO`.
- Null arguments other than null fields are not modelled: a null entry or user (a `NullPointerException` at the first dereference), `findLancamentoById(null)` and `findByUsuarioId(null)` (an `IllegalArgumentException` from the repository), and `obterSaldoPorUsuario(null)` (both sums null, so zero). Ids passed to these operations are plain integers. A null status passed to `atualizarStatus` is modelled.
- Deleting a user who still owns entries is not an operation of either service and is not modelled.
