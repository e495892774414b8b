/** The error taxonomy shared by the repository and the use cases, and the
    result types that carry it in place of raised exceptions. */
module Errors {

  datatype Option<T> = None | Some(value: T)

  /** RepositoryError is ProductRepositoryException, tagged with the failing
      operation ("list", "create", "find", "edit", "delete"); BusinessError is
      ProductBusinessException with its message; NotFound is
      ProductNotFoundException with the id that was looked up. */
  datatype Error =
    | RepositoryError(operation: string)
    | BusinessError(msg: string)
    | NotFound(productId: string)

  datatype Result<T> = Ok(value: T) | Err(error: Error)

  /** Pass, or the exception a check raised. */
  datatype Outcome = Pass | Fail(error: Error)

  const PREFIX := "Exception while executing "
  const SUFFIX := " in Product"

  /** The text of a repository exception raised by `operation`. */
  function RepoMessage(operation: string): string
  {
    PREFIX + operation + SUFFIX
  }

  /** `str(e)` of a repository or business exception. */
  function Message(e: Error): string
    requires !e.NotFound?
  {
    match e
    case RepositoryError(operation) => RepoMessage(operation)
    case BusinessError(msg) => msg
  }

  /** `raise ProductBusinessException(str(e))` for a caught repository exception. */
  function Translate(e: Error): (b: Error)
    requires e.RepositoryError?
    ensures b.BusinessError?
    ensures Message(b) == Message(e)
  {
    BusinessError(Message(e))
  }

  /** Two different operations never report the same message, so the message
      alone tells which repository operation failed. */
  lemma RepoMessageInjective(a: string, b: string)
    requires RepoMessage(a) == RepoMessage(b)
    ensures a == b
  {
    var m := RepoMessage(a);
    assert |a| == |b|;
    assert a == m[|PREFIX|..|PREFIX| + |a|];
    assert b == m[|PREFIX|..|PREFIX| + |b|];
  }
}
