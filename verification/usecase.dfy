/** What the four todo use cases share: the two-kind error they report and
    the reply they get from the todo repository.

    The repository is not modelled as a database. Each use case receives
    the repository's reply as an argument and reports, in its result, the
    call it made, so that what was sent and what came back can both be
    stated. */
module UseCase {
  /** The range of Go's `int64`, the type of a row count. */
  type Int64 = x: int | -0x8000_0000_0000_0000 <= x < 0x8000_0000_0000_0000

  /** `usecase.ErrorTypeBadRequest` and `usecase.ErrorTypeInternalError`. */
  datatype ErrorKind = BadRequest | Internal

  /** The error built by `usecase.NewError(message, cause, kind)`, seen
      through its message and kind only. */
  datatype UseCaseError = UseCaseError(message: string, kind: ErrorKind)

  /** What a repository call returned: a value, or a non-nil error. */
  datatype StoreReply<T> = Stored(value: T) | StoreFailed(cause: string)

  /** The text of the repository's not-found error. */
  const NoRecordFound := "no record found with that ID"

  /** What executing an UPDATE or DELETE statement gave the repository:
      a driver error, or the number of rows the statement affected. */
  datatype ExecOutcome = ExecFailed(cause: string) | Executed(rowsAffected: Int64)

  /** The repository's not-found policy for `UpdateByID` and `DeleteByID`:
      a statement that touched no row is reported as an error. */
  function MutationReply(exec: ExecOutcome): (r: StoreReply<Int64>)
    ensures r.Stored? <==> exec.Executed? && exec.rowsAffected != 0
    ensures r.Stored? ==> r.value == exec.rowsAffected
    ensures exec.ExecFailed? ==> r == StoreFailed(exec.cause)
    ensures exec.Executed? && exec.rowsAffected == 0 ==> r == StoreFailed(NoRecordFound)
  {
    match exec
    case ExecFailed(cause) => StoreFailed(cause)
    case Executed(rows) => if rows == 0 then StoreFailed(NoRecordFound) else Stored(rows)
  }

  /** A mutation reply that obeys the not-found policy never reports a
      successful change of zero rows. */
  predicate HonoursNotFound(r: StoreReply<Int64>) {
    r.Stored? ==> r.value != 0
  }

  /** Every reply the repository can give obeys the policy, and the policy
      is exactly what those replies have in common. */
  lemma MutationRepliesHonourNotFound(exec: ExecOutcome, r: StoreReply<Int64>)
    ensures HonoursNotFound(MutationReply(exec))
    ensures HonoursNotFound(r) <==> exists e: ExecOutcome :: MutationReply(e) == r
  {
    if HonoursNotFound(r) {
      match r
      case Stored(n) => assert MutationReply(Executed(n)) == r;
      case StoreFailed(c) => assert MutationReply(ExecFailed(c)) == r;
    }
  }
}
