/** The Update use case (internal/app/usecase/todo/update.go): forward the
    new title and flag to the repository and report the affected row count.
    Unlike Create, it runs no domain validation. */
module UpdateTodo {
  import opened Optional
  import opened GoFmt
  import opened UseCase

  datatype UpdateInput = UpdateInput(title: string, completed: bool)

  datatype UpdateOutput = UpdateOutput(message: string)

  /** The arguments handed to the repository's `UpdateByID`. */
  datatype UpdateCall = UpdateCall(id: string, title: string, completed: bool)

  /** What one run did: the repository call, always made, and the
      `(UpdateOutput, error)` pair it returned. */
  datatype UpdateResult = UpdateResult(call: UpdateCall, output: UpdateOutput, err: Option<UseCaseError>)

  const UpdateFailMessage := "fail to update a todo in the repository"

  const RowsUpdatedPrefix := "Rows updated: "

  /** `domainTodoToUpdateOutput`: `fmt.Sprint("Rows updated: ", rows, "")`.
      The message carries the count so that it can be read back. */
  function DomainTodoToUpdateOutput(rows: Int64): (o: UpdateOutput)
    ensures ParseCount(RowsUpdatedPrefix, o.message) == Some(rows as int)
    ensures |RowsUpdatedPrefix| < |o.message| && o.message[..|RowsUpdatedPrefix|] == RowsUpdatedPrefix
  {
    CountMessageRoundTrip(RowsUpdatedPrefix, rows, "");
    UpdateOutput(SprintCount(RowsUpdatedPrefix, rows, ""))
  }

  /** `update.Handle`. `reply` is the repository's answer to the call. */
  function UpdateHandle(input: UpdateInput, id: string, reply: StoreReply<Int64>): (r: UpdateResult)
    // no validation: id, title and flag reach the repository untouched
    ensures r.call == UpdateCall(id, input.title, input.completed)
    // the only failure is the repository's, whatever the title
    ensures r.err.Some? <==> reply.StoreFailed?
    ensures reply.StoreFailed? ==>
              r.output == UpdateOutput("") && r.err == Some(UseCaseError(UpdateFailMessage, Internal))
    ensures reply.Stored? ==> ParseCount(RowsUpdatedPrefix, r.output.message) == Some(reply.value as int)
  {
    var call := UpdateCall(id, input.title, input.completed);
    match reply
    case StoreFailed(_) => UpdateResult(call, UpdateOutput(""), Some(UseCaseError(UpdateFailMessage, Internal)))
    case Stored(rows) => UpdateResult(call, DomainTodoToUpdateOutput(rows), None)
  }

  /** The success message is exactly "Rows updated: " followed by the
      decimal row count, and no other count yields the same message. */
  lemma UpdateMessageIsRowCount(input: UpdateInput, id: string, reply: StoreReply<Int64>, n: int)
    requires reply.Stored?
    ensures UpdateHandle(input, id, reply).output.message == RowsUpdatedPrefix + Decimal(reply.value)
    ensures UpdateHandle(input, id, reply).output.message == RowsUpdatedPrefix + Decimal(n) <==> n == reply.value
  {
    var m := UpdateHandle(input, id, reply).output.message;
    CountMessageRoundTrip(RowsUpdatedPrefix, reply.value, m);
    CountMessageRoundTrip(RowsUpdatedPrefix, n, m);
  }

  /** When the repository follows its not-found policy, a successful update
      never reports zero rows; updating an id that matches no row is an
      internal error. */
  lemma UpdateNeverReportsZeroRows(input: UpdateInput, id: string, reply: StoreReply<Int64>)
    requires HonoursNotFound(reply)
    ensures UpdateHandle(input, id, reply).err.None? ==>
              UpdateHandle(input, id, reply).output.message != "Rows updated: 0"
    ensures UpdateHandle(input, id, MutationReply(Executed(0))).err == Some(UseCaseError(UpdateFailMessage, Internal))
  {
    if reply.Stored? {
      assert "Rows updated: 0" == RowsUpdatedPrefix + Decimal(0);
      UpdateMessageIsRowCount(input, id, reply, 0);
    }
  }
}
