/** The Delete use case (internal/app/usecase/todo/delete.go): ask the
    repository to remove a todo by id and report the affected row count. */
module DeleteTodo {
  import opened Optional
  import opened GoFmt
  import opened UseCase

  datatype DeleteOutput = DeleteOutput(message: string)

  /** What one run did: the id handed to the repository's `DeleteByID`, and
      the `(DeleteOutput, error)` pair it returned. */
  datatype DeleteResult = DeleteResult(calledWith: string, output: DeleteOutput, err: Option<UseCaseError>)

  const DeleteFailMessage := "fail to delete a todo in the repository"

  const RowsDeletedPrefix := "Rows deleted: "

  /** `domainTodoToDeleteOutput`: `fmt.Sprint("Rows deleted: ", rows, "")`.
      The message carries the count so that it can be read back. */
  function DomainTodoToDeleteOutput(rows: Int64): (o: DeleteOutput)
    ensures ParseCount(RowsDeletedPrefix, o.message) == Some(rows as int)
    ensures |RowsDeletedPrefix| < |o.message| && o.message[..|RowsDeletedPrefix|] == RowsDeletedPrefix
  {
    CountMessageRoundTrip(RowsDeletedPrefix, rows, "");
    DeleteOutput(SprintCount(RowsDeletedPrefix, rows, ""))
  }

  /** `delete.Handle`. `reply` is the repository's answer to the call. */
  function DeleteHandle(id: string, reply: StoreReply<Int64>): (r: DeleteResult)
    ensures r.calledWith == id
    ensures r.err.Some? <==> reply.StoreFailed?
    ensures reply.StoreFailed? ==>
              r.output == DeleteOutput("") && r.err == Some(UseCaseError(DeleteFailMessage, Internal))
    ensures reply.Stored? ==> ParseCount(RowsDeletedPrefix, r.output.message) == Some(reply.value as int)
  {
    match reply
    case StoreFailed(_) => DeleteResult(id, DeleteOutput(""), Some(UseCaseError(DeleteFailMessage, Internal)))
    case Stored(rows) => DeleteResult(id, DomainTodoToDeleteOutput(rows), None)
  }

  /** The success message is exactly "Rows deleted: " followed by the
      decimal row count, and no other count yields the same message. */
  lemma DeleteMessageIsRowCount(id: string, reply: StoreReply<Int64>, n: int)
    requires reply.Stored?
    ensures DeleteHandle(id, reply).output.message == RowsDeletedPrefix + Decimal(reply.value)
    ensures DeleteHandle(id, reply).output.message == RowsDeletedPrefix + Decimal(n) <==> n == reply.value
  {
    var m := DeleteHandle(id, reply).output.message;
    CountMessageRoundTrip(RowsDeletedPrefix, reply.value, m);
    CountMessageRoundTrip(RowsDeletedPrefix, n, m);
  }

  /** When the repository follows its not-found policy, a successful delete
      never reports zero rows; deleting an id that matches no row is an
      internal error. */
  lemma DeleteNeverReportsZeroRows(id: string, reply: StoreReply<Int64>)
    requires HonoursNotFound(reply)
    ensures DeleteHandle(id, reply).err.None? ==>
              DeleteHandle(id, reply).output.message != "Rows deleted: 0"
    ensures DeleteHandle(id, MutationReply(Executed(0))).err == Some(UseCaseError(DeleteFailMessage, Internal))
  {
    if reply.Stored? {
      assert "Rows deleted: 0" == RowsDeletedPrefix + Decimal(0);
      DeleteMessageIsRowCount(id, reply, 0);
    }
  }
}
