/** The GetAll use case (internal/app/usecase/todo/getall.go): list every
    stored todo, copied field by field into output records. */
module GetallTodos {
  import opened Optional
  import opened Domain
  import opened UseCase

  datatype GetallOutput = GetallOutput(id: string, title: string, completed: bool)

  const GetallFailMessage := "fail to get all todos in the repository"

  /** One stored todo as an output record. */
  function ToGetallOutput(t: Todo): (o: GetallOutput)
    ensures o.id == t.id && o.title == t.title && o.completed == t.completed
  {
    GetallOutput(t.id, t.title, t.completed)
  }

  /** What one run returned: Go's `([]GetallOutput, error)` pair. */
  datatype GetallResult = GetallResult(output: seq<GetallOutput>, err: Option<UseCaseError>)

  /** `getall.Handle`: the repository's list as output records, or an
      internal error and an empty list when the repository fails. */
  function GetallHandle(reply: StoreReply<seq<Todo>>): (r: GetallResult)
    ensures r.err.Some? <==> reply.StoreFailed?
    ensures reply.StoreFailed? ==> r.output == [] && r.err == Some(UseCaseError(GetallFailMessage, Internal))
    ensures reply.Stored? ==> |r.output| == |reply.value|
    ensures reply.Stored? ==> forall i :: 0 <= i < |r.output| ==>
              && r.output[i].id == reply.value[i].id
              && r.output[i].title == reply.value[i].title
              && r.output[i].completed == reply.value[i].completed
  {
    match reply
    case StoreFailed(_) => GetallResult([], Some(UseCaseError(GetallFailMessage, Internal)))
    case Stored(todoList) =>
      GetallResult(seq(|todoList|, i requires 0 <= i < |todoList| => ToGetallOutput(todoList[i])), None)
  }

  /** `domainListToOutputList`: appends one output record per stored todo,
      in order, copying every field verbatim; the list it builds is the one
      `GetallHandle` returns. Go's nil and empty slices are both the empty
      sequence here. */
  method DomainListToOutputList(todoList: seq<Todo>) returns (outputList: seq<GetallOutput>)
    ensures |outputList| == |todoList|
    ensures forall i :: 0 <= i < |todoList| ==>
              && outputList[i].id == todoList[i].id
              && outputList[i].title == todoList[i].title
              && outputList[i].completed == todoList[i].completed
    ensures outputList == GetallHandle(Stored(todoList)).output
  {
    outputList := [];
    var k := 0;
    while k < |todoList|
      invariant 0 <= k <= |todoList|
      invariant |outputList| == k
      invariant forall i :: 0 <= i < k ==> outputList[i] == ToGetallOutput(todoList[i])
    {
      outputList := outputList + [ToGetallOutput(todoList[k])];
      k := k + 1;
    }
  }
}
