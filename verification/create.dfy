/** The Create use case (internal/app/usecase/todo/create.go): validate the
    title through the domain, then ask the repository to insert the todo. */
module CreateTodo {
  import opened Optional
  import opened GoStrings
  import opened Domain
  import opened UseCase
  import GetallTodos

  datatype CreateInput = CreateInput(title: string, completed: bool)

  datatype CreateOutput = CreateOutput(id: string, title: string, completed: bool)

  const ZeroCreateOutput := CreateOutput("", "", false)

  /** The arguments handed to the repository's `Create`. */
  datatype CreateCall = CreateCall(title: string, completed: bool)

  /** What one run of the use case did: the repository call it made, if
      any, and the `(CreateOutput, error)` pair it returned. */
  datatype CreateResult = CreateResult(call: Option<CreateCall>, output: CreateOutput, err: Option<UseCaseError>)

  const CreateFailMessage := "fail to create a todo in the repository"

  /** `domainTodoToOutput`: the validated todo with the store's id. */
  function DomainTodoToOutput(todo: Todo, id: string): (o: CreateOutput)
    ensures o.id == id && o.title == todo.title && o.completed == todo.completed
  {
    CreateOutput(id, todo.title, todo.completed)
  }

  /** `create.Handle` as written. `reply` is what the repository answers if
      it is called; it is not consulted when validation fails. */
  function CreateHandle(input: CreateInput, reply: StoreReply<string>): (r: CreateResult)
    // validation failure: bad request, zero output, the repository untouched
    ensures r.call.None? <==> AllSpace(input.title)
    ensures AllSpace(input.title) ==>
              r == CreateResult(None, ZeroCreateOutput, Some(UseCaseError("todo invalid input: title", BadRequest)))
    // the repository gets the title as the caller typed it
    ensures r.call.Some? ==> r.call.value == CreateCall(input.title, input.completed)
    ensures r.call.Some? && reply.StoreFailed? ==>
              r.output == ZeroCreateOutput && r.err == Some(UseCaseError(CreateFailMessage, Internal))
    // success: the store's id, the trimmed title, the caller's flag
    ensures r.call.Some? && reply.Stored? ==>
              && r.err.None?
              && r.output.id == reply.value
              && r.output.completed == input.completed
              && CleanTitle(r.output.title) && IsTrimOf(input.title, r.output.title)
  {
    TitleErrorText();
    var v := NewTodo(input.title, input.completed);
    if v.err.Some? then
      CreateResult(None, ZeroCreateOutput, Some(UseCaseError(v.err.value.Error(), BadRequest)))
    else
      var call := CreateCall(input.title, input.completed);
      match reply
      case StoreFailed(_) =>
        CreateResult(Some(call), ZeroCreateOutput, Some(UseCaseError(CreateFailMessage, Internal)))
      case Stored(id) =>
        CreateResult(Some(call), DomainTodoToOutput(v.todo, id), None)
  }

  /** On success the reported title equals the title sent to the repository
      exactly when the input had no surrounding white space. */
  lemma CreateReportsTitleItDidNotStore(input: CreateInput, reply: StoreReply<string>)
    requires !AllSpace(input.title) && reply.Stored?
    ensures CreateHandle(input, reply).output.title == CreateHandle(input, reply).call.value.title
            <==> Trimmed(input.title)
  {
    var r := CreateHandle(input, reply);
    TrimSpaceIsTheTrim(input.title, r.output.title);
    assert r.output.title == TrimSpace(input.title);
    assert r.call.value.title == input.title;
    TrimSpaceFixedIffTrimmed(input.title);
  }

  /** A row the repository stores for a `Create` call and the id it returns. */
  function PersistedRow(call: CreateCall, id: string): (t: Todo)
    ensures t.id == id && t.title == call.title && t.completed == call.completed
  {
    Todo(id, call.title, call.completed)
  }

  /** With the title " a" the output of `Create` and what GetAll lists for
      the row it stored disagree on the title. */
  lemma CreateThenGetallDisagree()
    ensures var r := CreateHandle(CreateInput(" a", false), Stored("1"));
            && r.err.None?
            && GetallTodos.GetallHandle(Stored([PersistedRow(r.call.value, "1")])).output[0].title != r.output.title
  {
    var input := CreateInput(" a", false);
    var r := CreateHandle(input, Stored("1"));
    assert !AllSpace(input.title) by { assert !IsSpace(input.title[1]); }
    assert !Trimmed(input.title) by { assert IsSpace(input.title[0]); }
    CreateReportsTitleItDidNotStore(input, Stored("1"));
  }

  /** `create.Handle` as evidently intended: the repository receives the
      validated, trimmed title. */
  function CreateHandleTrimmed(input: CreateInput, reply: StoreReply<string>): (r: CreateResult)
    ensures r.call.None? <==> AllSpace(input.title)
    ensures AllSpace(input.title) ==>
              r == CreateResult(None, ZeroCreateOutput, Some(UseCaseError("todo invalid input: title", BadRequest)))
    ensures r.call.Some? ==> CleanTitle(r.call.value.title) && IsTrimOf(input.title, r.call.value.title)
    ensures r.call.Some? ==> r.call.value.completed == input.completed
    ensures r.call.Some? && reply.StoreFailed? ==>
              r.output == ZeroCreateOutput && r.err == Some(UseCaseError(CreateFailMessage, Internal))
    ensures r.call.Some? && reply.Stored? ==>
              && r.err.None?
              && r.output == CreateOutput(reply.value, r.call.value.title, r.call.value.completed)
  {
    TitleErrorText();
    var v := NewTodo(input.title, input.completed);
    if v.err.Some? then
      CreateResult(None, ZeroCreateOutput, Some(UseCaseError(v.err.value.Error(), BadRequest)))
    else
      var call := CreateCall(v.todo.title, v.todo.completed);
      match reply
      case StoreFailed(_) =>
        CreateResult(Some(call), ZeroCreateOutput, Some(UseCaseError(CreateFailMessage, Internal)))
      case Stored(id) =>
        CreateResult(Some(call), DomainTodoToOutput(v.todo, id), None)
  }

  /** With the intended behaviour, GetAll over the stored row lists exactly
      the record `Create` reported. */
  lemma CreateTrimmedThenGetallAgree(input: CreateInput, reply: StoreReply<string>)
    requires !AllSpace(input.title) && reply.Stored?
    ensures var r := CreateHandleTrimmed(input, reply);
            var g := GetallTodos.GetallHandle(Stored([PersistedRow(r.call.value, reply.value)]));
            && g.err.None?
            && g.output == [GetallTodos.GetallOutput(r.output.id, r.output.title, r.output.completed)]
  {
  }

  /** On every input the intended `Create` returns the same output and error
      as the as-written one: they differ only in the title handed to the
      repository, and only when the input has surrounding white space. */
  lemma CreateTrimmedAgreesWithCreate(input: CreateInput, reply: StoreReply<string>)
    ensures CreateHandleTrimmed(input, reply).output == CreateHandle(input, reply).output
    ensures CreateHandleTrimmed(input, reply).err == CreateHandle(input, reply).err
    ensures CreateHandleTrimmed(input, reply).call.Some? ==>
              (CreateHandleTrimmed(input, reply).call == CreateHandle(input, reply).call <==> Trimmed(input.title))
  {
    var a := CreateHandle(input, reply);
    var b := CreateHandleTrimmed(input, reply);
    if !AllSpace(input.title) {
      var t := TrimSpace(input.title);
      TrimSpaceIsTheTrim(input.title, b.call.value.title);
      assert b.call.value == CreateCall(t, input.completed);
      assert a.call.value == CreateCall(input.title, input.completed);
      TrimSpaceFixedIffTrimmed(input.title);
      if reply.Stored? {
        TrimSpaceIsTheTrim(input.title, a.output.title);
        assert a.output == CreateOutput(reply.value, t, input.completed);
      }
    }
  }
}
