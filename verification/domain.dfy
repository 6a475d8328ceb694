/** The Todo entity and its validation rules (internal/domain/todo.go).
    Every operation is a pure function over a three-field record. */
module Domain {
  import opened Optional
  import opened GoStrings

  /** A todo. `id` is assigned by the store; the domain never sets it. */
  datatype Todo = Todo(id: string, title: string, completed: bool)

  /** Go's zero value of `Todo`. */
  const ZeroTodo := Todo("", "", false)

  /** The text of the sentinel `ErrTodoInvalidInput`. */
  const ErrTodoInvalidInput: string := "todo invalid input"

  /** `ErrTodoInvalidInput` wrapped with the name of the offending field. */
  datatype ValidationError = InvalidInput(field: string) {
    /** `err.Error()` for the wrapped error `"%w: <field>"`. */
    function Error(): string {
      ErrTodoInvalidInput + ": " + field
    }
  }

  /** The error every failing domain call returns. */
  const TitleError := InvalidInput("title")

  /** Go's `(Todo, error)` pair: a todo is returned on every path, the zero
      one when `err` is present. */
  datatype TodoResult = TodoResult(todo: Todo, err: Option<ValidationError>)

  /** A title the domain accepts as stored: non-empty and already trimmed. */
  predicate CleanTitle(s: string) {
    s != [] && Trimmed(s)
  }

  /** `NewTodo`: validates and trims the title of a todo not yet stored. */
  function NewTodo(title: string, completed: bool): (r: TodoResult)
    ensures r.err.Some? <==> AllSpace(title)
    ensures r.err.Some? ==> r.err == Some(TitleError) && r.todo == ZeroTodo
    ensures r.err.None? ==> r.todo.id == "" && r.todo.completed == completed
    ensures r.err.None? ==> CleanTitle(r.todo.title) && IsTrimOf(title, r.todo.title)
  {
    var t := TrimSpace(title);
    TrimSpaceEmptyIffAllSpace(title);
    TrimSpaceIsTheTrim(title, t);
    if t == "" then TodoResult(ZeroTodo, Some(TitleError))
    else TodoResult(Todo("", t, completed), None)
  }

  /** `Todo.Update`: replaces title and completion of a todo, same checks as
      `NewTodo`; on failure the zero todo comes back, not the receiver. */
  function Update(t: Todo, title: string, completed: bool): (r: TodoResult)
    ensures r.err.Some? <==> AllSpace(title)
    ensures r.err.Some? ==> r.err == Some(TitleError) && r.todo == ZeroTodo
    ensures r.err.None? ==> r.todo.id == t.id && r.todo.completed == completed
    ensures r.err.None? ==> CleanTitle(r.todo.title) && IsTrimOf(title, r.todo.title)
  {
    var s := TrimSpace(title);
    TrimSpaceEmptyIffAllSpace(title);
    TrimSpaceIsTheTrim(title, s);
    if s == "" then TodoResult(ZeroTodo, Some(TitleError))
    else TodoResult(t.(title := s, completed := completed), None)
  }

  /** `Todo.MarkAsCompleted`: never fails. */
  function MarkAsCompleted(t: Todo): (r: Todo)
    ensures r.completed
    ensures r.id == t.id && r.title == t.title
  {
    t.(completed := true)
  }

  /** The validation error reads "todo invalid input: title". */
  lemma TitleErrorText()
    ensures TitleError.Error() == "todo invalid input: title"
  {
  }

  /** Feeding the title `NewTodo` produced back into it gives the same
      result, on success and on failure: trimming and validating is
      idempotent. */
  lemma NewTodoIdempotent(title: string, completed: bool)
    ensures NewTodo(NewTodo(title, completed).todo.title, completed) == NewTodo(title, completed)
  {
    var t := NewTodo(title, completed).todo.title;
    TrimSpaceIsTheTrim(title, t);
    TrimSpaceFixedIffTrimmed(t);
    TrimSpaceEmptyIffAllSpace(t);
  }

  /** `Update` validates exactly as `NewTodo` does and, on success, yields
      `NewTodo`'s todo with the receiver's id kept. */
  lemma UpdateAgreesWithNewTodo(t: Todo, title: string, completed: bool)
    ensures Update(t, title, completed).err == NewTodo(title, completed).err
    ensures Update(t, title, completed).err.None? ==>
              Update(t, title, completed).todo == NewTodo(title, completed).todo.(id := t.id)
  {
  }

  /** Marking twice is the same as marking once. */
  lemma MarkAsCompletedIdempotent(t: Todo)
    ensures MarkAsCompleted(MarkAsCompleted(t)) == MarkAsCompleted(t)
  {
  }
}
