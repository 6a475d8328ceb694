# todoapi core in Dafny

A functional model of the todo service's domain and use-case layers: the
`Todo` entity with its title validation (`NewTodo`, `Todo.Update`,
`Todo.MarkAsCompleted`), and the four use cases `create`, `getall`,
`update` and `delete` that sit between the HTTP controller and the
Postgres repository.

The repository is not modelled as a database. Each use case takes the
repository's reply as an argument (`StoreReply`: a value, or a failure)
and returns, besides Go's `(output, error)` pair, the call it made to the
repository. That makes both sides of the boundary statable: what the use
case sent (Create forwards the untrimmed title, Update forwards the title
without validation) and what it made of the answer (fixed messages, the
BadRequest / Internal error kinds, the "Rows updated: n" text). The
repository's not-found rule (a statement that touched no row is an error)
is modelled as the small function `UseCase.MutationReply` and the
predicate `UseCase.HonoursNotFound`, which the zero-row lemmas assume.

Files and modules:

- `option.dfy` — `Optional`: the `Option` type (Go's nil-able error).
- `gostrings.dfy` — `GoStrings`: `strings.TrimSpace` with `unicode.IsSpace`,
  and a declarative description of trimming proved equivalent to it.
- `gofmt.dfy` — `GoFmt`: `fmt.Sprint` of a string, an `int64` and a string,
  the decimal rendering of integers, and a parser proved to invert it.
- `domain.dfy` — `Domain`: `Todo`, `NewTodo`, `Update`, `MarkAsCompleted`,
  `ErrTodoInvalidInput`.
- `usecase.dfy` — `UseCase`: error kinds, `UseCaseError`, `StoreReply`,
  the repository's not-found rule.
- `create.dfy`, `getall.dfy`, `update.dfy`, `delete.dfy` — one module per
  use case.

Go's `(Todo, error)` results are modelled as a pair datatype rather than a
sum type, because the Go code returns a todo on every path (the zero one on
failure) and the model states which. `Todo.Update` and
`Todo.MarkAsCompleted` are modelled although no use case calls them; the
Update use case writes to the repository without going through
`Todo.Update`.

On a repository failure Create reports the fixed message "fail to create
a todo in the repository" as the use-case error's message
(internal/app/usecase/todo/create.go:40-41); GetAll, Update and Delete do
the same with their own fixed messages. The repository's error is passed to
`usecase.NewError` only as the wrapped cause, which this model does not
carry (see "Left out").

## Model

| member | source | states |
|---|---|---|
| Domain.NewTodo | internal/domain/todo.go:19-29 | fails exactly when the title is all white space (including ""), then with the "title" validation error and the zero todo; otherwise an id-less todo with the caller's flag and a non-empty title that is the input with surrounding white space cut off |
| Domain.Update | internal/domain/todo.go:31-40 | same validation as NewTodo; failure returns the zero todo, not the receiver; success keeps the receiver's id and sets the trimmed title and the new flag |
| Domain.MarkAsCompleted | internal/domain/todo.go:42-45 | sets completed and leaves id and title as they were; has no failure path |
| Domain.TitleErrorText | internal/domain/todo.go:22 | the validation error's text is "todo invalid input: title" |
| Domain.NewTodoIdempotent | internal/domain/todo.go:20-28 | for every title, feeding the title NewTodo produced back into NewTodo gives the same result, success or failure: trim-and-validate is idempotent |
| Domain.UpdateAgreesWithNewTodo | internal/domain/todo.go:31-40 | Update fails exactly when NewTodo fails, with the same error, and on success is NewTodo's todo carrying the receiver's id |
| Domain.MarkAsCompletedIdempotent | internal/domain/todo.go:42-45 | marking a todo completed twice equals marking it once |
| GoStrings.TrimSpace | internal/domain/todo.go:20 | `strings.TrimSpace` as the domain calls it: the result neither starts nor ends with white space and is no longer than the input (its full characterisation is TrimSpaceIsTheTrim) |
| GoStrings.TrimSpaceIsTheTrim | internal/domain/todo.go:20 | TrimSpace(s) is r exactly when r is s minus an all-space prefix and an all-space suffix and r neither starts nor ends with space |
| GoStrings.TrimSpaceEmptyIffAllSpace | internal/domain/todo.go:20-21 | the trimmed title is empty exactly when every character of the title is white space |
| GoStrings.TrimSpaceFixedIffTrimmed | internal/domain/todo.go:32 | TrimSpace leaves a string unchanged exactly when it has no leading or trailing space, and TrimSpace is idempotent |
| GoFmt.Decimal | internal/app/usecase/todo/update.go:43 | the rendering of a non-negative integer is a digit string without leading zeros; of a negative one, '-' followed by such a string not starting with '0'; it is "0" exactly for zero |
| GoFmt.SprintCount | internal/app/usecase/todo/delete.go:38 | `fmt.Sprint(prefix, n, suffix)` with string operands around an integer: the result starts with the prefix, ends with the suffix, and what lies between parses back to n (no spaces are inserted) |
| GoFmt.DecimalRoundTrip | internal/app/usecase/todo/update.go:43 | the decimal rendering of any integer, sign included, parses back to that integer |
| GoFmt.ParseDecimalSound | internal/app/usecase/todo/delete.go:38 | every string the parser accepts is the rendering of the integer it returns |
| GoFmt.DecimalInjective | internal/app/usecase/todo/update.go:43 | two integers have the same rendering exactly when they are equal |
| GoFmt.CountMessageRoundTrip | internal/app/usecase/todo/delete.go:36-39 | a prefix-plus-count message reads back as its count, and a message that reads back as n is exactly the one rendered from n |
| UseCase.MutationReply | internal/infra/repository/todo.go:75-90 | the repository succeeds exactly when the statement ran and touched a non-zero number of rows, returning that count; a driver error is passed through; zero rows becomes "no record found with that ID" |
| UseCase.MutationRepliesHonourNotFound | internal/infra/repository/todo.go:36-50 | every repository reply obeys the not-found policy, and every reply obeying it is one the repository can give |
| CreateTodo.DomainTodoToOutput | internal/app/usecase/todo/create.go:46-52 | the output carries the repository's id and the validated todo's title and completed flag |
| CreateTodo.PersistedRow | internal/infra/repository/todo.go:18-33 | assumes the INSERT stores exactly the title and flag it was given, under the id it returns |
| CreateTodo.CreateHandle | internal/app/usecase/todo/create.go:33-44 | all-space title: BadRequest with the validation text, zero output, no repository call; otherwise the repository gets the untrimmed title and the flag; a repository failure gives Internal "fail to create a todo in the repository" and zero output; success gives the repository's id, the trimmed title and the caller's flag |
| CreateTodo.CreateReportsTitleItDidNotStore | internal/app/usecase/todo/create.go:38-50 | on success the reported title equals the title sent to the repository exactly when the input had no surrounding white space |
| CreateTodo.CreateThenGetallDisagree | internal/app/usecase/todo/create.go:38-49 | for the title " a", Create reports "a" while GetAll over the row it stored lists the title " a" |
| CreateTodo.CreateHandleTrimmed | internal/app/usecase/todo/create.go:33-52 | corrected Create: same error paths, but the repository receives the validated trimmed title, and the output is exactly the stored row with the repository's id |
| CreateTodo.CreateTrimmedThenGetallAgree | internal/app/usecase/todo/getall.go:29-48 | with the corrected Create, on success GetAll over the stored row succeeds and lists exactly one record, equal to Create's output |
| CreateTodo.CreateTrimmedAgreesWithCreate | internal/app/usecase/todo/create.go:33-44 | on every input the corrected and as-written Create return the same output and error; when the repository is called, they send the same arguments exactly when the title is already trimmed |
| GetallTodos.ToGetallOutput | internal/app/usecase/todo/getall.go:43-47 | one output record copies id, title and completed from the stored todo, with no trimming or validation |
| GetallTodos.DomainListToOutputList | internal/app/usecase/todo/getall.go:38-51 | one output record per stored todo, same length, same order, id, title and completed copied verbatim; the loop builds exactly the list GetallHandle returns |
| GetallTodos.GetallHandle | internal/app/usecase/todo/getall.go:29-36 | errors exactly when the repository fails, then Internal "fail to get all todos in the repository" and an empty list; otherwise the order- and length-preserving copy, so an empty table gives an empty list and no error |
| UpdateTodo.DomainTodoToUpdateOutput | internal/app/usecase/todo/update.go:41-45 | the message starts with "Rows updated: " and reads back as the row count |
| UpdateTodo.UpdateHandle | internal/app/usecase/todo/update.go:31-39 | no validation: id, title and flag reach the repository as given; errors exactly when the repository fails, then Internal "fail to update a todo in the repository" and a zero output; success reports the repository's row count |
| UpdateTodo.UpdateMessageIsRowCount | internal/app/usecase/todo/update.go:41-44 | the success message is exactly "Rows updated: " followed by the decimal count, and no other count produces it |
| UpdateTodo.UpdateNeverReportsZeroRows | internal/app/usecase/todo/update.go:32-37 | under the not-found policy a successful update never says "Rows updated: 0", and a statement that touched no row yields the Internal error |
| DeleteTodo.DomainTodoToDeleteOutput | internal/app/usecase/todo/delete.go:36-40 | the message starts with "Rows deleted: " and reads back as the row count |
| DeleteTodo.DeleteHandle | internal/app/usecase/todo/delete.go:27-34 | the id reaches the repository unchanged; errors exactly when the repository fails, then Internal "fail to delete a todo in the repository" and a zero output; success reports the repository's row count |
| DeleteTodo.DeleteMessageIsRowCount | internal/app/usecase/todo/delete.go:36-39 | the success message is exactly "Rows deleted: " followed by the decimal count, and no other count produces it |
| DeleteTodo.DeleteNeverReportsZeroRows | internal/app/usecase/todo/delete.go:28-33 | under the not-found policy a successful delete never says "Rows deleted: 0", and deleting an id that matches no row yields the Internal error |

## Left out

- SQL in internal/infra/repository/todo.go (prepared statements, row scanning, `RowsAffected`): only the branch on the affected-row count enters the model; the error from `RowsAffected` itself, which the code ignores, is not modelled.
- The HTTP controller (internal/infra/controller/todo.go): transport only. It ignores the error of Create and Update and always answers 200 (lines 35-37 and 61-63).
- `main.go` and internal/infra/db/conn.go: server bootstrap, routing and the hard-coded connection settings, all I/O.
- `usecase.NewError` and the `ErrorType*` constants: that package is not part of this model. A use-case error is seen through its message and kind; the wrapped cause and the text `Error()` gives are not modelled.
- GoStrings.IsSpace: lists the characters Go documents for `unicode.IsSpace`; it is not derived from a Unicode table, and invalid UTF-8 bytes (which Go decodes as U+FFFD, not a space) are not modelled because strings are sequences of characters.
- Go's distinction between a nil slice and an empty slice (getall.go:39, repository/todo.go:60): both are the empty sequence.
- An end-to-end create-then-list scenario against a real table: the model has no table; CreateTodo.CreateTrimmedThenGetallAgree relates the two use cases by feeding GetallHandle the row a repository would store.
- Concurrency and connection pooling: each use case is one call with no shared state.

## Findings

| source | as written | input that shows it | evidently intended | confidence | as-written member | corrected member |
|---|---|---|---|---|---|---|
| internal/app/usecase/todo/create.go:38 | the repository is called with `input.Title`, the untrimmed title, while the output reports the trimmed `todo.Title` | title " a", repository returns id "1": Create answers title "a", the stored row (and a later GetAll) has " a" | pass the validated `todo.Title` to the repository | medium, not executed | CreateTodo.CreateThenGetallDisagree | CreateTodo.CreateHandleTrimmed |
