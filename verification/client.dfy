/**
 The browser client's todo state manager.

 The state is the list of todos as last confirmed by the service, the text in
 the input box, the loading flag and the one visible error message. Each
 handler makes at most one remote call (add makes none when the input is
 blank) and is modelled as a pure step from
 the state before the call and the call's `Outcome` to the state after it:
 `Ok(payload)` when the response was 2xx, `Fail` when the call threw. Local
 todos change only on `Ok` (pessimistic update); on `Fail` the handler shows
 its own fixed message and leaves the todos alone.
 */
module TodoClient {
  import opened Wrappers
  import opened Seqs
  import opened TodoTypes

  /** What an awaited remote call produced: its decoded body, or a thrown error. */
  datatype Outcome<T> = Ok(payload: T) | Fail

  datatype ClientState = ClientState(
    todos: seq<Todo>,
    inputValue: string,
    loading: bool,
    error: Option<string>)

  const Initial := ClientState([], "", false, None)

  const LoadError := "Failed to load todos"
  const AddError := "Failed to add todo"
  const UpdateError := "Failed to update todo"
  const DeleteError := "Failed to delete todo"
  const ClearError := "Failed to clear completed todos"

  // ---------------------------------------------------------------------------
  // Derived counts: computed from `todos` whenever they are needed, never stored.
  // ---------------------------------------------------------------------------

  /** `incompleteTodos`: how many todos are still open; zero exactly when all are done. */
  function IncompleteCount(todos: seq<Todo>): (n: nat)
    ensures n <= |todos|
    ensures n == 0 <==> forall i :: 0 <= i < |todos| ==> todos[i].completed
  {
    FilterEmpty(IsActive, todos);
    |Filter(IsActive, todos)|
  }

  /** `completedTodos`: how many todos are done; zero exactly when none is. */
  function CompletedCount(todos: seq<Todo>): (n: nat)
    ensures n <= |todos|
    ensures n == 0 <==> forall i :: 0 <= i < |todos| ==> !todos[i].completed
  {
    FilterEmpty(IsCompleted, todos);
    |Filter(IsCompleted, todos)|
  }

  /** The two counts partition the list. */
  lemma CountsPartition(todos: seq<Todo>)
    ensures IncompleteCount(todos) + CompletedCount(todos) == |todos|
  {
    FilterComplement(IsActive, IsCompleted, todos);
  }

  /** Whether the "Clear Completed" control is shown: exactly when some todo is completed. */
  function ShowsClearCompleted(s: ClientState): (r: bool)
    ensures r <==> exists i :: 0 <= i < |s.todos| && s.todos[i].completed
  {
    CompletedCount(s.todos) > 0
  }

  // ---------------------------------------------------------------------------
  // String.prototype.trim: strips ECMAScript WhiteSpace and LineTerminator
  // characters from both ends.
  // ---------------------------------------------------------------------------

  predicate IsJsWhitespace(c: char) {
    || c == '\t' || c == '\U{000B}' || c == '\U{000C}' || c == ' ' || c == '\U{00A0}'
    || c == '\U{FEFF}' || c == '\U{1680}' || ('\U{2000}' <= c <= '\U{200A}')
    || c == '\U{202F}' || c == '\U{205F}' || c == '\U{3000}'
    || c == '\n' || c == '\r' || c == '\U{2028}' || c == '\U{2029}'
  }

  /** Whether every character of `s` is whitespace (so `s` trims to ""). */
  predicate IsBlank(s: string) {
    forall i :: 0 <= i < |s| ==> IsJsWhitespace(s[i])
  }

  /** The length of the whitespace prefix of `s`. */
  function LeadingSpace(s: string): (n: nat)
    ensures n <= |s|
    ensures forall i :: 0 <= i < n ==> IsJsWhitespace(s[i])
    ensures n < |s| ==> !IsJsWhitespace(s[n])
  {
    if s != [] && IsJsWhitespace(s[0]) then
      var n := 1 + LeadingSpace(s[1..]);
      assert forall i :: 1 <= i < n ==> s[i] == s[1..][i - 1];
      n
    else 0
  }

  /** Where the whitespace suffix of `s` starts. */
  function TrailingStart(s: string): (m: nat)
    ensures m <= |s|
    ensures forall i :: m <= i < |s| ==> IsJsWhitespace(s[i])
    ensures m > 0 ==> !IsJsWhitespace(s[m - 1])
  {
    if s != [] && IsJsWhitespace(s[|s| - 1]) then
      var m := TrailingStart(s[..|s| - 1]);
      assert forall i :: m <= i < |s| - 1 ==> s[i] == s[..|s| - 1][i];
      m
    else |s|
  }

  /**
   `s.trim()`: the slice of `s` left after dropping its whitespace prefix and
   suffix. Everything before and after the result is whitespace, and the
   result neither starts nor ends with whitespace.
   */
  function Trim(s: string): (r: string)
    ensures LeadingSpace(s) + |r| <= |s| && r == s[LeadingSpace(s)..LeadingSpace(s) + |r|]
    ensures forall i :: 0 <= i < LeadingSpace(s) ==> IsJsWhitespace(s[i])
    ensures forall i :: LeadingSpace(s) + |r| <= i < |s| ==> IsJsWhitespace(s[i])
    ensures r != [] ==> !IsJsWhitespace(r[0]) && !IsJsWhitespace(r[|r| - 1])
    ensures r == [] <==> IsBlank(s)
  {
    var n := LeadingSpace(s);
    var t := s[n..];
    var m := TrailingStart(t);
    var r := t[..m];
    assert r == s[n..n + m];
    assert forall i :: n + m <= i < |s| ==> s[i] == t[i - n];
    assert r != [] ==> r[0] == s[n];
    r
  }

  // ---------------------------------------------------------------------------
  // Handlers
  // ---------------------------------------------------------------------------

  /** loadTodos, up to the await: the loading flag goes up. */
  function LoadBegin(s: ClientState): (r: ClientState)
    ensures r.loading
    ensures r.todos == s.todos && r.inputValue == s.inputValue && r.error == s.error
  {
    s.(loading := true)
  }

  /** loadTodos, after the await: the list is replaced on success; the flag always goes down. */
  function LoadEnd(s: ClientState, o: Outcome<seq<Todo>>): (r: ClientState)
    ensures !r.loading
    ensures r.inputValue == s.inputValue
    ensures o.Ok? ==> r.todos == o.payload && r.error == None
    ensures o.Fail? ==> r.todos == s.todos && r.error == Some(LoadError)
  {
    match o
    case Ok(data) => s.(todos := data, error := None, loading := false)
    case Fail => s.(error := Some(LoadError), loading := false)
  }

  /** The whole of loadTodos. */
  function LoadTodos(s: ClientState, o: Outcome<seq<Todo>>): (r: ClientState)
    ensures !r.loading
    ensures r.inputValue == s.inputValue
    ensures o.Ok? ==> r.todos == o.payload && r.error == None
    ensures o.Fail? ==> r.todos == s.todos && r.error == Some(LoadError)
  {
    LoadEnd(LoadBegin(s), o)
  }

  /**
   The create request handleAddTodo sends, or None when it returns before any
   call. The check is on the trimmed input, but the text sent is the input as
   typed, surrounding whitespace included.
   */
  function AddRequest(s: ClientState): (r: Option<TodoCreate>)
    ensures r.None? <==> IsBlank(s.inputValue)
    ensures r.Some? ==> r.value.text == s.inputValue
  {
    if Trim(s.inputValue) == [] then None else Some(TodoCreate(s.inputValue))
  }

  /** handleAddTodo, given the outcome of the create call (ignored when no call is made). */
  function AddTodo(s: ClientState, o: Outcome<Todo>): (r: ClientState)
    ensures IsBlank(s.inputValue) ==> r == s
    ensures !IsBlank(s.inputValue) && o.Ok? ==>
      && |r.todos| == |s.todos| + 1
      && r.todos[..|s.todos|] == s.todos
      && r.todos[|s.todos|] == o.payload
      && r.inputValue == ""
      && r.error == None
    ensures !IsBlank(s.inputValue) && o.Fail? ==>
      r.todos == s.todos && r.inputValue == s.inputValue && r.error == Some(AddError)
    ensures r.loading == s.loading
  {
    if AddRequest(s).None? then s
    else
      match o
      case Ok(newTodo) => s.(todos := s.todos + [newTodo], inputValue := "", error := None)
      case Fail => s.(error := Some(AddError))
  }

  /** The update handleToggleTodo sends: only `completed`, flipped from the value the checkbox showed. */
  function ToggleRequest(completed: bool): (u: TodoUpdate)
    ensures u.text.None? && u.completed == Some(!completed)
  {
    TodoUpdate(None, Some(!completed))
  }

  function ReplaceIfId(id: string, updated: Todo): Todo -> Todo {
    (t: Todo) => if t.id == id then updated else t
  }

  /** handleToggleTodo, given the outcome of the update call. */
  function ToggleTodo(s: ClientState, id: string, o: Outcome<Todo>): (r: ClientState)
    ensures |r.todos| == |s.todos|
    ensures o.Ok? ==> r.error == None
    ensures o.Ok? ==> forall i :: 0 <= i < |s.todos| && s.todos[i].id == id ==> r.todos[i] == o.payload
    ensures forall i :: 0 <= i < |s.todos| && s.todos[i].id != id ==> r.todos[i] == s.todos[i]
    ensures o.Fail? ==> r.todos == s.todos && r.error == Some(UpdateError)
    ensures r.inputValue == s.inputValue && r.loading == s.loading
  {
    match o
    case Ok(updated) => s.(todos := Map(ReplaceIfId(id, updated), s.todos), error := None)
    case Fail => s.(error := Some(UpdateError))
  }

  function IdIsNot(id: string): Todo -> bool {
    (t: Todo) => t.id != id
  }

  /** handleDeleteTodo, given the outcome of the delete call. */
  function DeleteTodo(s: ClientState, id: string, o: Outcome<()>): (r: ClientState)
    ensures o.Ok? ==> r.error == None
    ensures o.Ok? ==> forall i :: 0 <= i < |r.todos| ==> r.todos[i] in s.todos && r.todos[i].id != id
    ensures o.Ok? ==> forall i :: 0 <= i < |s.todos| && s.todos[i].id != id ==> s.todos[i] in r.todos
    ensures o.Fail? ==> r.todos == s.todos && r.error == Some(DeleteError)
    ensures r.inputValue == s.inputValue && r.loading == s.loading
  {
    match o
    case Ok(_) =>
      FilterFrom(IdIsNot(id), s.todos);
      FilterKeeps(IdIsNot(id), s.todos);
      s.(todos := Filter(IdIsNot(id), s.todos), error := None)
    case Fail => s.(error := Some(DeleteError))
  }

  /** With distinct ids, a successful delete cuts the one matching entry out of the list. */
  lemma DeleteCutsOutEntry(s: ClientState, j: int)
    requires 0 <= j < |s.todos|
    requires forall i :: 0 <= i < |s.todos| && i != j ==> s.todos[i].id != s.todos[j].id
    ensures DeleteTodo(s, s.todos[j].id, Ok(())).todos == s.todos[..j] + s.todos[j + 1..]
  {
    RemovesOnlyIndex(IdIsNot(s.todos[j].id), s.todos, j);
  }

  /** A successful delete of an id nobody has leaves the list as it was. */
  lemma DeleteAbsentKeepsTodos(s: ClientState, id: string)
    requires forall i :: 0 <= i < |s.todos| ==> s.todos[i].id != id
    ensures DeleteTodo(s, id, Ok(())).todos == s.todos
  {
    FilterKeepsAll(IdIsNot(id), s.todos);
  }

  /** handleClearCompleted, given the outcome of the clear call. */
  function ClearCompleted(s: ClientState, o: Outcome<()>): (r: ClientState)
    ensures o.Ok? ==> r.error == None
    ensures o.Ok? ==> forall i :: 0 <= i < |r.todos| ==> r.todos[i] in s.todos && !r.todos[i].completed
    ensures o.Ok? ==> forall i :: 0 <= i < |s.todos| && !s.todos[i].completed ==> s.todos[i] in r.todos
    ensures o.Fail? ==> r.todos == s.todos && r.error == Some(ClearError)
    ensures r.inputValue == s.inputValue && r.loading == s.loading
  {
    match o
    case Ok(_) =>
      FilterFrom(IsActive, s.todos);
      FilterKeeps(IsActive, s.todos);
      s.(todos := Filter(IsActive, s.todos), error := None)
    case Fail => s.(error := Some(ClearError))
  }

  /** After a successful clear nothing is completed, the remaining count is unchanged, and the control is hidden. */
  lemma ClearCompletedCounts(s: ClientState)
    ensures CompletedCount(ClearCompleted(s, Ok(())).todos) == 0
    ensures IncompleteCount(ClearCompleted(s, Ok(())).todos) == IncompleteCount(s.todos)
    ensures !ShowsClearCompleted(ClearCompleted(s, Ok(())))
  {
    var kept := Filter(IsActive, s.todos);
    FilterIdempotent(IsActive, s.todos);
    FilterComplement(IsActive, IsCompleted, kept);
  }

  /** A second successful clear changes nothing in the list. */
  lemma ClearCompletedIdempotent(s: ClientState)
    ensures ClearCompleted(ClearCompleted(s, Ok(())), Ok(())).todos == ClearCompleted(s, Ok(())).todos
  {
    FilterIdempotent(IsActive, s.todos);
  }

  /** Typing into the input box: the onChange handler. */
  function SetInput(s: ClientState, text: string): (r: ClientState)
    ensures r.inputValue == text
    ensures r.todos == s.todos && r.loading == s.loading && r.error == s.error
  {
    s.(inputValue := text)
  }
}
