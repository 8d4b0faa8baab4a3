/**
 The record shapes shared by the browser client and the todo service: the
 `Todo`, `TodoCreate` and `TodoUpdate` interfaces of the client and the
 pydantic models of the same names on the server.
 */
module TodoTypes {
  import opened Wrappers

  /** One task. `createdAt` is the server's creation timestamp, kept opaque. */
  datatype Todo = Todo(id: string, text: string, completed: bool, createdAt: string)

  /** Body of a create request. */
  datatype TodoCreate = TodoCreate(text: string)

  /** Body of a partial update: `None` means the field is left as it is. */
  datatype TodoUpdate = TodoUpdate(text: Option<string>, completed: Option<bool>)

  predicate IsCompleted(t: Todo) {
    t.completed
  }

  predicate IsActive(t: Todo) {
    !t.completed
  }
}
