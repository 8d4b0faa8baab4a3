# Todo list: client state manager and in-memory service

A Dafny model of a single-user todo application. It has two halves.

- **The browser client's state manager** (`frontend/src/App.tsx`). It holds the todo list, the text typed in the input box, a loading flag and one visible error message. It has five handlers: load, add, toggle, delete and clear-completed. Each handler makes at most one remote call (add makes none when the input is blank). Local todos change only after that call succeeds. On failure the handler shows its own fixed message and leaves the list alone.
- **The service's in-memory store** (`backend/main.py`). This is an insertion-ordered dictionary from id to todo, with list, create, partial update, delete and clear-completed endpoints. Unknown ids get a 404.

Module layout:

- `wrappers.dfy` (`Wrappers`): `Option`.
- `seqs.dfy` (`Seqs`): order-preserving `Filter` and `Map` over sequences, with lemmas about them. These are JavaScript's `filter`/`map` and the service's list comprehension.
- `todo_types.dfy` (`TodoTypes`): the `Todo`, `TodoCreate` and `TodoUpdate` records shared by both sides.
- `server.dfy` (`TodoServer`): the store and its endpoints.
  - The dictionary is a sequence of key/value entries in insertion order.
  - It is *well formed* when its keys are distinct and every todo's `id` equals its key.
  - Each endpoint is a function from the store to the new store plus an HTTP response.
- `client.dfy` (`TodoClient`): the client state and its handlers.
  - Each handler is a pure step `(state, outcome) -> state`.
  - `Outcome` is `Ok(payload)` when the call returned 2xx, and `Fail` when it threw.
  - The derived counts are computed from the list.
  - `String.prototype.trim` is modelled over the ECMAScript whitespace and line-terminator characters.
- `sync.dfy` (`Sync`): client and service together.
  - Each handler runs against the store. Its request either reaches the service or is lost before the service sees it.
  - The refinement lemmas show that the client's local replay of a write is exact. Replay means: append on create, replace by id on toggle, filter on delete and on clear.
  - So if the client's list equals the service's listing before an operation, it still does afterwards. This holds on success, on 404 and on a lost request.
  - `RunRefines` extends this to whole sessions in which the service never reuses an id.

Behaviour of the code worth knowing:

- `create_todo` (backend/main.py:41-51) performs no validation and stores any text, so only the client's blank check keeps empty text out. `TodoServer.CreateTodo` accepts any text.
- The add handler checks `inputValue.trim()` but sends `inputValue` untrimmed (frontend/src/App.tsx:31,34). `TodoClient.AddRequest` states this.
- The toggle handler flips the `completed` value its checkbox rendered, which is passed in as an argument (frontend/src/App.tsx:44,116). It does not look up the todo in the list. `Sync.ToggleTwiceRestores` models a user clicking the same checkbox twice.

## Model

| member | source | states |
|---|---|---|
| `TodoServer.Lookup` | backend/main.py:55-58 | The lookup is absent exactly when the id is not a key. When present, it is the todo stored under that key. |
| `TodoServer.LookupAt` | backend/main.py:58 | With distinct keys, looking up an entry's key finds that entry's todo. |
| `TodoServer.GetTodos` | backend/main.py:37-39 | The listing has one todo per entry, in insertion order. |
| `TodoServer.ListingIdsAreKeys` | backend/main.py:37-39 | In a well-formed store the listing's ids are pairwise distinct and each is its entry's key. |
| `TodoServer.CreateTodo` | backend/main.py:41-51 | Create returns a todo with the fresh id, the text as sent (no validation) and `completed` false. The todo becomes the last element of the listing, with all earlier ones unchanged. The key set grows by exactly the fresh id, the id is stored under itself, and well-formedness is preserved. |
| `TodoServer.ApplyUpdate` | backend/main.py:58-62 | A partial update overwrites exactly the fields that are set. `id` and `created_at` never change. |
| `TodoServer.EmptyUpdateIsIdentity` | backend/main.py:59-62 | An update with every field `None` leaves the todo unchanged. |
| `TodoServer.ApplyUpdateIdempotent` | backend/main.py:59-62 | Applying the same update twice equals applying it once. |
| `TodoServer.UpdateTodo` | backend/main.py:53-64 | An unknown id gets 404 "Todo not found" and the store is unchanged. Otherwise the entry under the id is replaced in place by the updated todo, which is also the response. All other entries, the length, the key set and well-formedness are preserved. |
| `TodoServer.DelKey` | backend/main.py:71 | `del` on a present key removes exactly that key from the key set and leaves every other key present. With distinct keys it cuts out exactly the entry under that key: the result is the store before it followed by the store after it, so every other entry keeps its todo and its order. |
| `TodoServer.DeleteTodo` | backend/main.py:66-72 | An unknown id gets 404 "Todo not found" and the store is unchanged. Otherwise the response is "Todo deleted", the key set loses exactly that id, every other entry is kept, and well-formedness is preserved. |
| `TodoServer.DeleteCutsOutEntry` | backend/main.py:71 | Deleting the key at position j cuts out exactly that position. The entries before and after it keep their order. |
| `TodoServer.ClearCompleted` | backend/main.py:74-79 | Clear-completed keeps exactly the incomplete entries. The reported count plus the remaining size equals the old size. No key is added, and well-formedness is preserved. |
| `TodoServer.ClearCompletedIdempotent` | backend/main.py:76-79 | A second clear leaves the store as the first clear left it and reports 0 removed. |
| `TodoServer.CompletedKeys` | backend/main.py:76 | The collected ids are keys of the store. Their number plus the number of incomplete entries equals the store size. |
| `TodoServer.CompletedKeysDistinct` | backend/main.py:76 | The collected ids are pairwise distinct, so no deletion in the loop is attempted twice. |
| `TodoServer.CompletedKeysSelectCompleted` | backend/main.py:76 | An entry's key is among the collected ids exactly when that entry is completed. |
| `TodoServer.NextCompletedKeyPresent` | backend/main.py:77-78 | Each `del` in the loop finds its key still present, so the loop never raises `KeyError`. |
| `TodoServer.DeleteOneMore` | backend/main.py:77-78 | One more `del` is the same as filtering out one more collected id. |
| `TodoServer.ClearCompletedLoop` | backend/main.py:74-79 | The collect-then-delete loop as written produces exactly the order-preserving filter `ClearCompleted` describes, with the same count. |
| `TodoClient.CountsPartition` | frontend/src/App.tsx:83-84 | For every list, the remaining count plus the completed count equals the list length. |
| `TodoClient.IncompleteCount` | frontend/src/App.tsx:83 | The number of open todos is at most the list length, and is zero exactly when every todo is completed. |
| `TodoClient.CompletedCount` | frontend/src/App.tsx:84 | The number of completed todos is at most the list length, and is zero exactly when no todo is completed. |
| `TodoClient.ShowsClearCompleted` | frontend/src/App.tsx:134 | The clear-completed control is shown exactly when some todo in the list is completed. |
| `TodoClient.Trim` | frontend/src/App.tsx:31 | `trim()` returns the slice of the input between a whitespace prefix and a whitespace suffix, and the slice itself neither starts nor ends with whitespace. It is empty exactly when every character is whitespace. |
| `TodoClient.LoadBegin` | frontend/src/App.tsx:18 | Entering load raises the loading flag and changes nothing else. |
| `TodoClient.LoadEnd` | frontend/src/App.tsx:19-27 | After the await, the loading flag is always cleared. On success the list is replaced wholesale and the error is cleared. On failure the list is kept and the error is "Failed to load todos". |
| `TodoClient.LoadTodos` | frontend/src/App.tsx:16-28 | The whole of load ends with loading false and the input kept. It has the same success and failure outcomes as `LoadEnd`. |
| `TodoClient.AddRequest` | frontend/src/App.tsx:30-34 | No call is made exactly when the input is all whitespace. Otherwise the create request carries the input untrimmed. |
| `TodoClient.AddTodo` | frontend/src/App.tsx:30-42 | A blank input changes nothing. Success appends the returned todo as the last element, keeps all earlier elements, clears the input and clears the error. Failure keeps the list and the input and sets "Failed to add todo". |
| `TodoClient.ToggleRequest` | frontend/src/App.tsx:46 | The update sends only `completed`, set to the negation of the shown value. |
| `TodoClient.ToggleTodo` | frontend/src/App.tsx:44-53 | The length and every entry with another id are always kept. On success every entry with the id becomes the returned todo and the error clears. On failure the list is unchanged and the error is "Failed to update todo". |
| `TodoClient.DeleteTodo` | frontend/src/App.tsx:55-64 | On success no entry with the id remains, every other entry is kept and the error clears. On failure the list is unchanged and the error is "Failed to delete todo". |
| `TodoClient.DeleteCutsOutEntry` | frontend/src/App.tsx:58 | With distinct ids, a successful delete removes exactly the entry's position and keeps the order of the rest. |
| `TodoClient.DeleteAbsentKeepsTodos` | frontend/src/App.tsx:58 | A successful delete of an id that no entry has leaves the list as it was. |
| `TodoClient.ClearCompleted` | frontend/src/App.tsx:66-75 | On success only incomplete entries remain, every incomplete entry is kept and the error clears. On failure the list is unchanged and the error is "Failed to clear completed todos". |
| `TodoClient.ClearCompletedCounts` | frontend/src/App.tsx:69 | After a successful clear the completed count is 0, the remaining count is unchanged and the control is hidden. |
| `TodoClient.ClearCompletedIdempotent` | frontend/src/App.tsx:69 | A second successful clear leaves the list as the first one did. |
| `TodoClient.SetInput` | frontend/src/App.tsx:98 | Typing replaces the input text and touches nothing else. |
| `Sync.Receive` | frontend/src/api.ts:12-29 | The fetch wrapper yields the body exactly when the response is 2xx, and throws otherwise. |
| `Sync.ReceiveNothing` | frontend/src/api.ts:32-44 | For delete and clear, the call succeeds exactly when the response is 2xx. The body is not read. |
| `Sync.LoadSynchronizes` | frontend/src/App.tsx:19-20 | A delivered load makes any client's list equal the service's listing. A consistent pair stays consistent even when the request is lost. |
| `Sync.AddRefines` | frontend/src/App.tsx:34-35 | Client append vs. service insert-at-end (backend/main.py:50). If the client's list equals the listing before an add, it does after, for every delivery outcome. |
| `Sync.ToggleRefines` | frontend/src/App.tsx:46-47 | Client replace-by-id vs. in-place update (backend/main.py:58-64). Client and service stay equal, including on a 404 or a lost request. |
| `Sync.DeleteRefines` | frontend/src/App.tsx:57-58 | Client filter by id vs. `del` (backend/main.py:71). Client and service stay equal. |
| `Sync.ClearCompletedRefines` | frontend/src/App.tsx:68-69 | Client filter of incomplete todos vs. the service's clear, `TodoServer.ClearCompleted`. Client and service stay equal. `TodoServer.ClearCompletedLoop` equates that clear with the delete loop of backend/main.py:76-78, in store and response. |
| `Sync.ToggleAt` | frontend/src/App.tsx:46-47 | A delivered toggle of position j rewrites position j, with `completed` flipped, on both sides and nothing else, and clears the error. |
| `Sync.ToggleTwiceRestores` | frontend/src/App.tsx:116 | Clicking the same checkbox twice, both delivered, restores the service store and the client list and leaves no error. |
| `Sync.Load` | frontend/src/App.tsx:16-27 | A load is a read (backend/main.py:37-39): the store never changes. |
| `Sync.LoadEffect` | frontend/src/App.tsx:19-23 | Delivered, the client's list becomes the service's listing with no error. Lost, the list stays and "Failed to load todos" is set. |
| `Sync.Add` | frontend/src/App.tsx:30-42 | An add grows the key set by at most the fresh id the service picks (backend/main.py:43-50). |
| `Sync.AddEffect` | frontend/src/App.tsx:31-35 | The store changes only when the input is not blank and the request is delivered. It then gains exactly the fresh id. |
| `Sync.Toggle` | frontend/src/App.tsx:44-53 | A toggle never changes the key set: the update is in place (backend/main.py:53-64). |
| `Sync.ToggleEffect` | frontend/src/App.tsx:46 | A lost toggle leaves the store unchanged. |
| `Sync.Delete` | frontend/src/App.tsx:55-64 | A delete never adds a key (backend/main.py:66-72). |
| `Sync.DeleteEffect` | frontend/src/App.tsx:57 | A delivered delete removes exactly the clicked id from the key set, and nothing when the id is absent. A lost delete leaves the store unchanged. |
| `Sync.ClearCompleted` | frontend/src/App.tsx:66-75 | A clear never adds a key (backend/main.py:74-79). |
| `Sync.ClearCompletedEffect` | frontend/src/App.tsx:68 | A delivered clear leaves no completed todo in the store (backend/main.py:76-78). A lost clear leaves the store unchanged. |
| `Sync.RunKeys` | frontend/src/App.tsx:16-75 | Over a whole session the store gains no key other than the fresh ids of the session's adds. |
| `Sync.Step` | frontend/src/App.tsx:16-75 | No user action adds a key to the store other than the fresh id of an add. |
| `Sync.StepRefines` | frontend/src/App.tsx:16-75 | Every single action (load, type, add, toggle, delete, clear), under every delivery outcome, preserves a consistent client/service pair. |
| `Sync.AddsFreshSubset` | backend/main.py:43 | Id freshness for a session is preserved when the set of ids in use shrinks. |
| `Sync.RunRefines` | frontend/src/App.tsx:16-75 | Over a whole session in which the service never reuses an id, a consistent pair stays consistent after every action. |
| `Sync.FreshStartRefines` | frontend/src/App.tsx:7-10 | A fresh client next to an empty store is consistent, and so is every session from there. |

## Left out

- `frontend/src/api.ts` URL construction, headers and JSON encoding are left out. The wrapper is reduced to `Sync.Receive`/`Sync.ReceiveNothing` (2xx or throw). A lost request is the `Dropped` delivery.
- A response lost *after* the service applied the change is not modelled. The client would then show an error while the service has changed, and the refinement lemmas would not hold for that step.
- Concurrency is not modelled. Handlers capture `todos` at render time (frontend/src/App.tsx:47,58,69), so interleaved completions can lose updates. Each handler is an atomic sequential step.
- React rendering, hooks, the startup `useEffect` (modelled as an ordinary load action), the "task"/"tasks" wording, the Enter-key binding and `console.error` are presentation and are not modelled.
- FastAPI routing, CORS, the `/` health endpoint, uvicorn startup, and pydantic's 422 responses to malformed bodies are left out. The client always sends well-typed bodies.
- `uuid.uuid4()` and `datetime.now()` become the parameters `freshId` and `now`. The timestamp is an opaque string, so its JSON serialisation is not modelled.
- `TodoServer.CreateTodo` requires that `freshId` is not already a key. A uuid4 collision would overwrite the existing entry in place, and that case is not modelled.
- `TodoServer.ClearCompleted` reports only the count N of the message "Cleared N completed todos". The message text is not built.
- `TodoClient.Trim` works on Unicode scalar values rather than the UTF-16 code units of a JavaScript string. The whitespace set is the ECMAScript WhiteSpace and LineTerminator set.
- `TodoClient.DeleteTodo` states which entries survive, but neither their order nor how often each appears. Order is stated by `TodoClient.DeleteCutsOutEntry` for lists with distinct ids, and exactly by `Sync.DeleteRefines`.
- `TodoClient.ClearCompleted` states which entries survive, but neither their order nor how often each appears. Order is stated exactly by `Sync.ClearCompletedRefines`, against the service listing.
- `TodoServer.DeleteTodo` states membership and keys, not order. Order is stated by `TodoServer.DeleteCutsOutEntry`.
- `TodoServer.ClearCompleted` states membership and counts, not order. Order is stated by `TodoServer.ClearCompletedLoop` (`r.store == Filter(EntryActive, db)`).
