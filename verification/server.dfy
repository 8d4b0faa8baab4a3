/**
 The todo service's in-memory store and its five endpoints.

 The store is an insertion-ordered dictionary from id to todo. It is modelled
 as a sequence of key/value entries in insertion order: a new key goes at the
 end, an update keeps the entry where it is, a deletion closes the gap. A
 store is well formed when its keys are distinct and every todo's `id` is the
 key it is stored under.
 */
module TodoServer {
  import opened Wrappers
  import opened Seqs
  import opened TodoTypes

  datatype Entry = Entry(key: string, todo: Todo)

  type Store = seq<Entry>

  /** An HTTP response: a 2xx body, or an error status with its `detail`. */
  datatype HttpResult<T> = Ok(body: T) | HttpError(status: int, detail: string)

  /** The store after a request, and the response sent back. */
  datatype Reply<T> = Reply(store: Store, response: HttpResult<T>)

  const NotFoundStatus := 404
  const NotFoundDetail := "Todo not found"
  const DeletedMessage := "Todo deleted"

  predicate DistinctKeys(db: Store) {
    forall i, j :: 0 <= i < j < |db| ==> db[i].key != db[j].key
  }

  predicate KeysMatchIds(db: Store) {
    forall i :: 0 <= i < |db| ==> db[i].todo.id == db[i].key
  }

  predicate WellFormed(db: Store) {
    DistinctKeys(db) && KeysMatchIds(db)
  }

  function Keys(db: Store): (r: set<string>)
    ensures db == [] ==> r == {}
  {
    set i | 0 <= i < |db| :: db[i].key
  }

  function ValueOf(e: Entry): Todo {
    e.todo
  }

  function KeyOf(e: Entry): string {
    e.key
  }

  function KeyIsNot(k: string): Entry -> bool {
    (e: Entry) => e.key != k
  }

  function KeyNotIn(ks: seq<string>): Entry -> bool {
    (e: Entry) => e.key !in ks
  }

  predicate EntryActive(e: Entry) {
    !e.todo.completed
  }

  predicate EntryCompleted(e: Entry) {
    e.todo.completed
  }

  /** The value stored under `k`, if any (`todos_db[k]` guarded by `k in todos_db`). */
  function Lookup(db: Store, k: string): (r: Option<Todo>)
    ensures r.None? <==> k !in Keys(db)
    ensures r.Some? ==> exists i :: 0 <= i < |db| && db[i].key == k && db[i].todo == r.value
  {
    if db == [] then None
    else if db[0].key == k then Some(db[0].todo)
    else
      var r := Lookup(db[1..], k);
      KeysCons(db);
      assert r.Some? ==> exists i :: 0 <= i < |db| && db[i].key == k && db[i].todo == r.value by {
        if r.Some? {
          var i :| 0 <= i < |db[1..]| && db[1..][i].key == k && db[1..][i].todo == r.value;
          assert db[i + 1] == db[1..][i];
        }
      }
      r
  }

  /** The keys of a non-empty store: its first key and the keys of the rest. */
  lemma KeysCons(db: Store)
    requires db != []
    ensures Keys(db) == {db[0].key} + Keys(db[1..])
  {
    forall x | x in Keys(db) ensures x in {db[0].key} + Keys(db[1..]) {
      var i :| 0 <= i < |db| && db[i].key == x;
      if i > 0 { assert db[1..][i - 1].key == x; }
    }
    forall x | x in Keys(db[1..]) ensures x in Keys(db) {
      var i :| 0 <= i < |db[1..]| && db[1..][i].key == x;
      assert db[i + 1].key == x;
    }
  }

  /** In a store with distinct keys, the entry at position `i` is the one `Lookup` finds. */
  lemma LookupAt(db: Store, i: int)
    requires DistinctKeys(db)
    requires 0 <= i < |db|
    ensures Lookup(db, db[i].key) == Some(db[i].todo)
  {
    var r := Lookup(db, db[i].key);
    assert db[i].key in Keys(db);
    var j :| 0 <= j < |db| && db[j].key == db[i].key && db[j].todo == r.value;
    assert j == i;
  }

  /** GET /api/todos: the stored todos in insertion order (`list(todos_db.values())`). */
  function GetTodos(db: Store): (r: seq<Todo>)
    ensures |r| == |db|
    ensures forall i :: 0 <= i < |db| ==> r[i] == db[i].todo
  {
    Map(ValueOf, db)
  }

  /** In a well-formed store the listing carries each todo once: ids in it are distinct and are the keys. */
  lemma ListingIdsAreKeys(db: Store)
    requires WellFormed(db)
    ensures forall i, j :: 0 <= i < j < |db| ==> GetTodos(db)[i].id != GetTodos(db)[j].id
    ensures forall i :: 0 <= i < |db| ==> GetTodos(db)[i].id == db[i].key
  {
  }

  /**
   POST /api/todos. The service picks `freshId` (a random UUID) and `now`
   (the clock), stores a new incomplete todo under `freshId` and returns it.
   The text is stored as sent: nothing checks that it is non-empty.
   */
  function CreateTodo(db: Store, req: TodoCreate, freshId: string, now: string): (r: Reply<Todo>)
    requires freshId !in Keys(db)
    ensures r.response.Ok?
    ensures r.response.body.id == freshId && r.response.body.text == req.text
    ensures !r.response.body.completed && r.response.body.createdAt == now
    ensures GetTodos(r.store) == GetTodos(db) + [r.response.body]
    ensures Keys(r.store) == Keys(db) + {freshId}
    ensures Lookup(r.store, freshId) == Some(r.response.body)
    ensures WellFormed(db) ==> WellFormed(r.store)
  {
    var t := Todo(freshId, req.text, false, now);
    AppendFresh(db, Entry(freshId, t));
    Reply(db + [Entry(freshId, t)], Ok(t))
  }

  /** Storing under a new key puts the entry last and grows the key set by that key. */
  lemma AppendFresh(db: Store, e: Entry)
    requires e.key !in Keys(db)
    ensures Keys(db + [e]) == Keys(db) + {e.key}
    ensures DistinctKeys(db) ==> DistinctKeys(db + [e])
    ensures Lookup(db + [e], e.key) == Some(e.todo)
    ensures GetTodos(db + [e]) == GetTodos(db) + [e.todo]
    ensures KeysMatchIds(db) && e.todo.id == e.key ==> KeysMatchIds(db + [e])
  {
    ListingAppend(db, e);
    KeysAppend(db, e);
    FreshKeyOnlyLast(db, e);
    LookupLast(db + [e], |db|);
  }

  /** The only entry with its key is the one `Lookup` finds. */
  lemma LookupLast(db: Store, at: int)
    requires 0 <= at < |db|
    requires forall i :: 0 <= i < |db| && i != at ==> db[i].key != db[at].key
    ensures Lookup(db, db[at].key) == Some(db[at].todo)
  {
    var k := db[at].key;
    assert k in Keys(db);
    var found := Lookup(db, k);
    var i :| 0 <= i < |db| && db[i].key == k && db[i].todo == found.value;
  }

  /** A key not yet in the store occurs in `db + [e]` only at the last position. */
  lemma FreshKeyOnlyLast(db: Store, e: Entry)
    requires e.key !in Keys(db)
    ensures forall i :: 0 <= i < |db| ==> (db + [e])[i].key != e.key
  {
    forall i | 0 <= i < |db| ensures (db + [e])[i].key != e.key {
      assert db[i].key in Keys(db);
    }
  }

  lemma ListingAppend(db: Store, e: Entry)
    ensures GetTodos(db + [e]) == GetTodos(db) + [e.todo]
  {
    MapAppend(ValueOf, db, [e]);
  }

  lemma KeysAppend(db: Store, e: Entry)
    ensures Keys(db + [e]) == Keys(db) + {e.key}
  {
    var db' := db + [e];
    forall x | x in Keys(db') ensures x in Keys(db) + {e.key} {
      var i :| 0 <= i < |db'| && db'[i].key == x;
      if i < |db| { assert db[i].key == x; }
    }
    forall x | x in Keys(db) ensures x in Keys(db') {
      var i :| 0 <= i < |db| && db[i].key == x;
      assert db'[i].key == x;
    }
    assert db'[|db|].key == e.key;
  }

  /** The todo `t` with the fields `u` sets overwritten; a `None` field leaves `t`'s value. */
  function ApplyUpdate(t: Todo, u: TodoUpdate): (r: Todo)
    ensures r.id == t.id && r.createdAt == t.createdAt
    ensures u.text.None? ==> r.text == t.text
    ensures u.completed.None? ==> r.completed == t.completed
    ensures u.text.Some? ==> r.text == u.text.value
    ensures u.completed.Some? ==> r.completed == u.completed.value
  {
    var t1 := if u.text.Some? then t.(text := u.text.value) else t;
    if u.completed.Some? then t1.(completed := u.completed.value) else t1
  }

  /** An update with every field `None` changes nothing. */
  lemma EmptyUpdateIsIdentity(t: Todo)
    ensures ApplyUpdate(t, TodoUpdate(None, None)) == t
  {
  }

  /** Applying the same update twice is applying it once. */
  lemma ApplyUpdateIdempotent(t: Todo, u: TodoUpdate)
    ensures ApplyUpdate(ApplyUpdate(t, u), u) == ApplyUpdate(t, u)
  {
  }

  function ReplaceAtKey(k: string, t: Todo): Entry -> Entry {
    (e: Entry) => if e.key == k then Entry(e.key, t) else e
  }

  /**
   PATCH /api/todos/{id}: 404 "Todo not found" if `id` is not a key; otherwise
   the stored todo is updated in place and returned.
   */
  function UpdateTodo(db: Store, id: string, u: TodoUpdate): (r: Reply<Todo>)
    ensures id !in Keys(db) ==> r == Reply(db, HttpError(NotFoundStatus, NotFoundDetail))
    ensures id in Keys(db) ==>
      r.response.Ok? && Lookup(db, id).Some? && r.response.body == ApplyUpdate(Lookup(db, id).value, u)
    ensures |r.store| == |db|
    ensures forall i :: 0 <= i < |db| && db[i].key == id ==> r.store[i] == Entry(id, r.response.body)
    ensures forall i :: 0 <= i < |db| && db[i].key != id ==> r.store[i] == db[i]
    ensures Keys(r.store) == Keys(db)
    ensures WellFormed(db) ==> WellFormed(r.store)
  {
    match Lookup(db, id)
    case None => Reply(db, HttpError(NotFoundStatus, NotFoundDetail))
    case Some(prev) =>
      var t := ApplyUpdate(prev, u);
      ReplaceKeepsShape(db, id, t);
      Reply(Map(ReplaceAtKey(id, t), db), Ok(t))
  }

  /** Replacing the value under `id` keeps the keys and, if the new todo carries `id`, well-formedness. */
  lemma ReplaceKeepsShape(db: Store, id: string, t: Todo)
    ensures Keys(Map(ReplaceAtKey(id, t), db)) == Keys(db)
    ensures WellFormed(db) && t.id == id ==> WellFormed(Map(ReplaceAtKey(id, t), db))
  {
    var db' := Map(ReplaceAtKey(id, t), db);
    assert forall i :: 0 <= i < |db| ==> db'[i].key == db[i].key;
    forall x | x in Keys(db') ensures x in Keys(db) {
      var i :| 0 <= i < |db'| && db'[i].key == x;
      assert db[i].key == x;
    }
    forall x | x in Keys(db) ensures x in Keys(db') {
      var i :| 0 <= i < |db| && db[i].key == x;
      assert db'[i].key == x;
    }
  }

  /** The entries of `db` whose key is not `k`, in order. */
  function DelKey(db: Store, k: string): (r: Store)
    requires k in Keys(db)
    ensures Keys(r) == Keys(db) - {k}
    ensures DistinctKeys(db) ==> |r| == |db| - 1
    ensures DistinctKeys(db) ==> exists j :: 0 <= j < |db| && db[j].key == k && r == db[..j] + db[j + 1..]
  {
    var r := Filter(KeyIsNot(k), db);
    KeysWithout(db, k);
    assert DistinctKeys(db) ==> exists j :: 0 <= j < |db| && db[j].key == k && r == db[..j] + db[j + 1..] by {
      if DistinctKeys(db) {
        var j :| 0 <= j < |db| && db[j].key == k;
        RemovesOnlyIndex(KeyIsNot(k), db, j);
      }
    }
    r
  }

  /** Filtering out key `k` removes `k`, and only `k`, from the key set. */
  lemma KeysWithout(db: Store, k: string)
    ensures Keys(Filter(KeyIsNot(k), db)) == Keys(db) - {k}
  {
    var r := Filter(KeyIsNot(k), db);
    FilterFrom(KeyIsNot(k), db);
    FilterKeeps(KeyIsNot(k), db);
    forall x | x in Keys(r) ensures x in Keys(db) - {k} {
      var i :| 0 <= i < |r| && r[i].key == x;
      assert KeyIsNot(k)(r[i]);
      var j :| 0 <= j < |db| && db[j] == r[i];
    }
    forall x | x in Keys(db) - {k} ensures x in Keys(r) {
      var i :| 0 <= i < |db| && db[i].key == x;
      assert KeyIsNot(k)(db[i]);
      var j :| 0 <= j < |r| && r[j] == db[i];
    }
  }

  /**
   DELETE /api/todos/{id}: 404 "Todo not found" if `id` is not a key;
   otherwise that entry is removed and every other entry keeps its order.
   */
  function DeleteTodo(db: Store, id: string): (r: Reply<string>)
    ensures id !in Keys(db) ==> r == Reply(db, HttpError(NotFoundStatus, NotFoundDetail))
    ensures id in Keys(db) ==> r.response == Ok(DeletedMessage) && Keys(r.store) == Keys(db) - {id}
    ensures forall i :: 0 <= i < |db| && db[i].key != id ==> db[i] in r.store
    ensures forall i :: 0 <= i < |r.store| ==> r.store[i] in db
    ensures WellFormed(db) ==> WellFormed(r.store)
  {
    if id !in Keys(db) then Reply(db, HttpError(NotFoundStatus, NotFoundDetail))
    else
      var db' := DelKey(db, id);
      FilterFrom(KeyIsNot(id), db);
      FilterKeeps(KeyIsNot(id), db);
      SubsequenceKeepsWellFormed(KeyIsNot(id), db);
      Reply(db', Ok(DeletedMessage))
  }

  /** Removing the one entry keyed `id` from a store with distinct keys is cutting it out at its position. */
  lemma DeleteCutsOutEntry(db: Store, j: int)
    requires DistinctKeys(db)
    requires 0 <= j < |db|
    ensures DeleteTodo(db, db[j].key).store == db[..j] + db[j + 1..]
  {
    assert db[j].key in Keys(db);
    RemovesOnlyIndex(KeyIsNot(db[j].key), db, j);
  }

  /** Any filtered store keeps well-formedness. */
  lemma SubsequenceKeepsWellFormed(p: Entry -> bool, db: Store)
    ensures DistinctKeys(db) ==> DistinctKeys(Filter(p, db))
    ensures KeysMatchIds(db) ==> KeysMatchIds(Filter(p, db))
  {
    if DistinctKeys(db) {
      FilterKeepsDistinctKeys(p, db);
    }
    var r := Filter(p, db);
    FilterFrom(p, db);
    if KeysMatchIds(db) {
      forall i | 0 <= i < |r| ensures r[i].todo.id == r[i].key {
        var k :| 0 <= k < |db| && db[k] == r[i];
      }
    }
  }

  lemma {:induction false} FilterKeepsDistinctKeys(p: Entry -> bool, db: Store)
    requires DistinctKeys(db)
    ensures DistinctKeys(Filter(p, db))
  {
    if db != [] {
      var tail := db[1..];
      FilterKeepsDistinctKeys(p, tail);
      var rest := Filter(p, tail);
      FilterFrom(p, tail);
      forall i | 0 <= i < |rest| ensures rest[i].key != db[0].key {
        var k :| 0 <= k < |tail| && tail[k] == rest[i];
        assert db[k + 1] == rest[i];
      }
    }
  }

  /**
   DELETE /api/todos/completed/clear, as a function: the store keeps exactly
   its incomplete entries in order, and the response carries how many entries
   were removed (the `N` of "Cleared N completed todos").
   */
  function ClearCompleted(db: Store): (r: Reply<nat>)
    ensures r.response.Ok?
    ensures r.response.body + |r.store| == |db|
    ensures forall i :: 0 <= i < |r.store| ==> r.store[i] in db && !r.store[i].todo.completed
    ensures forall i :: 0 <= i < |db| && !db[i].todo.completed ==> db[i] in r.store
    ensures Keys(r.store) <= Keys(db)
    ensures WellFormed(db) ==> WellFormed(r.store)
  {
    var kept := Filter(EntryActive, db);
    FilterFrom(EntryActive, db);
    FilterKeeps(EntryActive, db);
    FilterComplement(EntryActive, EntryCompleted, db);
    SubsequenceKeepsWellFormed(EntryActive, db);
    assert Keys(kept) <= Keys(db) by {
      forall x | x in Keys(kept) ensures x in Keys(db) {
        var i :| 0 <= i < |kept| && kept[i].key == x;
        var j :| 0 <= j < |db| && db[j] == kept[i];
      }
    }
    Reply(kept, Ok(|Filter(EntryCompleted, db)|))
  }

  /** Clearing completed todos a second time removes nothing more. */
  lemma ClearCompletedIdempotent(db: Store)
    ensures ClearCompleted(ClearCompleted(db).store).store == ClearCompleted(db).store
    ensures ClearCompleted(ClearCompleted(db).store).response == Ok(0)
  {
    FilterIdempotent(EntryActive, db);
  }

  /** The keys of the completed entries, in store order (the list comprehension of the endpoint). */
  function CompletedKeys(db: Store): (ids: seq<string>)
    ensures |ids| + |Filter(EntryActive, db)| == |db|
    ensures forall m :: 0 <= m < |ids| ==> ids[m] in Keys(db)
  {
    var completed := Filter(EntryCompleted, db);
    FilterComplement(EntryActive, EntryCompleted, db);
    FilterFrom(EntryCompleted, db);
    var ids := Map(KeyOf, completed);
    assert forall m :: 0 <= m < |ids| ==> ids[m] in Keys(db) by {
      forall m | 0 <= m < |ids| ensures ids[m] in Keys(db) {
        var j :| 0 <= j < |db| && db[j] == completed[m];
      }
    }
    ids
  }

  /** In a store with distinct keys, the completed keys are distinct. */
  lemma CompletedKeysDistinct(db: Store)
    requires DistinctKeys(db)
    ensures forall m, n :: 0 <= m < n < |CompletedKeys(db)| ==> CompletedKeys(db)[m] != CompletedKeys(db)[n]
  {
    var completed := Filter(EntryCompleted, db);
    assert CompletedKeys(db) == Map(KeyOf, completed);
    SubsequenceKeepsWellFormed(EntryCompleted, db);
  }

  /** A completed key is an entry's key exactly when that entry is completed. */
  lemma CompletedKeysSelectCompleted(db: Store, j: int)
    requires DistinctKeys(db)
    requires 0 <= j < |db|
    ensures db[j].key in CompletedKeys(db) <==> db[j].todo.completed
  {
    var completed := Filter(EntryCompleted, db);
    var ids := CompletedKeys(db);
    assert ids == Map(KeyOf, completed);
    FilterFrom(EntryCompleted, db);
    FilterKeeps(EntryCompleted, db);
    if db[j].todo.completed {
      var c :| 0 <= c < |completed| && completed[c] == db[j];
      assert ids[c] == db[j].key;
    }
    if db[j].key in ids {
      var c :| 0 <= c < |ids| && ids[c] == db[j].key;
      var j' :| 0 <= j' < |db| && db[j'] == completed[c];
      assert j' == j;
    }
  }

  /** Before the `i`-th deletion, the `i`-th completed key is still in the store. */
  lemma NextCompletedKeyPresent(db: Store, i: int)
    requires DistinctKeys(db)
    requires 0 <= i < |CompletedKeys(db)|
    ensures CompletedKeys(db)[i] in Keys(Filter(KeyNotIn(CompletedKeys(db)[..i]), db))
  {
    var ids := CompletedKeys(db);
    var k := ids[i];
    CompletedKeysDistinct(db);
    var j :| 0 <= j < |db| && db[j].key == k;
    assert KeyNotIn(ids[..i])(db[j]);
    var cur := Filter(KeyNotIn(ids[..i]), db);
    FilterKeeps(KeyNotIn(ids[..i]), db);
    var c :| 0 <= c < |cur| && cur[c] == db[j];
  }

  /** Deleting one more key is filtering by one more excluded key. */
  lemma DeleteOneMore(db: Store, ids: seq<string>, i: int)
    requires 0 <= i < |ids|
    ensures Filter(KeyIsNot(ids[i]), Filter(KeyNotIn(ids[..i]), db)) == Filter(KeyNotIn(ids[..i + 1]), db)
  {
    assert ids[..i + 1] == ids[..i] + [ids[i]];
    FilterFilter(KeyNotIn(ids[..i]), KeyIsNot(ids[i]), KeyNotIn(ids[..i + 1]), db);
  }

  /**
   The endpoint as the service runs it: collect the completed keys in order,
   then delete them one at a time. It leaves the incomplete entries in their
   order and reports how many were removed, as `ClearCompleted` does.
   */
  method ClearCompletedLoop(db: Store) returns (r: Reply<nat>)
    requires DistinctKeys(db)
    ensures r.response.Ok? && r.response.body + |r.store| == |db|
    ensures r.store == Filter(EntryActive, db)
  {
    var completedIds := CompletedKeys(db);
    var cur := db;
    var i := 0;
    FilterKeepsAll(KeyNotIn(completedIds[..0]), db);
    while i < |completedIds|
      invariant 0 <= i <= |completedIds|
      invariant cur == Filter(KeyNotIn(completedIds[..i]), db)
    {
      NextCompletedKeyPresent(db, i);
      DeleteOneMore(db, completedIds, i);
      cur := DelKey(cur, completedIds[i]);
      i := i + 1;
    }
    assert completedIds[..i] == completedIds;
    forall j | 0 <= j < |db| ensures KeyNotIn(completedIds)(db[j]) == EntryActive(db[j]) {
      CompletedKeysSelectCompleted(db, j);
    }
    FilterCongruent(KeyNotIn(completedIds), EntryActive, db);
    FilterComplement(EntryActive, EntryCompleted, db);
    r := Reply(cur, Ok(|completedIds|));
  }
}
