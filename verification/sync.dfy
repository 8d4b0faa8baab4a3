/**
 The client and the service together. A `System` pairs the client's state
 with the service's store; each client handler is run against the store,
 with the request either reaching the service or being lost on the way.

 The client never re-reads the list after a write: it replays the write on
 its own copy (append for create, replace-by-id for update, filter for
 delete and clear). The lemmas here show that this replay is exact: when the
 client's list equals the service's listing before an operation, it still
 does afterwards, whatever the modelled outcome.
 */
module Sync {
  import opened Wrappers
  import opened Seqs
  import opened TodoTypes
  import C = TodoClient
  import S = TodoServer

  datatype System = System(client: C.ClientState, server: S.Store)

  /** Whether a request reached the service (`Dropped`: the fetch threw before the service saw it). */
  datatype Delivery = Delivered | Dropped

  /** The client's list is the service's listing. */
  predicate Synced(sys: System) {
    sys.client.todos == S.GetTodos(sys.server)
  }

  predicate Consistent(sys: System) {
    S.WellFormed(sys.server) && Synced(sys)
  }

  /** The client's fetch wrapper: a non-2xx status throws, a 2xx response yields its body. */
  function Receive<T>(r: S.HttpResult<T>): (o: C.Outcome<T>)
    ensures o.Ok? <==> r.Ok?
    ensures r.Ok? ==> o.payload == r.body
  {
    match r
    case Ok(body) => C.Ok(body)
    case HttpError(_, _) => C.Fail
  }

  /** The same for the calls whose response body the client does not read. */
  function ReceiveNothing<T>(r: S.HttpResult<T>): (o: C.Outcome<()>)
    ensures o.Ok? <==> r.Ok?
  {
    match r
    case Ok(_) => C.Ok(())
    case HttpError(_, _) => C.Fail
  }

  /** loadTodos against the store: a read, so the store never changes. */
  function Load(sys: System, d: Delivery): (r: System)
    ensures r.server == sys.server
  {
    match d
    case Dropped => sys.(client := C.LoadTodos(sys.client, C.Fail))
    case Delivered => sys.(client := C.LoadTodos(sys.client, C.Ok(S.GetTodos(sys.server))))
  }

  /** Adding, with `freshId` and `now` the id and timestamp the service will pick. */
  function Add(sys: System, freshId: string, now: string, d: Delivery): (r: System)
    requires freshId !in S.Keys(sys.server)
    ensures S.Keys(r.server) <= S.Keys(sys.server) + {freshId}
  {
    match C.AddRequest(sys.client)
    case None => sys
    case Some(req) =>
      if d.Dropped? then sys.(client := C.AddTodo(sys.client, C.Fail))
      else
        var reply := S.CreateTodo(sys.server, req, freshId, now);
        System(C.AddTodo(sys.client, Receive(reply.response)), reply.store)
  }

  /** Clicking the checkbox of `id`, which showed `completed`. */
  function Toggle(sys: System, id: string, completed: bool, d: Delivery): (r: System)
    ensures S.Keys(r.server) == S.Keys(sys.server)
  {
    if d.Dropped? then sys.(client := C.ToggleTodo(sys.client, id, C.Fail))
    else
      var reply := S.UpdateTodo(sys.server, id, C.ToggleRequest(completed));
      System(C.ToggleTodo(sys.client, id, Receive(reply.response)), reply.store)
  }

  /** Clicking the delete button of `id`. */
  function Delete(sys: System, id: string, d: Delivery): (r: System)
    ensures S.Keys(r.server) <= S.Keys(sys.server)
  {
    if d.Dropped? then sys.(client := C.DeleteTodo(sys.client, id, C.Fail))
    else
      var reply := S.DeleteTodo(sys.server, id);
      System(C.DeleteTodo(sys.client, id, ReceiveNothing(reply.response)), reply.store)
  }

  /** Clicking "Clear Completed". */
  function ClearCompleted(sys: System, d: Delivery): (r: System)
    ensures S.Keys(r.server) <= S.Keys(sys.server)
  {
    if d.Dropped? then sys.(client := C.ClearCompleted(sys.client, C.Fail))
    else
      var reply := S.ClearCompleted(sys.server);
      System(C.ClearCompleted(sys.client, ReceiveNothing(reply.response)), reply.store)
  }

  /** A delivered load shows the service's listing with no error; a lost one keeps the list and reports it. */
  lemma LoadEffect(sys: System, d: Delivery)
    ensures d.Delivered? ==> Load(sys, d).client.todos == S.GetTodos(sys.server) && Load(sys, d).client.error.None?
    ensures d.Dropped? ==> Load(sys, d).client.todos == sys.client.todos && Load(sys, d).client.error == Some(C.LoadError)
  {
  }

  /** An add reaches the store only when the input is not blank and the request is delivered; it then adds exactly the fresh id. */
  lemma AddEffect(sys: System, freshId: string, now: string, d: Delivery)
    requires freshId !in S.Keys(sys.server)
    ensures C.AddRequest(sys.client).None? || d.Dropped? ==> Add(sys, freshId, now, d).server == sys.server
    ensures C.AddRequest(sys.client).Some? && d.Delivered? ==>
      S.Keys(Add(sys, freshId, now, d).server) == S.Keys(sys.server) + {freshId}
  {
  }

  /** A lost toggle leaves the store as it was. */
  lemma ToggleEffect(sys: System, id: string, completed: bool, d: Delivery)
    ensures d.Dropped? ==> Toggle(sys, id, completed, d).server == sys.server
  {
  }

  /** A delivered delete removes exactly the clicked id from the key set; a lost one changes nothing. */
  lemma DeleteEffect(sys: System, id: string, d: Delivery)
    ensures d.Delivered? ==> S.Keys(Delete(sys, id, d).server) == S.Keys(sys.server) - {id}
    ensures d.Dropped? ==> Delete(sys, id, d).server == sys.server
  {
  }

  /** A delivered clear leaves no completed todo in the store; a lost one changes nothing. */
  lemma ClearCompletedEffect(sys: System, d: Delivery)
    ensures d.Delivered? ==> forall i :: 0 <= i < |ClearCompleted(sys, d).server| ==> !ClearCompleted(sys, d).server[i].todo.completed
    ensures d.Dropped? ==> ClearCompleted(sys, d).server == sys.server
  {
  }

  /** A delivered load brings any client in line with a well-formed store. */
  lemma LoadSynchronizes(sys: System, d: Delivery)
    requires S.WellFormed(sys.server)
    ensures d.Delivered? ==> Consistent(Load(sys, d))
    ensures Consistent(sys) ==> Consistent(Load(sys, d))
  {
  }

  lemma {:induction false} AddRefines(sys: System, freshId: string, now: string, d: Delivery)
    requires Consistent(sys)
    requires freshId !in S.Keys(sys.server)
    ensures Consistent(Add(sys, freshId, now, d))
  {
    var req := C.AddRequest(sys.client);
    if req.Some? && d.Delivered? {
      var reply := S.CreateTodo(sys.server, req.value, freshId, now);
      var c := C.AddTodo(sys.client, Receive(reply.response));
      var before := sys.client.todos;
      assert c.todos == before + [reply.response.body] by {
        assert c.todos[..|before|] == before;
      }
    }
  }

  lemma ToggleRefines(sys: System, id: string, completed: bool, d: Delivery)
    requires Consistent(sys)
    ensures Consistent(Toggle(sys, id, completed, d))
  {
    if d.Delivered? {
      var db := sys.server;
      var reply := S.UpdateTodo(db, id, C.ToggleRequest(completed));
      var c := C.ToggleTodo(sys.client, id, Receive(reply.response));
      if id in S.Keys(db) {
        forall i | 0 <= i < |db| ensures c.todos[i] == S.GetTodos(reply.store)[i] {
          assert sys.client.todos[i] == db[i].todo;
        }
      }
    }
  }

  lemma DeleteRefines(sys: System, id: string, d: Delivery)
    requires Consistent(sys)
    ensures Consistent(Delete(sys, id, d))
  {
    if d.Delivered? && id in S.Keys(sys.server) {
      var db := sys.server;
      assert S.DeleteTodo(db, id).store == Filter(S.KeyIsNot(id), db);
      assert C.DeleteTodo(sys.client, id, C.Ok(())).todos == Filter(C.IdIsNot(id), sys.client.todos);
      MapFilter(S.ValueOf, S.KeyIsNot(id), C.IdIsNot(id), db);
    }
  }

  lemma ClearCompletedRefines(sys: System, d: Delivery)
    requires Consistent(sys)
    ensures Consistent(ClearCompleted(sys, d))
  {
    if d.Delivered? {
      var db := sys.server;
      MapFilter(S.ValueOf, S.EntryActive, IsActive, db);
    }
  }

  /** A delivered toggle of the todo at position `j` rewrites that position on both sides and nothing else. */
  lemma ToggleAt(sys: System, j: int, completed: bool)
    requires Consistent(sys)
    requires 0 <= j < |sys.server|
    ensures
      var e := sys.server[j];
      var t := e.todo.(completed := !completed);
      var r := Toggle(sys, e.key, completed, Delivered);
      && r.server == sys.server[j := S.Entry(e.key, t)]
      && r.client.todos == sys.client.todos[j := t]
      && r.client.error == None
      && Consistent(r)
  {
    var db := sys.server;
    var e := db[j];
    var t := e.todo.(completed := !completed);
    assert e.key in S.Keys(db);
    S.LookupAt(db, j);
    var reply := S.UpdateTodo(db, e.key, C.ToggleRequest(completed));
    assert reply.response == S.Ok(t);
    forall i | 0 <= i < |db| ensures reply.store[i] == db[j := S.Entry(e.key, t)][i] {
      if i != j {
        assert db[i].key != e.key;
      }
    }
    assert reply.store == db[j := S.Entry(e.key, t)];
    var c := C.ToggleTodo(sys.client, e.key, C.Ok(t));
    forall i | 0 <= i < |db| ensures c.todos[i] == sys.client.todos[j := t][i] {
      assert sys.client.todos[i] == db[i].todo;
    }
    assert c.todos == sys.client.todos[j := t];
    ToggleRefines(sys, e.key, completed, Delivered);
  }

  /**
   Clicking the same checkbox twice, both requests delivered, puts the
   service and the client's list back where they were and leaves no error.
   */
  lemma ToggleTwiceRestores(sys: System, j: int)
    requires Consistent(sys)
    requires 0 <= j < |sys.client.todos|
    ensures
      var t := sys.client.todos[j];
      var once := Toggle(sys, t.id, t.completed, Delivered);
      var twice := Toggle(once, t.id, once.client.todos[j].completed, Delivered);
      && twice.server == sys.server
      && twice.client.todos == sys.client.todos
      && twice.client.error == None
  {
    var db := sys.server;
    var t := sys.client.todos[j];
    assert t == db[j].todo;
    ToggleAt(sys, j, t.completed);
    var once := Toggle(sys, t.id, t.completed, Delivered);
    ToggleAt(once, j, !t.completed);
    assert db[j := S.Entry(t.id, t.(completed := !t.completed))][j := S.Entry(t.id, t)] == db;
  }

  // ---------------------------------------------------------------------------
  // Whole sessions
  // ---------------------------------------------------------------------------

  /** One user action and the fate of its request. */
  datatype Action =
    | LoadAction(d: Delivery)
    | TypeAction(text: string)
    | AddAction(freshId: string, now: string, d: Delivery)
    | ToggleAction(id: string, completed: bool, d: Delivery)
    | DeleteAction(id: string, d: Delivery)
    | ClearAction(d: Delivery)

  /** The ids an action may add to the store. */
  function NewKeys(a: Action): set<string> {
    if a.AddAction? then {a.freshId} else {}
  }

  function Step(sys: System, a: Action): (r: System)
    requires a.AddAction? ==> a.freshId !in S.Keys(sys.server)
    ensures S.Keys(r.server) <= S.Keys(sys.server) + NewKeys(a)
  {
    match a
    case LoadAction(d) => Load(sys, d)
    case TypeAction(text) => sys.(client := C.SetInput(sys.client, text))
    case AddAction(freshId, now, d) => Add(sys, freshId, now, d)
    case ToggleAction(id, completed, d) => Toggle(sys, id, completed, d)
    case DeleteAction(id, d) => Delete(sys, id, d)
    case ClearAction(d) => ClearCompleted(sys, d)
  }

  /** Every id the service is asked to create is new: not in `used`, nor created earlier in `acts`. */
  predicate AddsFresh(used: set<string>, acts: seq<Action>)
    decreases |acts|
  {
    acts == [] ||
    ((acts[0].AddAction? ==> acts[0].freshId !in used) && AddsFresh(used + NewKeys(acts[0]), acts[1..]))
  }

  lemma {:induction false} AddsFreshSubset(used: set<string>, fewer: set<string>, acts: seq<Action>)
    requires fewer <= used
    requires AddsFresh(used, acts)
    ensures AddsFresh(fewer, acts)
    decreases |acts|
  {
    if acts != [] {
      AddsFreshSubset(used + NewKeys(acts[0]), fewer + NewKeys(acts[0]), acts[1..]);
    }
  }

  /** The ids a whole session may add to the store. */
  function SessionKeys(acts: seq<Action>): set<string>
    decreases |acts|
  {
    if acts == [] then {} else NewKeys(acts[0]) + SessionKeys(acts[1..])
  }

  /** Runs a session action by action. */
  function Run(sys: System, acts: seq<Action>): System
    requires AddsFresh(S.Keys(sys.server), acts)
    decreases |acts|
  {
    if acts == [] then sys
    else
      var next := Step(sys, acts[0]);
      AddsFreshSubset(S.Keys(sys.server) + NewKeys(acts[0]), S.Keys(next.server), acts[1..]);
      Run(next, acts[1..])
  }

  lemma StepRefines(sys: System, a: Action)
    requires Consistent(sys)
    requires a.AddAction? ==> a.freshId !in S.Keys(sys.server)
    ensures Consistent(Step(sys, a))
  {
    match a
    case LoadAction(d) => LoadSynchronizes(sys, d);
    case TypeAction(_) =>
    case AddAction(freshId, now, d) => AddRefines(sys, freshId, now, d);
    case ToggleAction(id, completed, d) => ToggleRefines(sys, id, completed, d);
    case DeleteAction(id, d) => DeleteRefines(sys, id, d);
    case ClearAction(d) => ClearCompletedRefines(sys, d);
  }

  /** Over a whole session the store gains no key other than the fresh ids of the session's adds. */
  lemma {:induction false} RunKeys(sys: System, acts: seq<Action>)
    requires AddsFresh(S.Keys(sys.server), acts)
    ensures S.Keys(Run(sys, acts).server) <= S.Keys(sys.server) + SessionKeys(acts)
    decreases |acts|
  {
    if acts != [] {
      var next := Step(sys, acts[0]);
      AddsFreshSubset(S.Keys(sys.server) + NewKeys(acts[0]), S.Keys(next.server), acts[1..]);
      RunKeys(next, acts[1..]);
    }
  }

  /**
   Over a whole session in which the service never reuses an id, a client
   whose list matched the service's listing keeps matching it after every
   action, whether each request is delivered, answered with 404 or lost.
   */
  lemma {:induction false} RunRefines(sys: System, acts: seq<Action>)
    requires Consistent(sys)
    requires AddsFresh(S.Keys(sys.server), acts)
    ensures Consistent(Run(sys, acts))
    decreases |acts|
  {
    if acts != [] {
      StepRefines(sys, acts[0]);
      var next := Step(sys, acts[0]);
      AddsFreshSubset(S.Keys(sys.server) + NewKeys(acts[0]), S.Keys(next.server), acts[1..]);
      RunRefines(next, acts[1..]);
    }
  }

  /** A fresh client next to an empty store starts out consistent, so every session from there stays so. */
  lemma FreshStartRefines(acts: seq<Action>)
    requires AddsFresh({}, acts)
    ensures Consistent(Run(System(C.Initial, []), acts))
  {
    var sys := System(C.Initial, []);
    assert S.Keys(sys.server) == {};
    RunRefines(sys, acts);
  }
}
