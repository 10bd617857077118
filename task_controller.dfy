/**
 * The request handlers of the task controller, as functions from the
 * collection before the request to the response and the collection after
 * it. The caller is the user id that the `protect` middleware has already
 * resolved; every task route runs behind it.
 *
 * Each record handler (get, update, delete, complete) runs the same guard
 * first: a missing id answers 404, and only then is the owner compared with
 * the caller, a mismatch answering 403. Only a request that passes both
 * reads or changes the collection.
 */
module TaskController {
  import opened Records
  import opened Listing

  /** The response a handler sends and the collection it leaves behind. */
  datatype Outcome = Outcome(response: Response, store: Store)

  /** Result of the ownership guard. */
  datatype Access = Granted(task: Task) | Denied(response: Response)

  /** The lookup-then-compare guard in front of every record handler. */
  function Authorize(s: Store, caller: UserId, id: TaskId): (a: Access)
    ensures a == Denied(NotFound) <==> id !in s
    ensures a == Denied(Forbidden) <==> id in s && s[id].userId != caller
    ensures a.Granted? <==> id in s && s[id].userId == caller
    ensures a.Granted? ==> a.task == s[id]
  {
    if id !in s then Denied(NotFound)
    else if s[id].userId != caller then Denied(Forbidden)
    else Granted(s[id])
  }

  /** `getAllTasks`: the caller's records, newest first. */
  ghost function GetAllTasks(s: Store, caller: UserId): (r: Response)
    ensures r.OkList?
    ensures forall t :: t in r.tasks <==> t in s.Values && t.userId == caller
    ensures |r.tasks| == |OwnedBy(s, caller)|
    ensures NewestFirstOrder(r.tasks) && Distinct(r.tasks)
  {
    OkList(NewestFirst(OwnedBy(s, caller)))
  }

  /** `getTask`: the record itself, once the guard lets the caller through. */
  function GetTask(s: Store, caller: UserId, id: TaskId): (r: Response)
    ensures r == NotFound <==> id !in s
    ensures r == Forbidden <==> id in s && s[id].userId != caller
    ensures r.Ok? <==> id in s && s[id].userId == caller
    ensures r.Ok? ==> r.task == s[id]
  {
    match Authorize(s, caller, id)
    case Denied(e) => e
    case Granted(t) => Ok(t)
  }

  /** `status || 'pending'`: an absent or empty status becomes "pending". */
  function StatusOrPending(given: Option<string>): (status: string)
    ensures status != ""
    ensures given.Some? && given.value != "" ==> status == given.value
    ensures given.None? || given.value == "" ==> status == "pending"
  {
    if given.Some? && given.value != "" then given.value else "pending"
  }

  /**
   * The document `Task.create` stores: the five body fields, with the
   * status defaulted, and the caller as owner whatever the body says.
   */
  function NewTask(caller: UserId, b: Body, id: TaskId, stamp: Stamp): (t: Task)
    ensures t.id == id && t.createdAt == stamp
    ensures t.userId == caller
    ensures t.title == b.title && t.description == b.description
    ensures t.dueDate == b.dueDate && t.priority == b.priority
    ensures t.status == StatusOrPending(b.status)
  {
    Task(id, b.title, b.description, b.dueDate, b.priority,
         StatusOrPending(b.status), caller, stamp)
  }

  /**
   * `createTask`. The store hands out an identifier no record has yet and
   * the creation stamp; both are inputs here.
   */
  function CreateTask(s: Store, caller: UserId, b: Body, id: TaskId, stamp: Stamp): (o: Outcome)
    requires id !in s
    ensures o.response.Created? && o.response.task == NewTask(caller, b, id, stamp)
    ensures o.store.Keys == s.Keys + {id}
    ensures o.store[id] == o.response.task
    ensures forall k :: k in s ==> o.store[k] == s[k]
    ensures WellKeyed(s) ==> WellKeyed(o.store)
  {
    var t := NewTask(caller, b, id, stamp);
    Outcome(Created(t), s[id := t])
  }

  /**
   * The record after `findByIdAndUpdate` with the request body: each field
   * present in the body overwrites the stored one, including the owner;
   * every absent field keeps its stored value.
   */
  function Patched(t: Task, b: Body): (u: Task)
    ensures u.id == t.id && u.createdAt == t.createdAt
  {
    t.(title := if b.title.Some? then b.title else t.title,
       description := if b.description.Some? then b.description else t.description,
       dueDate := if b.dueDate.Some? then b.dueDate else t.dueDate,
       priority := if b.priority.Some? then b.priority else t.priority,
       status := if b.status.Some? then b.status.value else t.status,
       userId := if b.userId.Some? then b.userId.value else t.userId)
  }

  /** `updateTask`: the guard, then the patch of that one record. */
  function UpdateTask(s: Store, caller: UserId, id: TaskId, b: Body): (o: Outcome)
    ensures id !in s ==> o == Outcome(NotFound, s)
    ensures id in s && s[id].userId != caller ==> o == Outcome(Forbidden, s)
    ensures id in s && s[id].userId == caller ==>
      o.response == Ok(Patched(s[id], b)) && o.store.Keys == s.Keys &&
      o.store[id] == Patched(s[id], b) &&
      forall k :: k in s && k != id ==> o.store[k] == s[k]
    ensures WellKeyed(s) ==> WellKeyed(o.store)
  {
    match Authorize(s, caller, id)
    case Denied(e) => Outcome(e, s)
    case Granted(t) =>
      var u := Patched(t, b);
      Outcome(Ok(u), s[id := u])
  }

  /** `deleteTask`: the guard, then a hard delete of that one record. */
  function DeleteTask(s: Store, caller: UserId, id: TaskId): (o: Outcome)
    ensures id !in s ==> o == Outcome(NotFound, s)
    ensures id in s && s[id].userId != caller ==> o == Outcome(Forbidden, s)
    ensures id in s && s[id].userId == caller ==>
      o.response == Deleted && o.store.Keys == s.Keys - {id} &&
      forall k :: k in o.store ==> o.store[k] == s[k]
    ensures WellKeyed(s) ==> WellKeyed(o.store)
  {
    match Authorize(s, caller, id)
    case Denied(e) => Outcome(e, s)
    case Granted(_) => Outcome(Deleted, s - {id})
  }

  /** The record after `task.status = 'completed'`. */
  function Completed(t: Task): (u: Task)
    ensures u.status == "completed"
    ensures u == t.(status := u.status)
  {
    t.(status := "completed")
  }

  /** `markComplete`: the guard, then only the status of that one record. */
  function MarkComplete(s: Store, caller: UserId, id: TaskId): (o: Outcome)
    ensures id !in s ==> o == Outcome(NotFound, s)
    ensures id in s && s[id].userId != caller ==> o == Outcome(Forbidden, s)
    ensures id in s && s[id].userId == caller ==>
      o.response == Ok(Completed(s[id])) && o.store.Keys == s.Keys &&
      o.store[id] == Completed(s[id]) &&
      forall k :: k in s && k != id ==> o.store[k] == s[k]
    ensures WellKeyed(s) ==> WellKeyed(o.store)
  {
    match Authorize(s, caller, id)
    case Denied(e) => Outcome(e, s)
    case Granted(t) =>
      var u := Completed(t);
      Outcome(Ok(u), s[id := u])
  }
}
