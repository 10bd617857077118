/**
 * The values the task controller works on: task records, request bodies,
 * and the responses a handler sends back.
 *
 * Identifiers are modelled by their string form. The ownership guard
 * compares `task.userId.toString()` with `req.user._id.toString()`, so two
 * ids are the same owner exactly when their strings are equal.
 */
module Records {

  datatype Option<T> = None | Some(value: T)

  /** String form of a user's identifier (the `_id` resolved by `protect`). */
  type UserId = string

  /** String form of a task's identifier (the `:id` route parameter). */
  type TaskId = string

  /** Abstract, ordered creation stamp assigned by the store on insert. */
  type Stamp = nat

  /**
   * A stored task document. Title, description, due date and priority are
   * whatever the client sent (absent when it sent nothing); the due date is
   * kept as an opaque value and never parsed.
   */
  datatype Task = Task(
    id: TaskId,
    title: Option<string>,
    description: Option<string>,
    dueDate: Option<string>,
    priority: Option<string>,
    status: string,
    userId: UserId,
    createdAt: Stamp)

  /**
   * A JSON request body: each field is either present with a value or
   * absent. `createTask` reads the first five; `updateTask` hands the whole
   * body to the store, so a present `userId` is applied as well.
   */
  datatype Body = Body(
    title: Option<string>,
    description: Option<string>,
    dueDate: Option<string>,
    priority: Option<string>,
    status: Option<string>,
    userId: Option<UserId>)

  /** What a handler answers. */
  datatype Response =
    | Ok(task: Task)            // 200 with the record
    | OkList(tasks: seq<Task>)  // 200 with an array of records
    | Created(task: Task)       // 201 with the new record
    | Deleted                   // 200 with { success: true }
    | NotFound                  // 404
    | Forbidden                 // 403

  /** The HTTP status line of a response. */
  function StatusCode(r: Response): (code: int)
    ensures code in {200, 201, 403, 404}
    ensures code == 404 <==> r == NotFound
    ensures code == 403 <==> r == Forbidden
    ensures code == 201 <==> r.Created?
  {
    match r
    case Ok(_) => 200
    case OkList(_) => 200
    case Created(_) => 201
    case Deleted => 200
    case NotFound => 404
    case Forbidden => 403
  }

  /** The task collection: records keyed by their id. */
  type Store = map<TaskId, Task>

  /** Every record is stored under its own id. */
  ghost predicate WellKeyed(s: Store)
  {
    forall id :: id in s ==> s[id].id == id
  }
}
