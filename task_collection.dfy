/**
 * The task collection as the handlers use it: one mutable map from task id
 * to record, changed in place by `Task.create`, `findByIdAndUpdate`,
 * `findByIdAndDelete` and `task.save()`. Each state-changing handler is a
 * method that looks the record up, runs the ownership guard and only then
 * writes; its contract ties the response and the new collection to the
 * handler function of the same name in `TaskController`.
 */
module TaskCollection {
  import opened Records
  import TaskController

  class Collection {
    var tasks: Store

    /** Every record is stored under its own id. */
    ghost predicate Valid()
      reads this
    {
      WellKeyed(tasks)
    }

    constructor ()
      ensures Valid() && tasks == map[]
    {
      tasks := map[];
    }

    /** `createTask`: insert the new record under the id the store assigned. */
    method CreateTask(caller: UserId, body: Body, id: TaskId, stamp: Stamp) returns (r: Response)
      requires Valid() && id !in tasks
      modifies this
      ensures Valid()
      ensures TaskController.Outcome(r, tasks) == TaskController.CreateTask(old(tasks), caller, body, id, stamp)
      ensures r.Created? && r.task.userId == caller && id in tasks && tasks[id] == r.task
    {
      var t := TaskController.NewTask(caller, body, id, stamp);
      tasks := tasks[id := t];
      r := Created(t);
    }

    /** `updateTask`: guard, then overwrite the fields present in the body. */
    method UpdateTask(caller: UserId, id: TaskId, body: Body) returns (r: Response)
      requires Valid()
      modifies this
      ensures Valid()
      ensures TaskController.Outcome(r, tasks) == TaskController.UpdateTask(old(tasks), caller, id, body)
      ensures r in {NotFound, Forbidden} ==> tasks == old(tasks)
    {
      if id !in tasks {
        return NotFound;
      }
      var task := tasks[id];
      if task.userId != caller {
        return Forbidden;
      }
      var updated := task;
      if body.title.Some? { updated := updated.(title := body.title); }
      if body.description.Some? { updated := updated.(description := body.description); }
      if body.dueDate.Some? { updated := updated.(dueDate := body.dueDate); }
      if body.priority.Some? { updated := updated.(priority := body.priority); }
      if body.status.Some? { updated := updated.(status := body.status.value); }
      if body.userId.Some? { updated := updated.(userId := body.userId.value); }
      tasks := tasks[id := updated];
      r := Ok(updated);
    }

    /** `deleteTask`: guard, then remove exactly that record. */
    method DeleteTask(caller: UserId, id: TaskId) returns (r: Response)
      requires Valid()
      modifies this
      ensures Valid()
      ensures TaskController.Outcome(r, tasks) == TaskController.DeleteTask(old(tasks), caller, id)
      ensures r == Deleted ==> id !in tasks
      ensures r in {NotFound, Forbidden} ==> tasks == old(tasks)
    {
      if id !in tasks {
        return NotFound;
      }
      var task := tasks[id];
      if task.userId != caller {
        return Forbidden;
      }
      tasks := tasks - {id};
      r := Deleted;
    }

    /** `markComplete`: guard, then set the status and save the record. */
    method MarkComplete(caller: UserId, id: TaskId) returns (r: Response)
      requires Valid()
      modifies this
      ensures Valid()
      ensures TaskController.Outcome(r, tasks) == TaskController.MarkComplete(old(tasks), caller, id)
      ensures r.Ok? ==> r.task.status == "completed" && tasks[id] == r.task
      ensures r in {NotFound, Forbidden} ==> tasks == old(tasks)
    {
      if id !in tasks {
        return NotFound;
      }
      var task := tasks[id];
      if task.userId != caller {
        return Forbidden;
      }
      task := task.(status := "completed");
      tasks := tasks[id := task];
      r := Ok(task);
    }
  }
}
