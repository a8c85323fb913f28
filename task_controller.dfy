/**
 * The mutating handlers of backend/controllers/task.ts as written: guards
 * with early returns, then an in-place change of the task table. Every
 * method is proved to agree with the matching function of TaskSpec.
 */
module TaskController {
  import opened Wrappers
  import opened Tasks
  import opened TaskSpec

  class TaskTable {
    var rows: seq<Task>
    var nextId: nat

    function State(): TaskDb
      reads this
    {
      TaskDb(rows, nextId)
    }

    ghost predicate Invariant()
      reads this
    {
      Valid(State())
    }

    constructor ()
      ensures Invariant()
      ensures State() == TaskDb([], 1)
    {
      rows := [];
      nextId := 1;
    }

    method CreateTask(caller: nat, title: string, description: Option<string>, now: int) returns (reply: Reply)
      requires Invariant()
      modifies this
      ensures Invariant()
      ensures Outcome(State(), reply) == TaskSpec.CreateTask(old(State()), caller, title, description, now)
    {
      if title == "" {
        return Reply(400, Message(TitleRequired));
      }
      var task := Task(nextId, title, description, Pending, caller, now);
      rows := rows + [task];
      nextId := nextId + 1;
      return Reply(201, WithTask(TaskCreated, task));
    }

    method UpdateTask(
      id: Option<int>, title: Option<string>, description: Option<Option<string>>, status: Option<string>
    ) returns (reply: Reply)
      requires Invariant()
      modifies this
      ensures Invariant()
      ensures Outcome(State(), reply) == TaskSpec.UpdateTask(old(State()), id, title, description, status)
    {
      if id.None? {
        return Reply(400, Message(InvalidTaskId));
      }
      var existing := IndexOf(rows, id.value);
      if existing.None? {
        return Reply(404, Message(TaskNotFound));
      }
      var updated := Patch(rows[existing.value], title, description, status);
      rows := rows[existing.value := updated];
      return Reply(200, WithTask(TaskUpdated, updated));
    }

    method DeleteTask(caller: nat, id: int) returns (reply: Reply)
      requires Invariant()
      modifies this
      ensures Invariant()
      ensures Outcome(State(), reply) == TaskSpec.DeleteTask(old(State()), caller, id)
    {
      var owned := IndexOfOwned(rows, id, caller);
      if owned.None? {
        return Reply(404, Message(TaskNotFound));
      }
      rows := Without(rows, id);
      return Reply(200, Message(TaskDeleted));
    }

    method ToggleTaskStatus(id: Option<int>) returns (reply: Reply)
      requires Invariant()
      modifies this
      ensures Invariant()
      ensures Outcome(State(), reply) == TaskSpec.ToggleTaskStatus(old(State()), id)
    {
      if id.None? {
        return Reply(400, Message(InvalidTaskId));
      }
      var existing := IndexOf(rows, id.value);
      if existing.None? {
        return Reply(404, Message(TaskNotFound));
      }
      var task := rows[existing.value];
      var newStatus := if task.status == Pending then Completed else Pending;
      var updated := task.(status := newStatus);
      rows := rows[existing.value := updated];
      return Reply(200, WithTask(StatusToggled, updated));
    }
  }
}
