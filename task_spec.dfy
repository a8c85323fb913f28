/**
 * The four mutating handlers of backend/controllers/task.ts as functions
 * from the task table to the new table and the HTTP reply. Prisma's
 * autoincrement ids are drawn from `nextId`; `now` is the `createdAt` the
 * database stamps on a new row.
 */
module TaskSpec {
  import opened Wrappers
  import opened Tasks

  datatype TaskDb = TaskDb(rows: seq<Task>, nextId: nat)

  /** Ids are positive, unique and below `nextId`. */
  ghost predicate Valid(db: TaskDb)
  {
    && 1 <= db.nextId
    && (forall i :: 0 <= i < |db.rows| ==> 1 <= db.rows[i].id < db.nextId)
    && UniqueIds(db.rows)
  }

  datatype Body =
    | Message(message: string)
    | WithTask(message: string, task: Task)

  datatype Reply = Reply(status: int, body: Body)

  datatype Outcome = Outcome(db: TaskDb, reply: Reply)

  const TitleRequired := "Title is required"
  const TaskCreated := "Task created"
  const InvalidTaskId := "Invalid task ID"
  const TaskNotFound := "Task not found"
  const TaskUpdated := "Task updated successfully"
  const TaskDeleted := "Task deleted successfully"
  const StatusToggled := "Task status toggled"

  /** Some row has this id. */
  predicate HasTask(db: TaskDb, id: int)
  {
    exists i :: 0 <= i < |db.rows| && db.rows[i].id == id
  }

  /** Some row has this id and belongs to `caller`. */
  predicate OwnsTask(db: TaskDb, caller: nat, id: int)
  {
    exists i :: 0 <= i < |db.rows| && db.rows[i].id == id && db.rows[i].userId == caller
  }

  /**
   * `prisma.task.findFirst({ where: { id, userId } })`: the position of the
   * row with this id owned by `caller`, if any.
   */
  function IndexOfOwned(rows: seq<Task>, id: int, caller: nat): (r: Option<nat>)
    ensures r.Some? ==> r.value < |rows| && rows[r.value].id == id && rows[r.value].userId == caller
    ensures r.None? ==> forall i :: 0 <= i < |rows| ==> !(rows[i].id == id && rows[i].userId == caller)
  {
    if rows == [] then None
    else if rows[0].id == id && rows[0].userId == caller then Some(0)
    else match IndexOfOwned(rows[1..], id, caller)
      case None => None
      case Some(k) => Some(k + 1)
  }

  /**
   * `createTask` for the authenticated `caller`: a missing title is refused;
   * otherwise one row is appended, owned by the caller, with the default
   * status "pending".
   */
  function CreateTask(db: TaskDb, caller: nat, title: string, description: Option<string>, now: int): (o: Outcome)
    ensures Valid(db) ==> Valid(o.db)
    ensures title == "" ==> o == Outcome(db, Reply(400, Message(TitleRequired)))
    ensures title != "" ==>
      && o.reply.status == 201
      && o.reply.body.WithTask?
      && o.reply.body.message == TaskCreated
      && o.db.rows == db.rows + [o.reply.body.task]
      && o.db.nextId == db.nextId + 1
      && o.reply.body.task.title == title
      && o.reply.body.task.description == description
      && o.reply.body.task.status == Pending
      && o.reply.body.task.userId == caller
      && o.reply.body.task.createdAt == now
    ensures title != "" && Valid(db) ==> !HasTask(db, o.reply.body.task.id)
  {
    if title == "" then
      Outcome(db, Reply(400, Message(TitleRequired)))
    else
      var task := Task(db.nextId, title, description, Pending, caller, now);
      Outcome(TaskDb(db.rows + [task], db.nextId + 1), Reply(201, WithTask(TaskCreated, task)))
  }

  /**
   * `updateTask`: a non-numeric id (`None`) gives 400, an absent id 404, and
   * otherwise the named fields of that row change. Any caller may update any
   * task: the handler performs no owner check.
   */
  function UpdateTask(
    db: TaskDb, id: Option<int>, title: Option<string>, description: Option<Option<string>>, status: Option<string>
  ): (o: Outcome)
    ensures Valid(db) ==> Valid(o.db)
    ensures id.None? ==> o == Outcome(db, Reply(400, Message(InvalidTaskId)))
    ensures id.Some? && !HasTask(db, id.value) ==> o == Outcome(db, Reply(404, Message(TaskNotFound)))
    ensures o.reply.status == 200 <==> id.Some? && HasTask(db, id.value)
    ensures o.reply.status == 200 ==>
      exists i :: 0 <= i < |db.rows| && db.rows[i].id == id.value
        && o.db == TaskDb(db.rows[i := Patch(db.rows[i], title, description, status)], db.nextId)
        && o.reply.body == WithTask(TaskUpdated, o.db.rows[i])
  {
    if id.None? then
      Outcome(db, Reply(400, Message(InvalidTaskId)))
    else match IndexOf(db.rows, id.value)
      case None => Outcome(db, Reply(404, Message(TaskNotFound)))
      case Some(i) =>
        var updated := Patch(db.rows[i], title, description, status);
        var rows := db.rows[i := updated];
        assert forall j :: 0 <= j < |rows| ==> rows[j].id == db.rows[j].id;
        Outcome(TaskDb(rows, db.nextId), Reply(200, WithTask(TaskUpdated, updated)))
  }

  /**
   * `deleteTask` for the authenticated `caller`: the row is removed only when
   * both its id and its owner match; otherwise nothing changes and the reply
   * is 404.
   */
  function DeleteTask(db: TaskDb, caller: nat, id: int): (o: Outcome)
    ensures Valid(db) ==> Valid(o.db)
    ensures o.reply.status == 200 <==> OwnsTask(db, caller, id)
    ensures !OwnsTask(db, caller, id) ==> o == Outcome(db, Reply(404, Message(TaskNotFound)))
    ensures OwnsTask(db, caller, id) ==>
      && o.reply == Reply(200, Message(TaskDeleted))
      && o.db.nextId == db.nextId
      && (forall t :: t in o.db.rows <==> t in db.rows && t.id != id)
  {
    match IndexOfOwned(db.rows, id, caller)
    case None => Outcome(db, Reply(404, Message(TaskNotFound)))
    case Some(i) =>
      var rows := Without(db.rows, id);
      Outcome(TaskDb(rows, db.nextId), Reply(200, Message(TaskDeleted)))
  }

  /**
   * `toggleTaskStatus`: a non-numeric id gives 400, an absent id 404, and
   * otherwise that row's status flips; no owner check.
   */
  function ToggleTaskStatus(db: TaskDb, id: Option<int>): (o: Outcome)
    ensures Valid(db) ==> Valid(o.db)
    ensures id.None? ==> o == Outcome(db, Reply(400, Message(InvalidTaskId)))
    ensures id.Some? && !HasTask(db, id.value) ==> o == Outcome(db, Reply(404, Message(TaskNotFound)))
    ensures o.reply.status == 200 <==> id.Some? && HasTask(db, id.value)
    ensures o.reply.status == 200 ==>
      exists i :: 0 <= i < |db.rows| && db.rows[i].id == id.value
        && o.db == TaskDb(db.rows[i := db.rows[i].(status := Toggled(db.rows[i].status))], db.nextId)
        && o.reply.body == WithTask(StatusToggled, o.db.rows[i])
  {
    if id.None? then
      Outcome(db, Reply(400, Message(InvalidTaskId)))
    else match IndexOf(db.rows, id.value)
      case None => Outcome(db, Reply(404, Message(TaskNotFound)))
      case Some(i) =>
        var updated := db.rows[i].(status := Toggled(db.rows[i].status));
        var rows := db.rows[i := updated];
        assert forall j :: 0 <= j < |rows| ==> rows[j].id == db.rows[j].id;
        Outcome(TaskDb(rows, db.nextId), Reply(200, WithTask(StatusToggled, updated)))
  }
}
