/**
 * Properties of the task handlers that relate several calls: deletion is
 * owner-scoped and removes one row, toggling twice restores a row, an
 * empty update is a no-op, and a created task shows up in its owner's
 * listing.
 */
module TaskProperties {
  import opened Wrappers
  import opened Tasks
  import opened TaskSpec

  /** In a valid table, a successful delete removes exactly one row. */
  lemma DeleteRemovesOneRow(db: TaskDb, caller: nat, id: int)
    requires Valid(db) && OwnsTask(db, caller, id)
    ensures |DeleteTask(db, caller, id).db.rows| == |db.rows| - 1
  {
    var i :| 0 <= i < |db.rows| && db.rows[i].id == id && db.rows[i].userId == caller;
    WithoutRemovesOne(db.rows, id, i);
  }

  /** A task owned by someone else cannot be deleted: the reply is 404 and nothing changes. */
  lemma DeleteRefusedForOtherOwner(db: TaskDb, caller: nat, k: nat)
    requires Valid(db) && k < |db.rows| && db.rows[k].userId != caller
    ensures DeleteTask(db, caller, db.rows[k].id) == Outcome(db, Reply(404, Message(TaskNotFound)))
  {
  }

  /** A second delete of the same id finds nothing. */
  lemma DeleteTwiceNotFound(db: TaskDb, caller: nat, id: int)
    ensures DeleteTask(DeleteTask(db, caller, id).db, caller, id).reply == Reply(404, Message(TaskNotFound))
  {
  }

  /** An update that names no field leaves the table unchanged. */
  lemma EmptyUpdateChangesNothing(db: TaskDb, id: int)
    ensures UpdateTask(db, Some(id), None, None, None).db == db
  {
    var o := UpdateTask(db, Some(id), None, None, None);
    if o.reply.status == 200 {
      var i :| 0 <= i < |db.rows| && db.rows[i].id == id
        && o.db == TaskDb(db.rows[i := Patch(db.rows[i], None, None, None)], db.nextId);
      EmptyPatchIsIdentity(db.rows[i]);
      assert db.rows[i := db.rows[i]] == db.rows;
    }
  }

  /** In a valid table, at most one position holds a given id. */
  lemma PositionOfId(db: TaskDb, i: nat, j: nat)
    requires Valid(db) && i < |db.rows| && j < |db.rows| && db.rows[i].id == db.rows[j].id
    ensures i == j
  {
  }

  /** With unique ids, toggling the id of row `k` toggles exactly row `k`. */
  lemma ToggleAtRow(db: TaskDb, k: nat)
    requires Valid(db) && k < |db.rows|
    ensures ToggleTaskStatus(db, Some(db.rows[k].id)).db
      == TaskDb(db.rows[k := db.rows[k].(status := Toggled(db.rows[k].status))], db.nextId)
  {
    var id := db.rows[k].id;
    assert HasTask(db, id);
    var i :| 0 <= i < |db.rows| && db.rows[i].id == id
      && ToggleTaskStatus(db, Some(id)).db == TaskDb(db.rows[i := db.rows[i].(status := Toggled(db.rows[i].status))], db.nextId);
    PositionOfId(db, i, k);
  }

  /** Toggling a "pending" or "completed" task twice restores the table. */
  lemma ToggleTwiceRestores(db: TaskDb, k: nat)
    requires Valid(db) && k < |db.rows|
    requires db.rows[k].status == Pending || db.rows[k].status == Completed
    ensures ToggleTaskStatus(ToggleTaskStatus(db, Some(db.rows[k].id)).db, Some(db.rows[k].id)).db == db
  {
    var once := ToggleTaskStatus(db, Some(db.rows[k].id)).db;
    ToggleAtRow(db, k);
    assert once.rows[k].id == db.rows[k].id;
    ToggleAtRow(once, k);
    ToggleIsInvolution(db.rows[k].status);
    assert once.rows[k := once.rows[k].(status := Toggled(once.rows[k].status))] == db.rows;
  }

  /**
   * A task just created by `caller` is listed on one of the pages of the
   * caller's unfiltered listing.
   */
  lemma CreatedTaskIsListed(
    db: TaskDb, caller: nat, title: string, description: Option<string>, now: int, q: Query
  )
    requires title != "" && WellFormed(q) && q.status == "" && q.search == ""
    ensures
      var o := CreateTask(db, caller, title, description, now);
      exists p ::
        && 1 <= p <= GetTasks(o.db.rows, caller, q).totalPages
        && o.reply.body.task in GetTasks(o.db.rows, caller, q.(page := Some(p))).tasks
  {
    var o := CreateTask(db, caller, title, description, now);
    var task := o.reply.body.task;
    assert task in o.db.rows;
    EverySelectedRowIsListed(o.db.rows, caller, q, task);
  }
}
