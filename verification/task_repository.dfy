/** The task repository (`PostgresTaskRepository`): task and subtask
    persistence over the `tasks` and `subtasks` tables. Each method takes a
    `fault` argument standing for the outcome of its database call: `Some(e)`
    makes that call fail with the driver error `e`. */
module Repository {
  import opened Wrappers
  import opened CivilTime
  import opened Domain
  import opened Storage
  import opened Collections

  /** The priority `Create` stores: "medium" when none was given. */
  function DefaultPriority(priority: string): (p: string)
    ensures p != ""
    ensures priority != "" ==> p == priority
    ensures priority == "" ==> p == "medium"
  {
    if priority == "" then "medium" else priority
  }

  /** A `tasks` row as `GetByID` and `Fetch` read it: a NULL description and a
      NULL recurrence pattern read as "", a NULL priority as "medium". The
      row's subtasks are not part of it. */
  function ReadTask(id: int, row: TaskRow): (t: Task)
    ensures t.id == id && t.subtasks == []
    ensures row.description.None? ==> t.description == ""
    ensures row.priority.None? ==> t.priority == "medium"
    ensures row.recurrencePattern.None? ==> t.recurrencePattern == ""
    ensures HasNoNulls(row) ==> && Some(t.description) == row.description
                                && Some(t.priority) == row.priority
                                && Some(t.recurrencePattern) == row.recurrencePattern
  {
    Task(id, row.userId, row.title, row.description.GetOr(""), row.status,
         row.priority.GetOr("medium"), row.labels, row.reminderTime,
         row.recurrencePattern.GetOr(""), row.nextRun, [], row.createdAt, row.updatedAt)
  }

  /** The row `Create` inserts for a task: every column from the struct, so
      reading it back gives the same task. */
  function InsertedRow(t: Task): (row: TaskRow)
    ensures forall id :: ReadTask(id, row) == t.(id := id, subtasks := [])
  {
    TaskRow(t.userId, t.title, Some(t.description), t.status, Some(t.priority), t.labels,
            t.reminderTime, Some(t.recurrencePattern), t.nextRun, t.createdAt, t.updatedAt)
  }

  /** The row after `Update` writes task `t` over `row`: the listed columns
      take `t`'s values, `user_id` and `created_at` keep the row's. */
  function UpdatedRow(row: TaskRow, t: Task): (r: TaskRow)
    ensures r.userId == row.userId && r.createdAt == row.createdAt
    ensures forall id ::
      ReadTask(id, r) == t.(id := id, userId := row.userId, createdAt := row.createdAt, subtasks := [])
  {
    row.(title := t.title, description := Some(t.description), status := t.status,
         priority := Some(t.priority), labels := t.labels, reminderTime := t.reminderTime,
         recurrencePattern := Some(t.recurrencePattern), nextRun := t.nextRun,
         updatedAt := t.updatedAt)
  }

  /** No column that the readers coalesce holds NULL. */
  predicate HasNoNulls(row: TaskRow) {
    row.description.Some? && row.priority.Some? && row.recurrencePattern.Some?
  }

  /** Reading a row and writing it back unchanged leaves a NULL-free row as it
      was; a NULL description, priority or recurrence pattern is replaced by
      the value it was read as. */
  lemma ReadThenWriteBack(id: int, row: TaskRow)
    ensures HasNoNulls(UpdatedRow(row, ReadTask(id, row)))
    ensures HasNoNulls(row) <==> UpdatedRow(row, ReadTask(id, row)) == row
  {
    if !HasNoNulls(row) {
      assert UpdatedRow(row, ReadTask(id, row)) != row by {
        assert HasNoNulls(UpdatedRow(row, ReadTask(id, row)));
      }
    }
  }

  /** The subtask record a `Fetch` reports for a `subtasks` row: the JSON it
      builds carries no creation time, so that field is Go's zero time. */
  function ReadSubtask(id: int, row: SubtaskRow): Subtask {
    Subtask(id, row.taskId, row.title, row.isDone, ZeroTime)
  }

  function OwnedBy(tasks: map<int, TaskRow>, userId: int): set<int> {
    set id | id in tasks && tasks[id].userId == userId
  }

  function SubtaskIdsOf(subtasks: map<int, SubtaskRow>, taskId: int): set<int> {
    set id | id in subtasks && subtasks[id].taskId == taskId
  }

  function TaskIds(ts: seq<Task>): set<int> {
    set t | t in ts :: t.id
  }

  function SubtaskIds(subs: seq<Subtask>): set<int> {
    set s | s in subs :: s.id
  }

  /** `subs` lists the subtasks with keys `ids`, each once, in some order. */
  predicate ListsSubtasks(subs: seq<Subtask>, ids: set<int>, subtasks: map<int, SubtaskRow>) {
    && SubtaskIds(subs) == ids
    && (forall k, l :: 0 <= k < l < |subs| ==> subs[k].id != subs[l].id)
    && (forall k :: 0 <= k < |subs| ==>
          subs[k].id in subtasks && subs[k] == ReadSubtask(subs[k].id, subtasks[subs[k].id]))
  }

  /** Newest first: creation times never increase along the list. */
  predicate NewestFirst(ts: seq<Task>) {
    forall i, j :: 0 <= i < j < |ts| ==> NotAfter(ts[j].createdAt, ts[i].createdAt)
  }

  /** Each entry of `ts` is a different task of `tasks`, as read, with its
      own subtasks. */
  predicate ListsTasks(ts: seq<Task>, tasks: map<int, TaskRow>, subtasks: map<int, SubtaskRow>) {
    && (forall i, j :: 0 <= i < j < |ts| ==> ts[i].id != ts[j].id)
    && (forall i :: 0 <= i < |ts| ==>
          && ts[i].id in tasks
          && ts[i] == ReadTask(ts[i].id, tasks[ts[i].id]).(subtasks := ts[i].subtasks)
          && ListsSubtasks(ts[i].subtasks, SubtaskIdsOf(subtasks, ts[i].id), subtasks))
  }

  /** `ts` is what `Fetch(userId)` may return: every task owned by `userId`
      exactly once, as read, with its own subtasks, newest first. */
  predicate IsListing(ts: seq<Task>, userId: int, tasks: map<int, TaskRow>,
                      subtasks: map<int, SubtaskRow>) {
    && TaskIds(ts) == OwnedBy(tasks, userId)
    && ListsTasks(ts, tasks, subtasks)
    && NewestFirst(ts)
  }

  /** No task in `ts` was created before a task of `ids`. */
  predicate NoneNewerIn(ts: seq<Task>, ids: set<int>, tasks: map<int, TaskRow>) {
    forall i, id :: 0 <= i < |ts| && id in ids && id in tasks ==>
      NotAfter(tasks[id].createdAt, ts[i].createdAt)
  }

  /** One step of `Fetch`'s loop: appending the newest of the remaining
      tasks keeps the listing duplicate-free and newest first. */
  lemma ListingStep(ts: seq<Task>, t: Task, remaining: set<int>,
                    tasks: map<int, TaskRow>, subtasks: map<int, SubtaskRow>)
    requires ListsTasks(ts, tasks, subtasks) && NewestFirst(ts) && NoneNewerIn(ts, remaining, tasks)
    requires TaskIds(ts) !! remaining
    requires IsNewest(t.id, remaining, tasks)
    requires t == ReadTask(t.id, tasks[t.id]).(subtasks := t.subtasks)
    requires ListsSubtasks(t.subtasks, SubtaskIdsOf(subtasks, t.id), subtasks)
    ensures ListsTasks(ts + [t], tasks, subtasks) && NewestFirst(ts + [t])
    ensures NoneNewerIn(ts + [t], remaining - {t.id}, tasks)
    ensures TaskIds(ts + [t]) == TaskIds(ts) + {t.id}
  {
    assert t.id !in TaskIds(ts);
    assert forall i :: 0 <= i < |ts| ==> ts[i] in ts;
    assert TaskIds(ts + [t]) == TaskIds(ts) + {t.id};
  }

  /** `id` is a task of `ids` that no other task of `ids` was created after. */
  predicate IsNewest(id: int, ids: set<int>, tasks: map<int, TaskRow>) {
    && id in ids && id in tasks
    && forall j :: j in ids && j in tasks ==> NotAfter(tasks[j].createdAt, tasks[id].createdAt)
  }

  lemma {:induction false} NewestExists(ids: set<int>, tasks: map<int, TaskRow>)
    requires ids != {} && ids <= tasks.Keys
    ensures exists id :: IsNewest(id, ids, tasks)
    decreases ids
  {
    NonEmptyHasMember(ids);
    var x :| x in ids;
    if ids != {x} {
      var rest := ids - {x};
      NewestExists(rest, tasks);
      var m :| IsNewest(m, rest, tasks);
      if Before(tasks[m].createdAt, tasks[x].createdAt) {
        forall j | j in ids && j in tasks
          ensures NotAfter(tasks[j].createdAt, tasks[x].createdAt)
        {
          BeforeIsStrictTotalOrder(tasks[m].createdAt, tasks[x].createdAt, tasks[j].createdAt);
          BeforeIsStrictTotalOrder(tasks[x].createdAt, tasks[j].createdAt, tasks[m].createdAt);
        }
        assert IsNewest(x, ids, tasks);
      } else {
        assert IsNewest(m, ids, tasks);
      }
    } else {
      BeforeIsStrictTotalOrder(tasks[x].createdAt, tasks[x].createdAt, tasks[x].createdAt);
      assert IsNewest(x, ids, tasks);
    }
  }

  /** The repository over one database. */
  class TaskRepository {
    const db: Database

    constructor (db: Database)
      ensures this.db == db
    {
      this.db := db;
    }

    /** `Create`: an empty priority becomes "medium" before the insert, and
        on success the new row's key is written back into the task. */
    method Create(task: Task, fault: Option<string>) returns (t: Task, err: Option<Error>)
      requires db.Valid()
      modifies db
      ensures db.Valid()
      ensures t.priority == DefaultPriority(task.priority)
      ensures t == task.(priority := t.priority, id := t.id)
      ensures fault.Some? ==> err == Some(Db(fault.value)) && t.id == task.id && unchanged(db)
      ensures fault.None? ==> && err == None
                              && t.id !in old(db.tasks)
                              && db.tasks == old(db.tasks)[t.id := InsertedRow(t)]
                              && db.subtasks == old(db.subtasks)
    {
      t := task;
      if t.priority == "" {
        t := t.(priority := "medium");
      }
      if fault.Some? {
        return t, Some(Db(fault.value));
      }
      var id := db.InsertTask(InsertedRow(t));
      t := t.(id := id);
      err := None;
    }

    /** `CreateSubtask`: the subtask is stored with creation time `now` and
        its new key is written back. */
    method CreateSubtask(sub: Subtask, now: Instant, fault: Option<string>)
      returns (s: Subtask, err: Option<Error>)
      requires db.Valid()
      modifies db
      ensures db.Valid()
      ensures s == sub.(id := s.id)
      ensures fault.Some? ==> err == Some(Db(fault.value)) && s == sub && unchanged(db)
      ensures fault.None? ==> && err == None
                              && s.id !in old(db.subtasks)
                              && db.subtasks == old(db.subtasks)[s.id := SubtaskRow(sub.taskId, sub.title, sub.isDone, now)]
                              && db.tasks == old(db.tasks)
    {
      if fault.Some? {
        return sub, Some(Db(fault.value));
      }
      var id := db.InsertSubtask(SubtaskRow(sub.taskId, sub.title, sub.isDone, now));
      s := sub.(id := id);
      err := None;
    }

    /** `DeleteSubtask`: removes that subtask if it exists; a missing key is
        not an error. */
    method DeleteSubtask(id: int, fault: Option<string>) returns (err: Option<Error>)
      requires db.Valid()
      modifies db
      ensures db.Valid()
      ensures fault.Some? ==> err == Some(Db(fault.value)) && unchanged(db)
      ensures fault.None? ==> && err == None
                              && db.subtasks == old(db.subtasks) - {id}
                              && db.tasks == old(db.tasks)
                              && db.nextTaskId == old(db.nextTaskId)
                              && db.nextSubtaskId == old(db.nextSubtaskId)
    {
      if fault.Some? {
        return Some(Db(fault.value));
      }
      db.subtasks := db.subtasks - {id};
      err := None;
    }

    /** `ToggleSubtask`: negates `is_done` of that subtask if it exists; a
        missing key is not an error. */
    method ToggleSubtask(id: int, fault: Option<string>) returns (err: Option<Error>)
      requires db.Valid()
      modifies db
      ensures db.Valid()
      ensures fault.Some? ==> err == Some(Db(fault.value)) && unchanged(db)
      ensures fault.None? ==> && err == None
                              && db.subtasks == Toggled(old(db.subtasks), id)
                              && db.tasks == old(db.tasks)
                              && db.nextTaskId == old(db.nextTaskId)
                              && db.nextSubtaskId == old(db.nextSubtaskId)
    {
      if fault.Some? {
        return Some(Db(fault.value));
      }
      db.subtasks := Toggled(db.subtasks, id);
      err := None;
    }

    /** `Fetch`: the tasks owned by `userId`, newest first, each with its
        subtasks; a failed query yields no tasks and the error. */
    method Fetch(userId: int, fault: Option<string>) returns (ts: seq<Task>, err: Option<Error>)
      ensures fault.Some? ==> ts == [] && err == Some(Db(fault.value))
      ensures fault.None? ==> err == None && IsListing(ts, userId, db.tasks, db.subtasks)
    {
      if fault.Some? {
        return [], Some(Db(fault.value));
      }
      var remaining := OwnedBy(db.tasks, userId);
      ts := [];
      while remaining != {}
        invariant remaining <= OwnedBy(db.tasks, userId)
        invariant TaskIds(ts) !! remaining
        invariant TaskIds(ts) + remaining == OwnedBy(db.tasks, userId)
        invariant ListsTasks(ts, db.tasks, db.subtasks)
        invariant NewestFirst(ts)
        invariant NoneNewerIn(ts, remaining, db.tasks)
        decreases remaining
      {
        NewestExists(remaining, db.tasks);
        var id :| id in remaining && IsNewest(id, remaining, db.tasks);
        var subs := SubtasksOf(id);
        var t := ReadTask(id, db.tasks[id]).(subtasks := subs);
        ListingStep(ts, t, remaining, db.tasks, db.subtasks);
        ts := ts + [t];
        remaining := remaining - {id};
      }
      err := None;
    }

    /** The subtasks of one task, in the unspecified order in which the
        query aggregates them. */
    method SubtasksOf(taskId: int) returns (subs: seq<Subtask>)
      ensures ListsSubtasks(subs, SubtaskIdsOf(db.subtasks, taskId), db.subtasks)
    {
      var remaining := SubtaskIdsOf(db.subtasks, taskId);
      subs := [];
      while remaining != {}
        invariant remaining <= SubtaskIdsOf(db.subtasks, taskId)
        invariant SubtaskIds(subs) !! remaining
        invariant SubtaskIds(subs) + remaining == SubtaskIdsOf(db.subtasks, taskId)
        invariant forall k, l :: 0 <= k < l < |subs| ==> subs[k].id != subs[l].id
        invariant forall k :: 0 <= k < |subs| ==>
          subs[k].id in db.subtasks && subs[k] == ReadSubtask(subs[k].id, db.subtasks[subs[k].id])
        decreases remaining
      {
        NonEmptyHasMember(remaining);
        var id :| id in remaining;
        var s := ReadSubtask(id, db.subtasks[id]);
        assert SubtaskIds(subs + [s]) == SubtaskIds(subs) + {id};
        subs := subs + [s];
        remaining := remaining - {id};
      }
    }

    /** `GetByID`: a missing key yields no task and no error. */
    method GetByID(id: int, fault: Option<string>) returns (t: Option<Task>, err: Option<Error>)
      ensures fault.Some? ==> t == None && err == Some(Db(fault.value))
      ensures fault.None? ==> err == None && (t.Some? <==> id in db.tasks)
      ensures fault.None? && id in db.tasks ==> t == Some(ReadTask(id, db.tasks[id]))
    {
      if fault.Some? {
        return None, Some(Db(fault.value));
      }
      if id !in db.tasks {
        return None, None;
      }
      t, err := Some(ReadTask(id, db.tasks[id])), None;
    }

    /** `Update`: writes the task's listed columns over the row with its key;
        no such row gives `ErrNotFound` and changes nothing. */
    method Update(task: Task, fault: Option<string>) returns (err: Option<Error>)
      requires db.Valid()
      modifies db
      ensures db.Valid()
      ensures fault.Some? ==> err == Some(Db(fault.value)) && unchanged(db)
      ensures fault.None? && task.id !in old(db.tasks) ==> err == Some(NotFound) && unchanged(db)
      ensures fault.None? && task.id in old(db.tasks) ==>
        && err == None
        && db.tasks == old(db.tasks)[task.id := UpdatedRow(old(db.tasks)[task.id], task)]
        && db.subtasks == old(db.subtasks)
        && db.nextTaskId == old(db.nextTaskId)
        && db.nextSubtaskId == old(db.nextSubtaskId)
    {
      if fault.Some? {
        return Some(Db(fault.value));
      }
      if task.id !in db.tasks {
        return Some(NotFound);
      }
      db.tasks := db.tasks[task.id := UpdatedRow(db.tasks[task.id], task)];
      err := None;
    }

    /** `Delete`: removes the row with that key; a missing key is not an
        error. */
    method Delete(id: int, fault: Option<string>) returns (err: Option<Error>)
      requires db.Valid()
      modifies db
      ensures db.Valid()
      ensures fault.Some? ==> err == Some(Db(fault.value)) && unchanged(db)
      ensures fault.None? ==> && err == None
                              && db.tasks == old(db.tasks) - {id}
                              && db.subtasks == old(db.subtasks)
                              && db.nextTaskId == old(db.nextTaskId)
                              && db.nextSubtaskId == old(db.nextSubtaskId)
    {
      if fault.Some? {
        return Some(Db(fault.value));
      }
      db.tasks := db.tasks - {id};
      err := None;
    }
  }

  /** `UPDATE subtasks SET is_done = NOT is_done WHERE id = ...`. */
  function Toggled(subtasks: map<int, SubtaskRow>, id: int): (r: map<int, SubtaskRow>)
    ensures r.Keys == subtasks.Keys
    ensures forall k :: k in subtasks && k != id ==> r[k] == subtasks[k]
    ensures id in subtasks ==> r[id].isDone == !subtasks[id].isDone
    ensures id in subtasks ==> r[id] == subtasks[id].(isDone := r[id].isDone)
  {
    if id in subtasks then subtasks[id := subtasks[id].(isDone := !subtasks[id].isDone)]
    else subtasks
  }

  /** Toggling a subtask twice restores it. */
  lemma ToggleTwice(subtasks: map<int, SubtaskRow>, id: int)
    ensures Toggled(Toggled(subtasks, id), id) == subtasks
  {
    var twice := Toggled(Toggled(subtasks, id), id);
    assert forall k :: k in subtasks ==> twice[k] == subtasks[k];
  }
}
