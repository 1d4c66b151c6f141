/** The task use case (`TaskUsecase`): the rules the HTTP handlers reach
    through, layered over the task repository. Timestamps come from the
    parameter `now`; each repository call's outcome from its own `fault`
    argument, as in the repository. */
module TaskUsecases {
  import opened Wrappers
  import opened CivilTime
  import opened Domain
  import opened Storage
  import opened Repository

  /** The status `Create` stores: "pending" when none was given. */
  function DefaultStatus(status: string): (s: string)
    ensures s != ""
    ensures status != "" ==> s == status
    ensures status == "" ==> s == "pending"
  {
    if status == "" then "pending" else status
  }

  /** The row `UpdateStatus` leaves behind: the fetched task written back with
      only its status and update time replaced. */
  function StatusUpdatedRow(id: int, row: TaskRow, status: string, now: Instant): TaskRow {
    UpdatedRow(row, ReadTask(id, row).(status := status, updatedAt := now))
  }

  /** On a row without NULLs a status update changes the status and the
      update time and nothing else. */
  lemma StatusUpdateChangesOnlyStatus(id: int, row: TaskRow, status: string, now: Instant)
    ensures HasNoNulls(row) ==> StatusUpdatedRow(id, row, status, now) == row.(status := status, updatedAt := now)
    ensures StatusUpdatedRow(id, row, status, now).userId == row.userId
    ensures StatusUpdatedRow(id, row, status, now).createdAt == row.createdAt
    ensures ReadTask(id, StatusUpdatedRow(id, row, status, now)) ==
              ReadTask(id, row).(status := status, updatedAt := now)
  {
    ReadThenWriteBack(id, row);
  }

  class TaskUsecase {
    const repo: TaskRepository

    constructor (repo: TaskRepository)
      ensures this.repo == repo
    {
      this.repo := repo;
    }

    /** `Create`: both timestamps become `now`, an empty status becomes
        "pending", then a single repository `Create`. */
    method Create(task: Task, now: Instant, fault: Option<string>) returns (t: Task, err: Option<Error>)
      requires repo.db.Valid()
      modifies repo.db
      ensures repo.db.Valid()
      ensures t.status == DefaultStatus(task.status)
      ensures t.priority == DefaultPriority(task.priority)
      ensures t == task.(createdAt := now, updatedAt := now, status := t.status,
                         priority := t.priority, id := t.id)
      ensures fault.Some? ==> err == Some(Db(fault.value)) && t.id == task.id && unchanged(repo.db)
      ensures fault.None? ==> && err == None
                              && t.id !in old(repo.db.tasks)
                              && repo.db.tasks == old(repo.db.tasks)[t.id := InsertedRow(t)]
                              && repo.db.subtasks == old(repo.db.subtasks)
    {
      t := task.(createdAt := now, updatedAt := now);
      if t.status == "" {
        t := t.(status := "pending");
      }
      t, err := repo.Create(t, fault);
    }

    /** `UpdateStatus`: only the owner of an existing task may change its
        status; every other field is written back as fetched. */
    method UpdateStatus(id: int, userId: int, status: string, now: Instant,
                        lookupFault: Option<string>, writeFault: Option<string>)
      returns (err: Option<Error>)
      requires repo.db.Valid()
      modifies repo.db
      ensures repo.db.Valid()
      ensures lookupFault.Some? ==> err == Some(Db(lookupFault.value)) && unchanged(repo.db)
      ensures lookupFault.None? && id !in old(repo.db.tasks) ==>
                err == Some(TaskNotFound) && unchanged(repo.db)
      ensures lookupFault.None? && id in old(repo.db.tasks) && old(repo.db.tasks)[id].userId != userId ==>
                err == Some(Unauthorized) && unchanged(repo.db)
      ensures lookupFault.None? && id in old(repo.db.tasks) && old(repo.db.tasks)[id].userId == userId ==>
                if writeFault.Some? then err == Some(Db(writeFault.value)) && unchanged(repo.db)
                else && err == None
                     && repo.db.tasks == old(repo.db.tasks)[id := StatusUpdatedRow(id, old(repo.db.tasks)[id], status, now)]
                     && repo.db.subtasks == old(repo.db.subtasks)
    {
      var task, e := repo.GetByID(id, lookupFault);
      if e.Some? {
        return e;
      }
      if task.None? {
        return Some(TaskNotFound);
      }
      var t := task.value;
      if t.userId != userId {
        return Some(Unauthorized);
      }
      t := t.(status := status, updatedAt := now);
      err := repo.Update(t, writeFault);
    }

    /** `Delete`: only the owner of an existing task may remove it. */
    method Delete(id: int, userId: int, lookupFault: Option<string>, writeFault: Option<string>)
      returns (err: Option<Error>)
      requires repo.db.Valid()
      modifies repo.db
      ensures repo.db.Valid()
      ensures lookupFault.Some? ==> err == Some(Db(lookupFault.value)) && unchanged(repo.db)
      ensures lookupFault.None? && id !in old(repo.db.tasks) ==>
                err == Some(TaskNotFound) && unchanged(repo.db)
      ensures lookupFault.None? && id in old(repo.db.tasks) && old(repo.db.tasks)[id].userId != userId ==>
                err == Some(Unauthorized) && unchanged(repo.db)
      ensures lookupFault.None? && id in old(repo.db.tasks) && old(repo.db.tasks)[id].userId == userId ==>
                if writeFault.Some? then err == Some(Db(writeFault.value)) && unchanged(repo.db)
                else && err == None
                     && repo.db.tasks == old(repo.db.tasks) - {id}
                     && repo.db.subtasks == old(repo.db.subtasks)
    {
      var task, e := repo.GetByID(id, lookupFault);
      if e.Some? {
        return e;
      }
      if task.None? {
        return Some(TaskNotFound);
      }
      if task.value.userId != userId {
        return Some(Unauthorized);
      }
      err := repo.Delete(id, writeFault);
    }

    /** `AddSubtask`: a new, not yet done subtask bound to `taskId`; no
        ownership check is made. */
    method AddSubtask(taskId: int, title: string, now: Instant, fault: Option<string>)
      returns (err: Option<Error>)
      requires repo.db.Valid()
      modifies repo.db
      ensures repo.db.Valid()
      ensures fault.Some? ==> err == Some(Db(fault.value)) && unchanged(repo.db)
      ensures fault.None? ==> && err == None
                              && repo.db.tasks == old(repo.db.tasks)
                              && exists k :: && k !in old(repo.db.subtasks)
                                             && repo.db.subtasks == old(repo.db.subtasks)[k := SubtaskRow(taskId, title, false, now)]
    {
      var sub := Subtask(0, taskId, title, false, ZeroTime);
      var s;
      s, err := repo.CreateSubtask(sub, now, fault);
    }

    /** `ToggleSubtask`: passed through to the repository. */
    method ToggleSubtask(id: int, fault: Option<string>) returns (err: Option<Error>)
      requires repo.db.Valid()
      modifies repo.db
      ensures repo.db.Valid()
      ensures fault.Some? ==> err == Some(Db(fault.value)) && unchanged(repo.db)
      ensures fault.None? ==> && err == None
                              && repo.db.subtasks == Toggled(old(repo.db.subtasks), id)
                              && repo.db.tasks == old(repo.db.tasks)
    {
      err := repo.ToggleSubtask(id, fault);
    }

    /** `DeleteSubtask`: passed through to the repository. */
    method DeleteSubtask(id: int, fault: Option<string>) returns (err: Option<Error>)
      requires repo.db.Valid()
      modifies repo.db
      ensures repo.db.Valid()
      ensures fault.Some? ==> err == Some(Db(fault.value)) && unchanged(repo.db)
      ensures fault.None? ==> && err == None
                              && repo.db.subtasks == old(repo.db.subtasks) - {id}
                              && repo.db.tasks == old(repo.db.tasks)
    {
      err := repo.DeleteSubtask(id, fault);
    }
  }
}
