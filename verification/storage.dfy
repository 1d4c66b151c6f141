/** The two relational tables the task service keeps, `tasks` and
    `subtasks`, as maps from primary key to row, with the serial counters
    that hand out new keys. */
module Storage {
  import opened Wrappers
  import opened CivilTime

  /** A row of `tasks` without its key. The columns that can hold SQL NULL
      are optional: `description` and `priority` (which the readers
      coalesce), `recurrence_pattern` and `next_run` (left NULL by the
      scheduler's clones) and `reminder_time`. */
  datatype TaskRow = TaskRow(
    userId: int,
    title: string,
    description: Option<string>,
    status: string,
    priority: Option<string>,
    labels: seq<string>,
    reminderTime: Option<Instant>,
    recurrencePattern: Option<string>,
    nextRun: Option<Instant>,
    createdAt: Instant,
    updatedAt: Instant)

  /** A row of `subtasks` without its key. */
  datatype SubtaskRow = SubtaskRow(taskId: int, title: string, isDone: bool, createdAt: Instant)

  /** The database the repository and the scheduler share. */
  class Database {
    var tasks: map<int, TaskRow>
    var subtasks: map<int, SubtaskRow>
    var nextTaskId: int
    var nextSubtaskId: int

    /** Every key was handed out by its table's serial counter. */
    ghost predicate Valid()
      reads this
    {
      && 1 <= nextTaskId
      && 1 <= nextSubtaskId
      && (forall id :: id in tasks ==> 1 <= id < nextTaskId)
      && (forall id :: id in subtasks ==> 1 <= id < nextSubtaskId)
    }

    constructor ()
      ensures Valid()
      ensures tasks == map[] && subtasks == map[]
    {
      tasks := map[];
      subtasks := map[];
      nextTaskId := 1;
      nextSubtaskId := 1;
    }

    /** `INSERT INTO tasks ... RETURNING id`: the row is stored under a key
        no other row has. */
    method InsertTask(row: TaskRow) returns (id: int)
      requires Valid()
      modifies this
      ensures Valid()
      ensures id !in old(tasks) && tasks == old(tasks)[id := row]
      ensures subtasks == old(subtasks) && nextSubtaskId == old(nextSubtaskId)
    {
      id := nextTaskId;
      tasks := tasks[id := row];
      nextTaskId := nextTaskId + 1;
    }

    /** `INSERT INTO subtasks ... RETURNING id`. */
    method InsertSubtask(row: SubtaskRow) returns (id: int)
      requires Valid()
      modifies this
      ensures Valid()
      ensures id !in old(subtasks) && subtasks == old(subtasks)[id := row]
      ensures tasks == old(tasks) && nextTaskId == old(nextTaskId)
    {
      id := nextSubtaskId;
      subtasks := subtasks[id := row];
      nextSubtaskId := nextSubtaskId + 1;
    }
  }
}
