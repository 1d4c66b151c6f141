/** The records the use cases and the repository exchange (the Go package
    `domain`), and the errors they return. */
module Domain {
  import opened Wrappers
  import opened CivilTime

  /** A checklist item inside a task. */
  datatype Subtask = Subtask(id: int, taskId: int, title: string, isDone: bool, createdAt: Instant)

  /** A task as the Go struct `domain.Task` carries it: the nullable columns
      `reminder_time` and `next_run` are optional, every string is a plain
      string (SQL NULLs are read as defaults by the repository). */
  datatype Task = Task(
    id: int,
    userId: int,
    title: string,
    description: string,
    status: string,
    priority: string,
    labels: seq<string>,
    reminderTime: Option<Instant>,
    recurrencePattern: string,
    nextRun: Option<Instant>,
    subtasks: seq<Subtask>,
    createdAt: Instant,
    updatedAt: Instant)

  /** A registered user; `password` holds the password hash once stored. */
  datatype User = User(id: int, name: string, email: string, password: string,
                       createdAt: Instant, updatedAt: Instant)

  /** The errors the core returns. */
  datatype Error =
    | NotFound                  // domain.ErrNotFound
    | TaskNotFound              // the task use case's own not-found error
    | Unauthorized              // the caller does not own the task
    | EmailExists               // registration with an email already stored
    | InvalidCredentials        // unknown email or wrong password, deliberately alike
    | DuplicateKey              // the database's unique-constraint violation
    | Db(reason: string)        // any other failure of a database call
    | Library(reason: string)   // a failure of the hashing or token library
}
