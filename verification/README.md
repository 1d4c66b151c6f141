# simple-task-manager: a Dafny model of its core

This project models the core of simple-task-manager, a Go to-do service.
Users own tasks. A task has a status, a priority, labels, an optional
reminder time, a checklist of subtasks and an optional recurrence pattern
("daily", "weekly" or "monthly") with the time it next fires (`next_run`).
The model covers four parts of the service:

- **Task repository.** Task and subtask persistence over the `tasks` and
  `subtasks` tables. Each table is a map from primary key to row, inside a
  `Database` object with the serial counters that hand out new keys.
- **Task use case.** The ownership rules in front of the repository.
- **User use case.** Registration and login. The user store is a map keyed
  by email. The hashing, password-check and token-signing libraries are
  left uninterpreted: they are the function values of a `Crypto` record.
- **Recurring-task scheduler.** Each cycle finds every task whose
  recurrence pattern is non-empty and whose `next_run` is at or before
  "now". For each, it inserts a pending clone titled "<title> (Auto)" and
  moves the parent's `next_run` one period on from its old value.
  A failed insert or update is logged and the cycle goes on. A row that
  cannot be scanned ends the cycle: the pgx driver closes the result set
  on a failed `Scan`, so the loop's next `rows.Next()` reports no more rows.

Each database call takes a `fault` argument for the call's outcome: `None`
means it succeeds, `Some(e)` means it fails with the driver error `e`. A
scheduler cycle takes the set of parents whose clone insert fails and the
set whose update fails; it also takes the order in which the due query
returns its rows and an optional break in the stream of result rows. The wall clock is a parameter `now`. Go's habit of
writing results back through the caller's pointer (the new key, the
defaulted priority, the trimmed and hashed user fields) is modelled by
returning the rewritten record.

Times are civil date-times in one zone. `CivilTime.AddDate` follows Go's
`Time.AddDate`: it advances the month first, then the day, and rolls a
day-of-month past the month's end into the following month. So a monthly
task due on 31 January next fires on 3 March (2 March in a leap year).

The model shows some consequences of the code as written:

- **A late parent is cloned again on later cycles.** A cycle advances a due
  parent by exactly one period, so a parent that is late by more than one
  period stays due. With cycles at the same "now", it is cloned once per
  cycle until it catches up (`Scheduler.CatchUp`). A daily task due
  yesterday at 09:00 and processed at 09:05 has `next_run` today at 09:00
  after one cycle. That time is still not after 09:05, so the next cycle
  clones it again (`Scheduler.DailyScenario`).
- **One NULL row can stop the whole cycle.** A due row whose description
  or priority is SQL NULL cannot be scanned into the Go struct. The failed
  scan closes the result set, so that row and every due row the database
  returns after it are neither cloned nor rescheduled. A row is processed
  exactly when it and every row before it scan (`Scheduler.ProcessedRows`).
  The NULL row stays due, so the same can happen on every later cycle.
  Such a row can only come from a write outside the service: every row the
  service itself inserts or updates has a description and a priority
  (`Scheduler.ServiceRowsScan`).
- **A broken result stream ends the cycle silently.** The loop never
  checks `rows.Err()`, so rows after the break are simply not processed.
- **A task with an unknown pattern is cloned on every cycle.** Nothing in
  the core restricts the recurrence pattern to "daily", "weekly" or
  "monthly". For any other non-empty pattern the task is due, gets a clone,
  and `updateNextRun` returns without moving `next_run`, so the task stays
  due and is cloned again on every later cycle
  (`Scheduler.UnknownPatternClonedEveryCycle`).
- **A status update fills in NULL columns.** `UpdateStatus` writes back
  every field it read. A NULL description, priority or recurrence pattern
  is stored as the default it was read as (`Repository.ReadThenWriteBack`).
- **Login does not reveal whether an email exists.** An unknown email and a
  wrong password give the same error.
- **A failed email lookup does not block registration.** The duplicate
  check only applies when the lookup succeeded.

## Model

| member | source | states |
|---|---|---|
| Storage.Database.InsertTask | internal/infra/repository/task.go:21-27 | the new row is stored under a key no existing row has, and nothing else changes |
| Storage.Database.InsertSubtask | internal/infra/repository/task.go:53-55 | the new subtask row is stored under a fresh key, and the tasks table is untouched |
| Repository.DefaultPriority | internal/infra/repository/task.go:29-32 | an empty priority becomes "medium", a given priority is kept, so the stored priority is never empty |
| Repository.ReadTask | internal/infra/repository/task.go:72-88 | a row is read under its key with no subtasks; a NULL description or recurrence pattern reads as "" and a NULL priority as "medium", and a row without NULLs reads its own values |
| Repository.ReadSubtask | internal/infra/repository/task.go:89-94 | a subtask as the JSON aggregate carries it: key, task, title and done flag, with the zero creation time, since `created_at` is not in the object |
| Repository.InsertedRow | internal/infra/repository/task.go:21-46 | reading the inserted row back, under any key, yields the inserted task (round trip) |
| Repository.UpdatedRow | internal/infra/repository/task.go:167-185 | `user_id` and `created_at` are never changed; reading the row back yields the written task with those two columns kept from the old row |
| Repository.ReadThenWriteBack | internal/infra/repository/task.go:129-185 | writing back a task as read leaves no NULL in the coalesced columns, and leaves the row unchanged exactly when it had none |
| Repository.Toggled | internal/infra/repository/task.go:63-66 | the toggled subtask's `is_done` is negated and nothing else changes; an unknown key changes nothing |
| Repository.ToggleTwice | internal/infra/repository/task.go:63-66 | toggling the same subtask twice restores the table |
| Repository.TaskRepository.Create | internal/infra/repository/task.go:20-49 | an empty priority becomes "medium" in the caller's record; on success the task is stored under a fresh key, which is written back; on failure nothing changes |
| Repository.TaskRepository.CreateSubtask | internal/infra/repository/task.go:53-56 | on success the subtask is stored under a fresh key with creation time `now`, and the key is written back; on failure nothing changes |
| Repository.TaskRepository.DeleteSubtask | internal/infra/repository/task.go:58-61 | removes exactly that subtask; a missing key is no error |
| Repository.TaskRepository.ToggleSubtask | internal/infra/repository/task.go:63-66 | the subtasks table becomes `Toggled` of the old one; a missing key is no error |
| Repository.TaskRepository.Fetch | internal/infra/repository/task.go:71-126 | returns every task of the user exactly once, read with the COALESCE defaults, each with exactly its own subtasks, newest first; a failed query gives no tasks and the error |
| Repository.TaskRepository.SubtasksOf | internal/infra/repository/task.go:89-96 | lists each subtask of the task once, with the fields the JSON aggregate carries |
| Repository.TaskRepository.GetByID | internal/infra/repository/task.go:129-164 | a task is found if and only if the key exists, and is then read with the COALESCE defaults; a missing key gives no task and no error |
| Repository.TaskRepository.Update | internal/infra/repository/task.go:167-195 | writes the listed columns over the row with the task's key; no such row gives `ErrNotFound` and no change |
| Repository.TaskRepository.Delete | internal/infra/repository/task.go:198-202 | removes exactly that task; a missing key is no error |
| TaskUsecases.DefaultStatus | internal/core/usecase/task_usecase.go:33-35 | the stored status is never empty: a given status is kept, an empty one becomes "pending" |
| TaskUsecases.StatusUpdatedRow | internal/core/usecase/task_usecase.go:65-68 | the row `UpdateStatus` leaves: the fetched task, with its status and update time replaced, written back by `Update` (its properties are `StatusUpdateChangesOnlyStatus`) |
| TaskUsecases.StatusUpdateChangesOnlyStatus | internal/core/usecase/task_usecase.go:53-68 | a status update changes only the status and the update time of a NULL-free row; the owner and creation time are always kept |
| TaskUsecases.TaskUsecase.Create | internal/core/usecase/task_usecase.go:26-38 | both timestamps become `now`, an empty status becomes "pending" and an empty priority "medium", and exactly one row is inserted on success; on failure the task keeps its key and nothing changes |
| TaskUsecases.TaskUsecase.UpdateStatus | internal/core/usecase/task_usecase.go:49-69 | a lookup error is passed on; a missing task gives "task not found" and a task of another user gives "unauthorized", both with no change; otherwise only that row is rewritten |
| TaskUsecases.TaskUsecase.Delete | internal/core/usecase/task_usecase.go:72-89 | the same guards as `UpdateStatus`, in the same order; only the owner's delete removes the row |
| TaskUsecases.TaskUsecase.AddSubtask | internal/core/usecase/task_usecase.go:93-103 | inserts one subtask that is not done, under a fresh key, without any ownership check |
| TaskUsecases.TaskUsecase.ToggleSubtask | internal/core/usecase/task_usecase.go:105-110 | passes through to the repository's toggle |
| TaskUsecases.TaskUsecase.DeleteSubtask | internal/core/usecase/task_usecase.go:112-117 | passes through to the repository's delete |
| CivilTime.DaysIn | internal/infra/scheduler/task_scheduler.go:84 | month lengths are 28 to 31 days, with 29 in February exactly in leap years |
| CivilTime.NormalizeDay | internal/infra/scheduler/task_scheduler.go:84 | the result is a valid date; it is the date itself when the day exists, and otherwise a later month |
| CivilTime.AddDate | internal/infra/scheduler/task_scheduler.go:80-84 | the clock reading is kept, and any positive amount gives a strictly later instant |
| CivilTime.BeforeIsStrictTotalOrder | internal/infra/scheduler/task_scheduler.go:32 | the order `next_run <= NOW()` compares by is a strict total order |
| CivilTime.AddDaysAdditive | internal/infra/scheduler/task_scheduler.go:80-82 | adding `a` days and then `b` days is adding `a + b` days |
| CivilTime.AddNothing | internal/infra/scheduler/task_scheduler.go:80-84 | adding nothing is the identity |
| CivilTime.MonthlyStep | internal/infra/scheduler/task_scheduler.go:84 | a month step keeps the day-of-month when the next month has it, and otherwise carries the overflow into the month after |
| CivilTime.DailyStepAtMonthEnd | internal/infra/scheduler/task_scheduler.go:80 | one day after a month's last day is the first of the next month |
| CivilTime.MonthEndIntoMarchCommonYear | internal/infra/scheduler/task_scheduler.go:84 | a monthly step from 31 January 2023 lands on 3 March 2023 |
| CivilTime.MonthEndIntoMarchLeapYear | internal/infra/scheduler/task_scheduler.go:84 | a monthly step from 31 January 2024 lands on 2 March 2024 |
| CivilTime.MidMonthKeepsDay | internal/infra/scheduler/task_scheduler.go:84 | a monthly step from 15 January lands on 15 February |
| CivilTime.DecemberIntoNextYear | internal/infra/scheduler/task_scheduler.go:84 | a monthly step from 31 December 2025 lands on 31 January 2026 |
| Scheduler.IsDue | internal/infra/scheduler/task_scheduler.go:28-33 | the due query's filter with SQL's NULL semantics: a non-NULL, non-empty pattern and a non-NULL `next_run` at or before `now` |
| Scheduler.Scans | internal/infra/scheduler/task_scheduler.go:43-47 | `rows.Scan` succeeds exactly when the description and the priority are not NULL |
| Scheduler.ScanTask | internal/infra/scheduler/task_scheduler.go:43-44 | the scanned task agrees with the repository's read of the same row on the eight selected columns; status, reminder and timestamps keep Go's zero values |
| Scheduler.NextRun | internal/infra/scheduler/task_scheduler.go:74-87 | a next time exists exactly for "daily", "weekly" and "monthly"; it is strictly later and keeps the time of day (hour, minute, second and nanosecond) |
| Scheduler.Repeat | internal/infra/scheduler/task_scheduler.go:78-87 | any positive number of periods lands strictly later |
| Scheduler.DailyRepeat | internal/infra/scheduler/task_scheduler.go:79-80 | `n` daily steps are `n` days |
| Scheduler.WeeklyIsSevenDays | internal/infra/scheduler/task_scheduler.go:81-82 | a weekly step is seven daily steps |
| Scheduler.CloneRow | internal/infra/scheduler/task_scheduler.go:57-66 | a clone copies owner, description, priority and labels, is titled "<title> (Auto)" and pending, has no recurrence, and is never due |
| Scheduler.Rescheduled | internal/infra/scheduler/task_scheduler.go:74-90 | only `next_run` changes, and it changes exactly when the pattern is known |
| Scheduler.ServiceRowsScan | internal/infra/repository/task.go:21-27 | every row the service writes (insert, update, scheduler clone) has a description and a priority, so it scans |
| Scheduler.Delivered | internal/infra/scheduler/task_scheduler.go:42 | the rows the loop receives are a prefix of the query result: all of it, or the rows before a break in the stream, since `rows.Err()` is never checked |
| Scheduler.Handled | internal/infra/scheduler/task_scheduler.go:42-47 | the loop handles the longest prefix of the delivered rows whose rows all scan, and stops at the first row that does not |
| Scheduler.HandledIsPrefix | internal/infra/scheduler/task_scheduler.go:42-47 | a scannable prefix that ends at the end of the rows or at an unscannable row is exactly what the loop handles |
| Scheduler.ProcessedRows | internal/infra/scheduler/task_scheduler.go:35-47 | only due rows are processed, and the row in position `j` of the query result is processed exactly when the stream delivers it and it and every earlier row scan |
| Scheduler.AllDueProcessed | internal/infra/scheduler/task_scheduler.go:35-47 | with an unbroken stream and every due row scannable, the processed rows are exactly the due rows |
| Scheduler.CycleEffect | internal/infra/scheduler/task_scheduler.go:23-94 | the table after a cycle, as described below the table |
| Scheduler.QuietCycle | internal/infra/scheduler/task_scheduler.go:28-54 | a cycle in which nothing is due leaves the table unchanged |
| Scheduler.FaultFreeCycle | internal/infra/scheduler/task_scheduler.go:42-54 | without failures and with every due row scannable, every due parent is rescheduled (`AfterCycle`), other rows are kept, and exactly one clone is added per due parent |
| Scheduler.UnknownPatternClonedEveryCycle | internal/infra/scheduler/task_scheduler.go:50-87 | without failures, a due task whose pattern is not "daily", "weekly" or "monthly" gets a clone, keeps its row unchanged, and is still due |
| Scheduler.FaultFreeRows | internal/infra/scheduler/task_scheduler.go:42-54 | when the processed rows are the due rows and nothing fails, each existing row ends as `AfterCycle` of itself |
| Scheduler.DueCycle | internal/infra/scheduler/task_scheduler.go:42-53 | in a cycle without failures in which every due row scans, a cycle moves a due, scannable parent on by exactly one period |
| Scheduler.CatchUp | internal/infra/scheduler/task_scheduler.go:28-90 | for cycles without failures in which every due row scans: if the trigger time `k - 1` periods after the original is still not after `now`, then `k` cycles at `now` leave `next_run` exactly `k` periods after the original |
| Scheduler.CaughtUp | internal/infra/scheduler/task_scheduler.go:31-32 | in such cycles, once `next_run` is after `now`, further cycles at `now` leave the row alone |
| Scheduler.DailyScenario | internal/infra/scheduler/task_scheduler.go:79-80 | in such cycles, a daily task due yesterday 09:00, processed at 09:05: after one cycle `next_run` is today 09:00 and it is still due; after two it is tomorrow 09:00 and not due; a third cycle changes nothing |
| Scheduler.TaskScheduler.ProcessRecurringTasks | internal/infra/scheduler/task_scheduler.go:23-55 | given the order of the query result, a failed query changes nothing; otherwise the table after the cycle is described by `CycleEffect` (see below): the loop stops at the first row that fails to scan or at a break in the stream |
| Scheduler.TaskScheduler.CreateNextInstance | internal/infra/scheduler/task_scheduler.go:57-72 | inserts exactly the clone row under a fresh key; a failed insert changes nothing |
| Scheduler.TaskScheduler.UpdateNextRun | internal/infra/scheduler/task_scheduler.go:74-94 | for a known pattern, sets that row's `next_run` to one period after the task's old `next_run`; an unknown pattern, a failed write or a missing row changes nothing |
| Text.TrimStart | internal/core/usecase/user_usecase.go:34-36 | leading white space is removed, the result does not start with white space, and everything cut off is white space |
| Text.TrimEnd | internal/core/usecase/user_usecase.go:34-36 | trailing white space is removed, the result does not end with white space, and everything cut off is white space |
| Text.TrimSpace | internal/core/usecase/user_usecase.go:34-36 | the result neither starts nor ends with white space |
| Text.TrimSpaceCutsOnlySpace | internal/core/usecase/user_usecase.go:34-36 | the result is a contiguous piece of the input, and only white space is removed on either side |
| Text.TrimSpaceIdempotent | internal/core/usecase/user_usecase.go:34-36 | trimming twice is trimming once |
| Text.TrimSpaceOfPadded | internal/core/usecase/user_usecase.go:70-71 | white space added on either side of a string is removed again |
| UserUsecases.PaddedPasswordAccepted | internal/core/usecase/user_usecase.go:93-97 | assuming the hash library is sound, a stored password is accepted again when typed with white space around it |
| UserUsecases.UserUsecase.Register | internal/core/usecase/user_usecase.go:29-57 | name and email are trimmed first; a found email gives "email already exists" with no insert; a hash failure aborts; on success the stored user holds the hash of the trimmed password, timestamps `now` and a fresh key |
| UserUsecases.UserUsecase.Login | internal/core/usecase/user_usecase.go:65-110 | a lookup error is passed on; an unknown email and a wrong password both give "invalid email or password"; otherwise a token is signed for the stored user's key with a 24-hour lifetime and returned with that user; nothing changes |

`Scheduler.CycleEffect` is a predicate over the table before and after a
cycle, plus a map `origin` from each clone's key to its parent's key, the
order of the query result and the cycle's failures. It says:

- The order lists every due key once.
- The processed parents are `Processed`: the delivered rows up to the
  first one that fails to scan.
- Each processed parent is rescheduled, unless its update failed.
- Every other row is left alone.
- The new rows are exactly the clones of the processed parents whose
  insert did not fail.
- Each such parent gets one clone, with the content `CloneRow` describes.

## Left out

- Time zones, daylight saving and monotonic clock readings are not modelled. Times are civil date-times in one zone, and `AddDate` is modelled only for the non-negative amounts the scheduler uses.
- The scheduler's `NOW()` is a single parameter `now` for the whole cycle. The database clock could move during the cycle; that is not modelled.
- The cron trigger, concurrent cycles and concurrent requests are not modelled. Each operation runs alone, start to finish.
- Logging, `fmt` debug output and the HTTP layer are not modelled; none of them changes any result.
- A call reported as failed is modelled as having had no effect. Each use case runs under a 2-second context; a write the server committed before that deadline expired, or before the connection was lost, is not captured, although the Go call then returns an error. For example `TaskUsecase.Delete` can report failure after the row is gone.
- The database schema is not part of this model. Deleting a task leaves its subtasks in place, because any foreign-key cascade would live in the schema. Users' emails are assumed unique: inserting an existing email fails with a duplicate-key error.
- `TaskUsecase.Fetch` is a plain pass-through to the repository's `Fetch`, so it has no member of its own.
- The repository's `Fetch` and `GetByID` scan errors are not modelled. The columns they coalesce cannot be NULL when read, and `TaskRow` makes `user_id`, `title`, `status`, `created_at` and `updated_at` non-null, so no scan of them can fail in the model. A NULL in one of those columns would make the Go code fail the scan.
- The repository's `Fetch` never checks `rows.Err()`. A break in the stream of result rows would return a truncated list with no error; the model's `Fetch` always reads the whole result.
- Go's `int64` keys are unbounded integers, so serial-counter overflow is not modelled.
- The task use case's `Create` and the user use case's `Register` each read the clock twice, once per timestamp. The model uses one `now` for both timestamps.
- PostgreSQL stores timestamps to the microsecond, so a Go time with nanoseconds is rounded on insert. The model stores times exactly, so the round trips of `Repository.InsertedRow` and `Repository.UpdatedRow` hold in the source only for microsecond-aligned times.
- Updates through the caller's pointer are modelled as a returned record. Aliasing between that record and other Go values is not captured.
- The bcrypt hash is salted and so differs from call to call. The model fixes one hash function per `Crypto` value; this only matters across calls.
- JWT claims, signing and token expiry checking are not modelled. Token issuance is the uninterpreted `createAccessToken`, called with the user's key, the secret and 86400 seconds.
- Strings are sequences of code points. Go strings are UTF-8 bytes; invalid UTF-8 and the byte-level scanning of `strings.TrimSpace` are not modelled.
- Scheduler.TaskScheduler.ProcessRecurringTasks: the interleaving of one parent's clone insert with its update is not observable in its contract; only the final table is stated. The order of the query result is a parameter, since SQL leaves it unspecified. A failed `Scan` is modelled as ending the loop, which is what the pgx driver does; the pgx driver itself is not part of this model.
