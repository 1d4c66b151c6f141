/** The recurring-task processor (`TaskScheduler`). One cycle selects every
    task whose recurrence pattern is non-empty and whose `next_run` is at or
    before `now`; for each it inserts a one-shot pending clone and advances
    the parent's `next_run` by one period from its old value. A failed insert
    or update is logged and the cycle goes on; a row that fails to scan ends
    the cycle. */
module Scheduler {
  import opened Wrappers
  import opened CivilTime
  import opened Domain
  import opened Storage
  import opened Collections
  import Repository

  /** The marker appended to a clone's title. */
  const AutoSuffix: string := " (Auto)"

  /** The due query's filter, with SQL's NULL semantics: a NULL pattern or a
      NULL `next_run` makes the comparison unknown and the row is not
      selected. */
  predicate IsDue(row: TaskRow, now: Instant) {
    && row.recurrencePattern.Some? && row.recurrencePattern.value != ""
    && row.nextRun.Some? && NotAfter(row.nextRun.value, now)
  }

  /** The loop's `rows.Scan` succeeds: a NULL description or priority cannot
      be scanned into a Go string. */
  predicate Scans(row: TaskRow) {
    row.description.Some? && row.priority.Some?
  }

  /** Every row the service itself writes scans: the repository's insert and
      update and the scheduler's clone all store a description and a
      priority. A row that fails to scan was written by something outside
      the service. */
  lemma ServiceRowsScan(t: Task, row: TaskRow, parent: Task, now: Instant)
    ensures Scans(Repository.InsertedRow(t))
    ensures Scans(Repository.UpdatedRow(row, t))
    ensures Scans(CloneRow(parent, now))
  {
  }

  /** The task the loop scans from a due row: the eight selected columns, all
      other fields left at Go's zero values. On those columns it agrees with
      the repository's read of the same row. */
  function ScanTask(id: int, row: TaskRow): (t: Task)
    requires Scans(row) && row.recurrencePattern.Some?
    ensures t == Repository.ReadTask(id, row).(status := "", reminderTime := None,
                                               createdAt := ZeroTime, updatedAt := ZeroTime)
  {
    Task(id, row.userId, row.title, row.description.value, "", row.priority.value, row.labels,
         None, row.recurrencePattern.value, row.nextRun, [], ZeroTime, ZeroTime)
  }

  /** The switch in `updateNextRun`: the next trigger time one period after
      `current`, or nothing for a pattern it does not know. */
  function NextRun(current: Instant, pattern: string): (r: Option<Instant>)
    ensures r.Some? <==> pattern in {"daily", "weekly", "monthly"}
    ensures r.Some? ==> Before(current, r.value)
    ensures r.Some? ==> r.value.hour == current.hour && r.value.minute == current.minute
    ensures r.Some? ==> r.value.second == current.second && r.value.nanosecond == current.nanosecond
  {
    match pattern
    case "daily" => Some(AddDate(current, 0, 0, 1))
    case "weekly" => Some(AddDate(current, 0, 0, 7))
    case "monthly" => Some(AddDate(current, 0, 1, 0))
    case _ => None
  }

  /** `n` periods of a recognised pattern after `start`. */
  function Repeat(start: Instant, pattern: string, n: nat): (r: Instant)
    requires pattern in {"daily", "weekly", "monthly"}
    ensures n > 0 ==> Before(start, r)
  {
    if n == 0 then start
    else
      var prev := Repeat(start, pattern, n - 1);
      assert n - 1 > 0 ==> Before(start, prev);
      BeforeIsStrictTotalOrder(start, prev, NextRun(prev, pattern).value);
      NextRun(prev, pattern).value
  }

  /** Daily periods add up: `n` daily steps are `n` days. */
  lemma {:induction false} DailyRepeat(start: Instant, n: nat)
    ensures Repeat(start, "daily", n) == AddDate(start, 0, 0, n)
  {
    if n == 0 {
      AddNothing(start);
    } else {
      DailyRepeat(start, n - 1);
      AddDaysAdditive(start, n - 1, 1);
    }
  }

  /** A weekly step is seven daily steps. */
  lemma WeeklyIsSevenDays(start: Instant)
    ensures NextRun(start, "weekly") == Some(Repeat(start, "daily", 7))
  {
    DailyRepeat(start, 7);
  }

  /** The row `createNextInstance` inserts for a due parent. */
  function CloneRow(parent: Task, now: Instant): (row: TaskRow)
    ensures row.userId == parent.userId && row.labels == parent.labels
    ensures row.description == Some(parent.description) && row.priority == Some(parent.priority)
    ensures row.status == "pending" && row.title == parent.title + AutoSuffix
    ensures row.recurrencePattern.None? && row.nextRun.None? && row.reminderTime.None?
    ensures row.createdAt == now && row.updatedAt == now
    ensures forall t :: !IsDue(row, t)
  {
    TaskRow(parent.userId, parent.title + AutoSuffix, Some(parent.description), "pending",
            Some(parent.priority), parent.labels, None, None, None, now, now)
  }

  /** The parent's row after `updateNextRun` succeeds: `next_run` advanced by
      one period from its old value, nothing else changed; unchanged for an
      unknown pattern. */
  function Rescheduled(row: TaskRow): (r: TaskRow)
    requires row.recurrencePattern.Some? && row.nextRun.Some?
    ensures r == row.(nextRun := r.nextRun)
    ensures r.nextRun.Some?
    ensures r != row <==> row.recurrencePattern.value in {"daily", "weekly", "monthly"}
  {
    match NextRun(row.nextRun.value, row.recurrencePattern.value)
    case None => row
    case Some(next) =>
      BeforeIsStrictTotalOrder(row.nextRun.value, next, next);
      row.(nextRun := Some(next))
  }

  /** The failures a cycle meets: the due query itself; a break in the
      stream of result rows after the first `streamCut` rows (the loop never
      consults `rows.Err()`, so the cycle just ends there); and the parents
      (by key) whose clone insert or whose `next_run` update fails. */
  datatype CycleFaults = CycleFaults(query: Option<string>, streamCut: Option<nat>,
                                     insert: set<int>, reschedule: set<int>)

  const NoFaults: CycleFaults := CycleFaults(None, None, {}, {})

  /** The keys the due query selects. */
  function Due(tasks: map<int, TaskRow>, now: Instant): set<int> {
    set id | id in tasks && IsDue(tasks[id], now)
  }

  /** The keys listed in `s`. */
  function Elements(s: seq<int>): set<int> {
    set x | x in s
  }

  /** No key is listed twice. */
  predicate Distinct(s: seq<int>) {
    forall i, j :: 0 <= i < j < |s| ==> s[i] != s[j]
  }

  /** Taking one more key of a sequence without repetitions adds a key not
      taken before. */
  lemma ElementsStep(s: seq<int>, i: nat)
    requires Distinct(s) && i < |s|
    ensures s[i] !in Elements(s[..i])
    ensures Elements(s[..i + 1]) == Elements(s[..i]) + {s[i]}
  {
    assert s[..i + 1] == s[..i] + [s[i]];
    forall j | 0 <= j < i
      ensures s[..i][j] != s[i]
    {
    }
  }

  /** `order` is a possible result of the due query: every due key once, in
      whatever order the database returns them. */
  predicate IsQueryResult(order: seq<int>, tasks: map<int, TaskRow>, now: Instant) {
    Distinct(order) && Elements(order) == Due(tasks, now)
  }

  /** The result rows the stream hands to the loop: all of them, or only the
      first `streamCut` when the stream breaks. */
  function Delivered(order: seq<int>, streamCut: Option<nat>): (d: seq<int>)
    ensures d <= order
    ensures forall x :: x in d ==> x in order
  {
    if streamCut.Some? && streamCut.value < |order| then order[..streamCut.value] else order
  }

  /** The delivered rows are due rows of the table, none twice. */
  lemma DeliveredRows(order: seq<int>, tasks: map<int, TaskRow>, now: Instant, streamCut: Option<nat>)
    requires IsQueryResult(order, tasks, now)
    ensures var d := Delivered(order, streamCut);
            && Distinct(d)
            && forall j :: 0 <= j < |d| ==> d[j] in tasks && IsDue(tasks[d[j]], now)
  {
    var d := Delivered(order, streamCut);
    forall j | 0 <= j < |d|
      ensures d[j] in tasks && IsDue(tasks[d[j]], now)
    {
      assert d[j] == order[j] && order[j] in Elements(order);
    }
    forall a, b | 0 <= a < b < |d|
      ensures d[a] != d[b]
    {
      assert d[a] == order[a] && d[b] == order[b];
    }
  }

  /** The delivered rows `d` the loop handles. A failed `Scan` makes pgx close
      the result set, so the `continue` after it meets a `rows.Next()` that
      reports no more rows: the loop handles the longest prefix of `d` whose
      rows all scan, and stops at the first row that does not. */
  function Handled(rows: map<int, TaskRow>, d: seq<int>): (r: seq<int>)
    ensures r <= d
    ensures forall x :: x in r ==> x in d && x in rows && Scans(rows[x])
    ensures |r| < |d| ==> d[|r|] !in rows || !Scans(rows[d[|r|]])
  {
    if d == [] || d[0] !in rows || !Scans(rows[d[0]]) then []
    else
      var r := Handled(rows, d[1..]);
      assert d[1..][|r|..] == d[|r| + 1..];
      assert [d[0]] + r == d[..|r| + 1];
      [d[0]] + r
  }

  /** A prefix of `d` whose rows all scan, followed by the end of `d` or by a
      row that does not scan, is exactly what the loop handles. */
  lemma {:induction false} HandledIsPrefix(rows: map<int, TaskRow>, d: seq<int>, i: nat)
    requires i <= |d|
    requires forall j :: 0 <= j < i ==> d[j] in rows && Scans(rows[d[j]])
    requires i < |d| ==> d[i] !in rows || !Scans(rows[d[i]])
    ensures Handled(rows, d) == d[..i]
    decreases i
  {
    if i > 0 {
      assert d[0] in rows && Scans(rows[d[0]]);
      assert Handled(rows, d) == [d[0]] + Handled(rows, d[1..]);
      HandledIsPrefix(rows, d[1..], i - 1);
      assert d[..i] == [d[0]] + d[1..][..i - 1];
    }
  }

  /** A row of `d` that scans, with every row before it, is handled. */
  lemma {:induction false} HandledCovers(rows: map<int, TaskRow>, d: seq<int>, j: nat)
    requires j < |d|
    requires forall k :: 0 <= k <= j ==> d[k] in rows && Scans(rows[d[k]])
    ensures j < |Handled(rows, d)|
    decreases j
  {
    if j > 0 {
      HandledCovers(rows, d[1..], j - 1);
    }
  }

  /** The keys of the rows a cycle at `now` processes. */
  function Processed(tasks: map<int, TaskRow>, order: seq<int>, faults: CycleFaults): set<int> {
    Elements(Handled(tasks, Delivered(order, faults.streamCut)))
  }

  /** Which due rows a cycle processes: the row in position `j` of the query
      result is processed exactly when the stream delivers it and it and
      every row before it scan. One row with a NULL description or priority
      thus blocks every row the database happens to return after it. */
  lemma ProcessedRows(tasks: map<int, TaskRow>, order: seq<int>, now: Instant, faults: CycleFaults, j: nat)
    requires IsQueryResult(order, tasks, now)
    requires j < |order|
    ensures Processed(tasks, order, faults) <= Due(tasks, now)
    ensures forall k :: 0 <= k < |order| ==> order[k] in tasks
    ensures order[j] in Processed(tasks, order, faults) <==>
              && (faults.streamCut.None? || j < faults.streamCut.value)
              && forall k :: 0 <= k <= j ==> Scans(tasks[order[k]])
  {
    forall k | 0 <= k < |order|
      ensures order[k] in tasks
    {
      assert order[k] in Elements(order);
    }
    var d := Delivered(order, faults.streamCut);
    var r := Handled(tasks, d);
    forall x | x in Elements(r)
      ensures x in Due(tasks, now)
    {
      assert x in Elements(order);
    }
    if order[j] in r {
      var i :| 0 <= i < |r| && r[i] == order[j];
      assert r[i] == order[i];
      assert i == j;
      forall k | 0 <= k <= j
        ensures Scans(tasks[order[k]])
      {
        assert r[k] == order[k];
      }
    }
    if && (faults.streamCut.None? || j < faults.streamCut.value)
       && forall k :: 0 <= k <= j ==> Scans(tasks[order[k]]) {
      forall k | 0 <= k <= j
        ensures d[k] in tasks && Scans(tasks[d[k]])
      {
        assert d[k] == order[k];
      }
      HandledCovers(tasks, d, j);
      assert r[j] == order[j];
    }
  }

  /** When every due row scans and the stream is whole, the cycle processes
      exactly the due rows. */
  lemma AllDueProcessed(tasks: map<int, TaskRow>, order: seq<int>, now: Instant)
    requires IsQueryResult(order, tasks, now)
    requires forall id :: id in tasks && IsDue(tasks[id], now) ==> Scans(tasks[id])
    ensures Processed(tasks, order, NoFaults) == Due(tasks, now)
  {
    forall j | 0 <= j < |order|
      ensures order[j] in tasks && Scans(tasks[order[j]])
    {
      assert order[j] in Elements(order);
      var id := order[j];
      assert id in Due(tasks, now);
      assert id in tasks && IsDue(tasks[id], now);
    }
    HandledIsPrefix(tasks, order, |order|);
    assert order[..|order|] == order;
  }

  /** What a completed cycle at `now` did to the table, given the order in
      which the due query returned its rows and which calls failed: `origin`
      maps each clone's key to its parent's key. */
  ghost predicate CycleEffect(before: map<int, TaskRow>, after: map<int, TaskRow>, origin: map<int, int>,
                              now: Instant, order: seq<int>, faults: CycleFaults) {
    var processed := Processed(before, order, faults);
    && IsQueryResult(order, before, now)
    && (forall id :: id in before ==>
          && id in after
          && after[id] == if id in processed && IsDue(before[id], now) && id !in faults.reschedule
                          then Rescheduled(before[id]) else before[id])
    && origin.Keys == after.Keys - before.Keys
    && origin.Values == processed - faults.insert
    && (forall c, c' :: c in origin && c' in origin && c != c' ==> origin[c] != origin[c'])
    && (forall c :: c in origin ==>
          && origin[c] in processed && IsDue(before[origin[c]], now)
          && after[c] == CloneRow(ScanTask(origin[c], before[origin[c]]), now))
  }

  /** A cycle in which nothing is due inserts nothing and updates nothing. */
  lemma QuietCycle(before: map<int, TaskRow>, after: map<int, TaskRow>, origin: map<int, int>,
                   now: Instant, order: seq<int>, faults: CycleFaults)
    requires CycleEffect(before, after, origin, now, order, faults)
    requires forall id :: id in before ==> !IsDue(before[id], now)
    ensures after == before
  {
    forall k | k in after
      ensures k in before
    {
    }
    forall k | k in before
      ensures k in after
    {
    }
    assert after.Keys == before.Keys;
    forall id | id in before
      ensures after[id] == before[id]
    {
    }
  }

  /** In a cycle without failures in which every due row scans, every due
      parent is rescheduled, every other row is left alone, and the due
      parents and the new clones correspond one to one. */
  lemma FaultFreeCycle(before: map<int, TaskRow>, after: map<int, TaskRow>, origin: map<int, int>,
                       now: Instant, order: seq<int>)
    requires CycleEffect(before, after, origin, now, order, NoFaults)
    requires forall id :: id in before && IsDue(before[id], now) ==> Scans(before[id])
    ensures forall id :: id in before ==> after[id] == AfterCycle(before[id], now)
    ensures origin.Values == Due(before, now)
    ensures |after.Keys - before.Keys| == |Due(before, now)|
  {
    AllDueProcessed(before, order, now);
    FaultFreeRows(before, after, origin, now, order);
    InjectiveSameSize(origin);
  }

  /** A due task whose pattern `updateNextRun` does not know is cloned and
      left due: its `next_run` never moves, so every later cycle clones it
      again. */
  lemma UnknownPatternClonedEveryCycle(before: map<int, TaskRow>, after: map<int, TaskRow>,
                                       origin: map<int, int>, now: Instant, order: seq<int>, id: int)
    requires CycleEffect(before, after, origin, now, order, NoFaults)
    requires forall k :: k in before && IsDue(before[k], now) ==> Scans(before[k])
    requires id in before && IsDue(before[id], now)
    requires before[id].recurrencePattern.value !in {"daily", "weekly", "monthly"}
    ensures id in origin.Values
    ensures after[id] == before[id] && IsDue(after[id], now)
  {
    FaultFreeCycle(before, after, origin, now, order);
  }

  /** Row by row, a cycle without failures in which every due row scans is
      `AfterCycle`. */
  lemma FaultFreeRows(before: map<int, TaskRow>, after: map<int, TaskRow>, origin: map<int, int>,
                      now: Instant, order: seq<int>)
    requires CycleEffect(before, after, origin, now, order, NoFaults)
    requires Processed(before, order, NoFaults) == Due(before, now)
    ensures forall id :: id in before ==> after[id] == AfterCycle(before[id], now)
  {
    forall id | id in before
      ensures after[id] == AfterCycle(before[id], now)
    {
    }
  }

  lemma {:induction false} InjectiveSameSize(m: map<int, int>)
    requires forall c, c' :: c in m && c' in m && c != c' ==> m[c] != m[c']
    ensures |m.Values| == |m.Keys|
    decreases |m.Keys|
  {
    if m.Keys != {} {
      NonEmptyHasMember(m.Keys);
      var c :| c in m.Keys;
      var rest := m - {c};
      InjectiveSameSize(rest);
      assert rest.Keys == m.Keys - {c};
      forall v | v in m.Values
        ensures v in rest.Values + {m[c]}
      {
        ValueHasKey(m, v);
        var k :| k in m && m[k] == v;
        if k != c {
          assert rest[k] == v;
        }
      }
      assert m[c] !in rest.Values;
      assert m.Values == rest.Values + {m[c]};
    }
  }

  /** One cycle at `now`, seen from one existing row, when no call fails and
      every due row scans (`FaultFreeCycle` ties it to `CycleEffect`). The
      row-level lemmas below hold for such cycles only: a due row that fails
      to scan can stop a cycle before it reaches this row. */
  function AfterCycle(row: TaskRow, now: Instant): TaskRow {
    if IsDue(row, now) && Scans(row) then Rescheduled(row) else row
  }

  /** `k` fault-free cycles at the same `now`. */
  function Cycles(row: TaskRow, now: Instant, k: nat): TaskRow {
    if k == 0 then row else AfterCycle(Cycles(row, now, k - 1), now)
  }

  /** Each cycle advances a due parent by exactly one period, so a parent
      overdue by several periods stays due and catches up one period per
      cycle: if the `k`-th trigger time since the original is still not after
      `now`, then `k` cycles leave `next_run` exactly `k` periods after the
      original. */
  lemma {:induction false} CatchUp(row: TaskRow, now: Instant, k: nat)
    requires Scans(row) && row.recurrencePattern.Some? && row.nextRun.Some?
    requires row.recurrencePattern.value in {"daily", "weekly", "monthly"}
    requires k > 0 ==> NotAfter(Repeat(row.nextRun.value, row.recurrencePattern.value, k - 1), now)
    ensures Cycles(row, now, k) ==
      row.(nextRun := Some(Repeat(row.nextRun.value, row.recurrencePattern.value, k)))
  {
    if k > 0 {
      var p := row.recurrencePattern.value;
      var prevRun := Repeat(row.nextRun.value, p, k - 1);
      if k > 1 {
        var earlier := Repeat(row.nextRun.value, p, k - 2);
        assert prevRun == NextRun(earlier, p).value;
        BeforeIsStrictTotalOrder(earlier, prevRun, now);
      }
      CatchUp(row, now, k - 1);
      assert Cycles(row, now, k) == AfterCycle(row.(nextRun := Some(prevRun)), now);
      DueCycle(row.(nextRun := Some(prevRun)), now);
    }
  }

  /** A cycle at `now` advances a due, scannable row by one period. */
  lemma DueCycle(row: TaskRow, now: Instant)
    requires Scans(row) && IsDue(row, now)
    requires row.recurrencePattern.value in {"daily", "weekly", "monthly"}
    ensures AfterCycle(row, now) ==
      row.(nextRun := Some(NextRun(row.nextRun.value, row.recurrencePattern.value).value))
  {
  }

  /** Once `next_run` has passed `now`, further cycles at `now` leave the row
      alone. */
  lemma CaughtUp(row: TaskRow, now: Instant)
    requires row.nextRun.Some? && Before(now, row.nextRun.value)
    ensures AfterCycle(row, now) == row
  {
  }

  /** A daily task due yesterday at 09:00, processed at 09:05 today: the
      first cycle moves `next_run` to today 09:00, which is still not after
      09:05, so the next cycle clones it again and moves it to tomorrow
      09:00; from then on cycles at the same time leave it alone. */
  lemma DailyScenario(row: TaskRow)
    requires Scans(row) && row.recurrencePattern == Some("daily")
    requires row.nextRun == Some(DateTime(2026, 10, 10, 9, 0, 0, 0))
    ensures var now := DateTime(2026, 10, 11, 9, 5, 0, 0);
            && Cycles(row, now, 1).nextRun == Some(DateTime(2026, 10, 11, 9, 0, 0, 0))
            && IsDue(Cycles(row, now, 1), now)
            && Cycles(row, now, 2).nextRun == Some(DateTime(2026, 10, 12, 9, 0, 0, 0))
            && !IsDue(Cycles(row, now, 2), now)
            && Cycles(row, now, 3) == Cycles(row, now, 2)
  {
    var now: Instant := DateTime(2026, 10, 11, 9, 5, 0, 0);
    var d1: Instant := DateTime(2026, 10, 11, 9, 0, 0, 0);
    var d2: Instant := DateTime(2026, 10, 12, 9, 0, 0, 0);
    assert AddDate(row.nextRun.value, 0, 0, 1) == d1;
    assert AddDate(d1, 0, 0, 1) == d2;
    var once := row.(nextRun := Some(d1));
    var twice := row.(nextRun := Some(d2));
    assert Cycles(row, now, 1) == once by {
      assert Cycles(row, now, 0) == row;
      assert IsDue(row, now);
    }
    assert IsDue(once, now);
    assert Cycles(row, now, 2) == twice;
    CaughtUp(twice, now);
    assert Cycles(row, now, 3) == AfterCycle(twice, now);
  }

  /** The rows of the snapshot `rows` in `tasks`: the due ones in `handled`
      are rescheduled unless their update failed, the rest are untouched. */
  ghost predicate ParentsHandled(rows: map<int, TaskRow>, tasks: map<int, TaskRow>,
                                 handled: set<int>, now: Instant, faults: CycleFaults) {
    forall id :: id in rows ==>
      && id in tasks
      && tasks[id] == if id in handled && IsDue(rows[id], now) && id !in faults.reschedule
                      then Rescheduled(rows[id]) else rows[id]
  }

  /** The rows of `tasks` outside the snapshot are the clones of the handled
      parents whose insert succeeded, one each, as `origin` records. */
  ghost predicate ClonesRecorded(rows: map<int, TaskRow>, tasks: map<int, TaskRow>, origin: map<int, int>,
                                 handled: set<int>, now: Instant, faults: CycleFaults) {
    && origin.Keys == tasks.Keys - rows.Keys
    && origin.Values == handled - faults.insert
    && (forall c, c' :: c in origin && c' in origin && c != c' ==> origin[c] != origin[c'])
    && (forall c :: c in origin ==>
          && origin[c] in handled && origin[c] in rows
          && Scans(rows[origin[c]]) && IsDue(rows[origin[c]], now)
          && tasks[c] == CloneRow(ScanTask(origin[c], rows[origin[c]]), now))
  }

  /** The table part-way through a cycle over the snapshot `rows`, once the
      rows with keys `handled` have been cloned and rescheduled. */
  ghost predicate Progress(rows: map<int, TaskRow>, tasks: map<int, TaskRow>, origin: map<int, int>,
                           handled: set<int>, now: Instant, faults: CycleFaults) {
    && ParentsHandled(rows, tasks, handled, now, faults)
    && ClonesRecorded(rows, tasks, origin, handled, now, faults)
  }

  lemma ParentsStep(rows: map<int, TaskRow>, tasks: map<int, TaskRow>, updated: map<int, TaskRow>,
                    handled: set<int>, id: int, now: Instant, faults: CycleFaults)
    requires ParentsHandled(rows, tasks, handled, now, faults)
    requires id in rows && IsDue(rows[id], now)
    requires id in updated
    requires updated[id] == if id !in faults.reschedule then Rescheduled(rows[id]) else rows[id]
    requires forall r :: r in rows && r != id ==> r in updated && updated[r] == tasks[r]
    ensures ParentsHandled(rows, updated, handled + {id}, now, faults)
  {
  }

  /** A parent whose clone insert failed adds no clone. */
  lemma ClonesStepFailed(rows: map<int, TaskRow>, tasks: map<int, TaskRow>, updated: map<int, TaskRow>,
                         origin: map<int, int>, handled: set<int>, id: int, now: Instant,
                         faults: CycleFaults)
    requires ClonesRecorded(rows, tasks, origin, handled, now, faults)
    requires id in faults.insert
    requires updated.Keys == tasks.Keys
    requires forall k :: k in tasks && k !in rows ==> updated[k] == tasks[k]
    ensures ClonesRecorded(rows, updated, origin, handled + {id}, now, faults)
  {
  }

  /** A parent whose clone insert succeeded adds exactly one clone, under a
      fresh key. */
  lemma ClonesStepInserted(rows: map<int, TaskRow>, tasks: map<int, TaskRow>, updated: map<int, TaskRow>,
                           origin: map<int, int>, handled: set<int>, id: int, c: int, now: Instant,
                           faults: CycleFaults)
    requires ClonesRecorded(rows, tasks, origin, handled, now, faults)
    requires id in rows && id !in handled && id !in faults.insert
    requires Scans(rows[id]) && IsDue(rows[id], now)
    requires c !in tasks && c !in rows && updated.Keys == tasks.Keys + {c}
    requires forall k :: k in tasks && k !in rows ==> updated[k] == tasks[k]
    requires updated[c] == CloneRow(ScanTask(id, rows[id]), now)
    ensures ClonesRecorded(rows, updated, origin[c := id], handled + {id}, now, faults)
  {
    var origin' := origin[c := id];
    assert c !in origin;
    ValuesOfFreshKey(origin, c, id);
    assert origin'.Keys == updated.Keys - rows.Keys;
    assert id !in origin.Values;
    forall c1, c2 | c1 in origin' && c2 in origin' && c1 != c2
      ensures origin'[c1] != origin'[c2]
    {
      if c1 != c && c2 != c {
        assert origin'[c1] == origin[c1] && origin'[c2] == origin[c2];
      } else if c1 == c {
        assert origin[c2] in origin.Values;
      } else {
        assert origin[c1] in origin.Values;
      }
    }
  }

  /** Handling a due, scannable row: its clone insert (`tasks` to `inserted`)
      then its reschedule (`inserted` to `updated`), each of which may fail. */
  lemma ProgressStep(rows: map<int, TaskRow>, tasks: map<int, TaskRow>, inserted: map<int, TaskRow>,
                     updated: map<int, TaskRow>, origin: map<int, int>, handled: set<int>,
                     id: int, c: int, now: Instant, faults: CycleFaults)
    requires Progress(rows, tasks, origin, handled, now, faults)
    requires id in rows && id !in handled && IsDue(rows[id], now) && Scans(rows[id])
    requires id !in faults.insert ==> c !in tasks
    requires inserted == if id in faults.insert then tasks
                         else tasks[c := CloneRow(ScanTask(id, rows[id]), now)]
    requires var pattern := rows[id].recurrencePattern.value;
             updated == if id !in faults.reschedule && pattern in {"daily", "weekly", "monthly"} && id in inserted
                        then inserted[id := inserted[id].(nextRun := NextRun(rows[id].nextRun.value, pattern))]
                        else inserted
    ensures Progress(rows, updated, if id in faults.insert then origin else origin[c := id],
                     handled + {id}, now, faults)
  {
    assert id in tasks;
    assert c !in rows || id in faults.insert;
    assert inserted[id] == rows[id];
    ParentsStep(rows, tasks, updated, handled, id, now, faults);
    if id in faults.insert {
      ClonesStepFailed(rows, tasks, updated, origin, handled, id, now, faults);
    } else {
      ClonesStepInserted(rows, tasks, updated, origin, handled, id, c, now, faults);
    }
  }

  /** Once the loop has handled exactly the processed rows, the cycle's
      effect is complete. */
  lemma ProgressComplete(rows: map<int, TaskRow>, tasks: map<int, TaskRow>, origin: map<int, int>,
                         order: seq<int>, now: Instant, faults: CycleFaults)
    requires IsQueryResult(order, rows, now)
    requires Progress(rows, tasks, origin, Processed(rows, order, faults), now, faults)
    ensures CycleEffect(rows, tasks, origin, now, order, faults)
  {
  }

  /** The scheduler over the shared database. */
  class TaskScheduler {
    const db: Database

    constructor (db: Database)
      ensures this.db == db
    {
      this.db := db;
    }

    /** `ProcessRecurringTasks`: one cycle at `now`, in which the due query
        returns its rows in the order `order`. A failed due query changes
        nothing; otherwise the delivered rows are handled one by one until
        the first that fails to scan, and each one's clone and reschedule
        succeed or fail independently. */
    method ProcessRecurringTasks(now: Instant, order: seq<int>, faults: CycleFaults)
      returns (ghost origin: map<int, int>)
      requires db.Valid()
      requires IsQueryResult(order, db.tasks, now)
      modifies db
      ensures db.Valid()
      ensures db.subtasks == old(db.subtasks)
      ensures faults.query.Some? ==> unchanged(db)
      ensures faults.query.None? ==> CycleEffect(old(db.tasks), db.tasks, origin, now, order, faults)
    {
      origin := map[];
      if faults.query.Some? {
        return;
      }
      var rows := db.tasks;
      var delivered := Delivered(order, faults.streamCut);
      DeliveredRows(order, rows, now, faults.streamCut);
      ghost var handled: set<int> := {};
      var i := 0;
      while i < |delivered|
        invariant db.Valid()
        invariant db.subtasks == old(db.subtasks)
        invariant rows == old(db.tasks)
        invariant i <= |delivered|
        invariant forall j :: 0 <= j < i ==> Scans(rows[delivered[j]])
        invariant handled == Elements(delivered[..i])
        invariant Progress(rows, db.tasks, origin, handled, now, faults)
      {
        var id := delivered[i];
        var row := rows[id];
        if !Scans(row) {
          // pgx has closed the result set: the next `rows.Next()` is false
          break;
        }
        ElementsStep(delivered, i);
        var t := ScanTask(id, row);
        ghost var tasks := db.tasks;
        ghost var c := CreateNextInstance(t, now, id in faults.insert);
        ghost var inserted := db.tasks;
        UpdateNextRun(t, id in faults.reschedule);
        ProgressStep(rows, tasks, inserted, db.tasks, origin, handled, id, c, now, faults);
        if id !in faults.insert {
          origin := origin[c := id];
        }
        handled := handled + {id};
        i := i + 1;
      }
      HandledIsPrefix(rows, delivered, i);
      ProgressComplete(rows, db.tasks, origin, order, now, faults);
    }

    /** `createNextInstance`: inserts the pending clone of `parent` unless
        the insert fails; `id` is the key the clone received. */
    method CreateNextInstance(parent: Task, now: Instant, fail: bool) returns (ghost id: int)
      requires db.Valid()
      modifies db
      ensures db.Valid()
      ensures db.subtasks == old(db.subtasks)
      ensures fail ==> unchanged(db)
      ensures !fail ==> id !in old(db.tasks) && db.tasks == old(db.tasks)[id := CloneRow(parent, now)]
    {
      id := 0;
      if fail {
        return;
      }
      id := db.InsertTask(CloneRow(parent, now));
    }

    /** `updateNextRun`: for a known pattern, sets `next_run` of the row with
        the task's key (if any) to one period after the task's old
        `next_run`; an unknown pattern issues no write. */
    method UpdateNextRun(t: Task, fail: bool)
      requires db.Valid()
      requires t.recurrencePattern in {"daily", "weekly", "monthly"} ==> t.nextRun.Some?
      modifies db
      ensures db.Valid()
      ensures db.subtasks == old(db.subtasks)
      ensures (fail || t.recurrencePattern !in {"daily", "weekly", "monthly"} || t.id !in old(db.tasks))
                ==> unchanged(db)
      ensures !fail && t.recurrencePattern in {"daily", "weekly", "monthly"} && t.id in old(db.tasks) ==>
                db.tasks == old(db.tasks)[t.id := old(db.tasks)[t.id].(nextRun := NextRun(t.nextRun.value, t.recurrencePattern))]
    {
      if t.recurrencePattern !in {"daily", "weekly", "monthly"} {
        return;
      }
      var next := NextRun(t.nextRun.value, t.recurrencePattern);
      if fail || t.id !in db.tasks {
        return;
      }
      db.tasks := db.tasks[t.id := db.tasks[t.id].(nextRun := next)];
    }
  }
}
