/**
 * `calculate_work_schedule`: the day-by-day work plan for the next
 * `daysAhead` days starting at `today`. The methods follow the source's
 * loops (a dictionary of per-day lists that pass 1 appends to and pass 2
 * rewrites); each is proved to compute the functional description in
 * `Distribution` and `Capping`, and the lemmas at the end state what the
 * plan promises.
 */
module Scheduler {
  import opened Wrappers
  import opened Rounding
  import opened Tasks
  import opened Distribution
  import opened Capping
  import opened DayLists

  /** The schedule: each date of the horizon mapped to that day's entries. */
  type Schedule = map<Day, seq<Assignment>>

  /** `s` has an entry for exactly the dates `today + 0 ... today + n - 1`. */
  ghost predicate Covers(s: Schedule, today: Day, n: nat)
  {
    forall d :: d in s <==> today <= d < today + n
  }

  /** Pass 1's list for date `d` of the horizon that starts at `today`, once the first `k` tasks are distributed. */
  function ListAfter(tasks: seq<Task>, today: Day, n: nat, d: Day, k: nat): seq<Assignment>
    requires today <= d < today + n && k <= |tasks|
  {
    DayList(tasks, Slots(tasks, today, n, d - today), k)
  }

  /** Pass 1's lists: for each date of the horizon, the entries every task contributes to it. */
  function PassOne(tasks: seq<Task>, today: Day, n: nat): (lists: Schedule)
    ensures Covers(lists, today, n)
  {
    map d | today <= d < today + n :: ListOn(tasks, today, n, d)
  }

  /** Every entry of every day belongs to a task whose due date can be looked up. */
  predicate KnownTasks(lists: Schedule, dueOf: map<TaskId, Day>)
  {
    forall d :: d in lists ==> KnownIds(lists[d], dueOf)
  }

  /** Pass 2: every day's list capped on its own. */
  function CapAll(lists: Schedule, dueOf: map<TaskId, Day>): (s: Schedule)
    requires KnownTasks(lists, dueOf)
    ensures s.Keys == lists.Keys
  {
    map d | d in lists :: CappedDay(lists[d], dueOf)
  }

  /** What `calculate_work_schedule` returns: pass 1, then every day capped by pass 2. */
  function WorkSchedule(tasks: seq<Task>, daysAhead: int, today: Day, dueOf: map<TaskId, Day>): (s: Schedule)
    requires Ids(tasks) <= dueOf.Keys
    ensures Covers(s, today, Horizon(daysAhead))
  {
    var lists := PassOne(tasks, today, Horizon(daysAhead));
    DayListsKnown(lists, tasks, today, Horizon(daysAhead), dueOf);
    CapAll(lists, dueOf)
  }

  /**
   * Lines 106-209. The task list, the current date and the lookup of a
   * task's due date by id are parameters; every listed task's id must be
   * known to the lookup.
   */
  method CalculateWorkSchedule(tasks: seq<Task>, daysAhead: int, today: Day, dueOf: map<TaskId, Day>)
    returns (schedule: Schedule)
    requires Ids(tasks) <= dueOf.Keys
    ensures schedule == WorkSchedule(tasks, daysAhead, today, dueOf)
  {
    var n := Horizon(daysAhead);
    schedule := map[];
    for i := 0 to n
      invariant Covers(schedule, today, i)
      invariant forall d :: d in schedule ==> schedule[d] == []
    {
      schedule := schedule[today + i := []];
    }

    // Pass 1: distribute each task over the days up to its due date.
    for k := 0 to |tasks|
      invariant Covers(schedule, today, n)
      invariant forall d :: d in schedule ==> schedule[d] == ListAfter(tasks, today, n, d, k)
    {
      ghost var before := schedule;
      schedule := DistributeTask(schedule, tasks[k], today, daysAhead);
      DayListsExtended(before, schedule, tasks, k, today, n);
    }
    assert schedule == PassOne(tasks, today, n);

    // Pass 2: cap every day at five hours.
    ghost var lists := schedule;
    DayListsKnown(lists, tasks, today, n, dueOf);
    schedule := CapDays(schedule, today, n, dueOf);
    CappedEveryDay(schedule, lists, dueOf, today, n);
  }

  /**
   * Lines 188-207: every day of the horizon is capped on its own, so the
   * order in which the days are visited does not matter.
   */
  method CapDays(lists: Schedule, today: Day, n: nat, dueOf: map<TaskId, Day>) returns (schedule: Schedule)
    requires Covers(lists, today, n)
    requires KnownTasks(lists, dueOf)
    ensures CappedBefore(schedule, lists, dueOf, today + n)
  {
    schedule := lists;
    CappedNothing(lists, dueOf, today, n);
    for i := 0 to n
      invariant CappedBefore(schedule, lists, dueOf, today + i)
    {
      var date := today + i;
      CapDayReady(schedule, lists, dueOf, today, n, date);
      var capped := CapDay(schedule[date], dueOf);
      CappedOneMore(schedule, lists, dueOf, date, capped);
      schedule := schedule[date := capped];
    }
  }

  /**
   * `schedule` holds the days of `lists` before `bound` capped and the
   * others as they are.
   */
  ghost predicate CappedBefore(schedule: Schedule, lists: Schedule, dueOf: map<TaskId, Day>, bound: Day)
    requires KnownTasks(lists, dueOf)
  {
    && schedule.Keys == lists.Keys
    && forall d :: d in schedule ==> schedule[d] == if d < bound then CappedDay(lists[d], dueOf) else lists[d]
  }

  lemma CappedNothing(lists: Schedule, dueOf: map<TaskId, Day>, today: Day, n: nat)
    requires Covers(lists, today, n) && KnownTasks(lists, dueOf)
    ensures CappedBefore(lists, lists, dueOf, today)
  {
  }

  /** The day about to be capped is still pass 1's list, so its tasks are known. */
  lemma CapDayReady(schedule: Schedule, lists: Schedule, dueOf: map<TaskId, Day>, today: Day, n: nat, date: Day)
    requires Covers(lists, today, n) && KnownTasks(lists, dueOf)
    requires today <= date < today + n && CappedBefore(schedule, lists, dueOf, date)
    ensures date in schedule && schedule[date] == lists[date]
    ensures KnownIds(schedule[date], dueOf)
  {
  }

  /** Capping the day at `bound` moves the bound one day on. */
  lemma CappedOneMore(schedule: Schedule, lists: Schedule, dueOf: map<TaskId, Day>, bound: Day, capped: seq<Assignment>)
    requires KnownTasks(lists, dueOf) && CappedBefore(schedule, lists, dueOf, bound) && bound in lists
    requires capped == CappedDay(lists[bound], dueOf)
    ensures CappedBefore(schedule[bound := capped], lists, dueOf, bound + 1)
  {
    var next := schedule[bound := capped];
    forall d | d in next
      ensures next[d] == if d < bound + 1 then CappedDay(lists[d], dueOf) else lists[d]
    {
      if d != bound {
        assert next[d] == schedule[d];
      }
    }
  }

  /** A schedule that holds every day of `lists` capped is `CapAll(lists)`. */
  lemma CappedEveryDay(schedule: Schedule, lists: Schedule, dueOf: map<TaskId, Day>, today: Day, n: nat)
    requires Covers(lists, today, n) && KnownTasks(lists, dueOf)
    requires CappedBefore(schedule, lists, dueOf, today + n)
    ensures schedule == CapAll(lists, dueOf)
  {
    var capped := CapAll(lists, dueOf);
    assert forall d :: d in schedule ==> schedule[d] == capped[d];
  }

  /** Distributing the next task extends the pass-1 lists by that task's row. */
  lemma DayListsExtended(before: Schedule, after: Schedule, tasks: seq<Task>, k: nat, today: Day, n: nat)
    requires k < |tasks| && Covers(before, today, n) && after.Keys == before.Keys
    requires forall d :: d in before ==> before[d] == ListAfter(tasks, today, n, d, k)
    requires Appended(after, before, tasks[k], TaskRow(tasks[k], today, n), today)
    ensures forall d :: d in after ==> after[d] == ListAfter(tasks, today, n, d, k + 1)
  {
    forall d | d in after
      ensures after[d] == ListAfter(tasks, today, n, d, k + 1)
    {
      ListAfterStep(tasks, k, today, n, d);
    }
  }

  /** The list for one date, before and after the next task is distributed. */
  lemma ListAfterStep(tasks: seq<Task>, k: nat, today: Day, n: nat, d: Day)
    requires k < |tasks| && today <= d < today + n
    ensures ListAfter(tasks, today, n, d, k + 1) == ListAfter(tasks, today, n, d, k) + Entry(tasks[k], TaskRow(tasks[k], today, n)[d - today])
  {
    SlotsAt(tasks, today, n, d - today, k);
  }

  /** Every entry pass 1 puts on a day belongs to a task whose due date can be looked up. */
  lemma DayListsKnown(lists: Schedule, tasks: seq<Task>, today: Day, n: nat, dueOf: map<TaskId, Day>)
    requires Ids(tasks) <= dueOf.Keys && Covers(lists, today, n)
    requires forall d :: d in lists ==> lists[d] == ListOn(tasks, today, n, d)
    ensures KnownTasks(lists, dueOf)
  {
    forall d | d in lists
      ensures KnownIds(lists[d], dueOf)
    {
      SlotsNonNegative(tasks, today, n, d - today);
      DayListEntries(tasks, Slots(tasks, today, n, d - today), |tasks|);
    }
  }

  /** `after` is `before` with task `t`'s entry for each day of `row` appended to that day's list. */
  ghost predicate Appended(after: Schedule, before: Schedule, t: Task, row: seq<Option<int>>, today: Day)
  {
    && after.Keys == before.Keys
    && forall d :: d in after ==> today <= d < today + |row| && after[d] == before[d] + Entry(t, row[d - today])
  }

  /**
   * `result` is `schedule` after the per-day walk has visited the first `m`
   * days of `row`: each visited day has the task's entry for that day
   * appended, and every other day is as it was.
   */
  ghost predicate AppendedUpTo(result: Schedule, schedule: Schedule, t: Task, row: seq<Option<int>>, today: Day, m: nat)
  {
    && m <= |row| && result.Keys == schedule.Keys
    && forall d :: d in result ==>
         if today <= d < today + m then result[d] == schedule[d] + Entry(t, row[d - today]) else result[d] == schedule[d]
  }

  /** Appending an empty entry leaves a day's list as it is. */
  lemma AppendNothing(day: seq<Assignment>, t: Task)
    ensures day + Entry(t, None) == day
  {
    assert day + [] == day;
  }

  /**
   * For a task due within the horizon, appending its walk day by day
   * appends its row.
   */
  lemma SpreadAppended(result: Schedule, schedule: Schedule, t: Task, row: seq<Option<int>>, today: Day, n: nat, daily: int)
    requires Eligible(t) && 1 <= DaysUntilDue(t, today) <= n && daily == DailyHalves(Remaining(t), DaysUntilDue(t, today))
    requires row == Spread(2.0 * Remaining(t), daily, today, 0, DaysUntilDue(t, today), 0)
    requires Covers(schedule, today, n)
    requires AppendedUpTo(result, schedule, t, row, today, |row|)
    ensures Appended(result, schedule, t, TaskRow(t, today, n), today)
  {
    TaskRowSpreads(t, today, n, 2.0 * Remaining(t), daily, DaysUntilDue(t, today));
    RowAppended(result, schedule, t, row, TaskRow(t, today, n), today, n);
  }

  /** Appending a row's amounts day by day appends, to every day, that day's entry of the row padded with empty days. */
  lemma RowAppended(result: Schedule, schedule: Schedule, t: Task, row: seq<Option<int>>, full: seq<Option<int>>, today: Day, n: nat)
    requires |row| <= n && full == row + Nones(n - |row|)
    requires Covers(schedule, today, n)
    requires AppendedUpTo(result, schedule, t, row, today, |row|)
    ensures Appended(result, schedule, t, full, today)
  {
    ExtendedRow(full, row, n);
    forall d | d in result
      ensures today <= d < today + |full| && result[d] == schedule[d] + Entry(t, full[d - today])
    {
      var i := d - today;
      if i < |row| {
        assert full[i] == row[i];
      } else {
        assert full[i] == None;
        AppendNothing(schedule[d], t);
      }
    }
    AppendedIntro(result, schedule, t, full, today);
  }

  lemma AppendedIntro(after: Schedule, before: Schedule, t: Task, row: seq<Option<int>>, today: Day)
    requires after.Keys == before.Keys
    requires forall d :: d in after ==> today <= d < today + |row| && after[d] == before[d] + Entry(t, row[d - today])
    ensures Appended(after, before, t, row, today)
  {
  }

  lemma DropOne(row: seq<Option<int>>, i: nat)
    requires i < |row|
    ensures row[i..][0] == row[i] && row[i..][1..] == row[i + 1..]
  {
  }

  lemma NonesFrom(row: seq<Option<int>>, i: nat)
    requires i <= |row| && row[i..] == Nones(|row| - i)
    ensures forall j :: i <= j < |row| ==> row[j] == None
  {
    forall j | i <= j < |row|
      ensures row[j] == None
    {
      assert row[j] == row[i..][j - i];
    }
  }

  /**
   * Lines 122-186 for one task: append its entries to the lists of the days
   * its row has an amount for, and to no other.
   */
  method DistributeTask(schedule: Schedule, t: Task, today: Day, daysAhead: int) returns (result: Schedule)
    requires Covers(schedule, today, Horizon(daysAhead))
    ensures Appended(result, schedule, t, TaskRow(t, today, Horizon(daysAhead)), today)
  {
    result := schedule;
    if t.status == Completed {
      NothingAppended(schedule, t, today, Horizon(daysAhead));
      return;
    }
    var remaining := Remaining(t);
    if remaining <= 0.0 {
      NothingAppended(schedule, t, today, Horizon(daysAhead));
      return;
    }
    var daysUntilDue := DaysUntilDue(t, today);
    if daysUntilDue <= 0 {
      if today in result {
        result := result[today := result[today] + [Assignment(t.id, t.title, ToHalves(remaining))]];
      }
      OverdueAppended(result, schedule, t, today, Horizon(daysAhead));
      return;
    }
    if daysUntilDue <= daysAhead {
      // Amounts are kept in half hours: `daily` is `daily_hours * 2`.
      var daily := DailyHalves(remaining, daysUntilDue);
      ghost var row := Spread(2.0 * remaining, daily, today, 0, daysUntilDue, 0);
      result := SpreadTask(result, t, today, remaining, daily, daysUntilDue);
      SpreadAppended(result, schedule, t, row, today, Horizon(daysAhead), daily);
    } else {
      NothingAppended(schedule, t, today, Horizon(daysAhead));
    }
  }

  /** A task that gets nothing on any day leaves every list as it was. */
  lemma NothingAppended(schedule: Schedule, t: Task, today: Day, n: nat)
    requires Covers(schedule, today, n)
    requires !Eligible(t) || DaysUntilDue(t, today) > n
    ensures Appended(schedule, schedule, t, TaskRow(t, today, n), today)
  {
    TaskRowUnscheduled(t, today, n);
  }

  /** An overdue task's entry goes on today's list and on no other. */
  lemma OverdueAppended(result: Schedule, schedule: Schedule, t: Task, today: Day, n: nat)
    requires Covers(schedule, today, n)
    requires Eligible(t) && DaysUntilDue(t, today) <= 0
    requires result == if today in schedule then schedule[today := schedule[today] + [Assignment(t.id, t.title, ToHalves(Remaining(t)))]] else schedule
    ensures Appended(result, schedule, t, TaskRow(t, today, n), today)
  {
    if n >= 1 {
      TaskRowOverdue(t, today, n);
    }
  }

  /**
   * The state of `SpreadTask`'s loop after `i` days: what is left of the
   * row is the walk from day `i` with `alloc` granted, and the days before
   * have had their entries appended.
   */
  ghost predicate Walked(schedule: Schedule, t: Task, row: seq<Option<int>>, today: Day, rem2: real, daily: int,
                         i: nat, alloc: int, result: Schedule)
  {
    && daily >= 1 && i <= |row|
    && row[i..] == Spread(rem2, daily, today, i, |row|, alloc)
    && AppendedUpTo(result, schedule, t, row, today, i)
  }

  /** Once the remaining effort is reached, the rest of the walk appends nothing. */
  lemma SpreadTaskStops(schedule: Schedule, t: Task, row: seq<Option<int>>, today: Day, rem2: real, daily: int, i: nat,
                        alloc: int, result: Schedule)
    requires Walked(schedule, t, row, today, rem2, daily, i, alloc, result) && alloc as real >= rem2
    ensures AppendedUpTo(result, schedule, t, row, today, |row|)
  {
    SpreadDone(rem2, daily, today, i, |row|, alloc);
    NonesFrom(row, i);
    forall d | d in result && today + i <= d < today + |row|
      ensures result[d] == schedule[d] + Entry(t, row[d - today])
    {
      assert row[d - today] == None;
      AppendNothing(schedule[d], t);
    }
  }

  /** One day of `SpreadTask`'s loop keeps its invariant. */
  lemma SpreadTaskStep(schedule: Schedule, t: Task, row: seq<Option<int>>, today: Day, rem2: real, daily: int, i: nat,
                       alloc: int, result: Schedule, h: int, alloc': int, result': Schedule)
    requires Walked(schedule, t, row, today, rem2, daily, i, alloc, result)
    requires i < |row| && alloc as real < rem2 && today + i in result
    requires h == RoundHalfEven(RealMin(AdjustedHalves(daily, today + i) as real, rem2 - alloc as real))
    requires result' == if h > 0 then result[today + i := result[today + i] + [Assignment(t.id, t.title, h)]] else result
    requires alloc' == if h > 0 then alloc + h else alloc
    ensures Walked(schedule, t, row, today, rem2, daily, i + 1, alloc', result')
  {
    SpreadStep(rem2, daily, today, i, |row|, alloc, h, alloc');
    DropOne(row, i);
    var d := today + i;
    assert result'.Keys == result.Keys;
    if h <= 0 {
      assert row[i] == None;
      AppendNothing(schedule[d], t);
    }
  }

  /**
   * Lines 159-186: walk the days from today through the due date, appending
   * the task's share of each day until its remaining effort (`remaining`
   * hours, `daily` half hours a day) is used up.
   */
  method SpreadTask(schedule: Schedule, t: Task, today: Day, remaining: real, daily: int, daysUntilDue: int)
    returns (result: Schedule)
    requires daily >= 1 && daysUntilDue >= 1
    requires forall d :: today <= d < today + daysUntilDue ==> d in schedule
    ensures AppendedUpTo(result, schedule, t, Spread(2.0 * remaining, daily, today, 0, daysUntilDue, 0), today, daysUntilDue)
  {
    result := schedule;
    var totalAllocated := 0;
    ghost var rem2 := 2.0 * remaining;
    ghost var row := Spread(rem2, daily, today, 0, daysUntilDue, 0);
    for i := 0 to daysUntilDue
      invariant Walked(schedule, t, row, today, rem2, daily, i, totalAllocated, result)
    {
      var current := today + i;
      if totalAllocated as real >= 2.0 * remaining {
        SpreadTaskStops(schedule, t, row, today, rem2, daily, i, totalAllocated, result);
        break;
      }
      var adjusted := AdjustedHalves(daily, current);
      var hoursToday := RoundHalfEven(RealMin(adjusted as real, 2.0 * remaining - totalAllocated as real));
      ghost var before, allocBefore := result, totalAllocated;
      assert current in result;
      if hoursToday > 0 && current in result {
        result := result[current := result[current] + [Assignment(t.id, t.title, hoursToday)]];
        totalAllocated := totalAllocated + hoursToday;
      }
      SpreadTaskStep(schedule, t, row, today, rem2, daily, i, allocBefore, before, hoursToday, totalAllocated, result);
    }
  }

  /** Lines 189-207 for one day: sum it, and if it exceeds five hours walk it in due-date order. */
  method CapDay(day: seq<Assignment>, dueOf: map<TaskId, Day>) returns (capped: seq<Assignment>)
    requires KnownIds(day, dueOf)
    ensures capped == CappedDay(day, dueOf)
  {
    var totalHours := SumHalves(day);
    capped := day;
    if totalHours > DailyCapHalves {
      var order := StableOrder(DueKeys(day, dueOf), |day|);
      assert forall q :: 0 <= q < |order| ==> order[q] in order;
      capped := WalkDay(day, order);
    }
  }

  /** Line 190: the day's total, in half hours. */
  method SumHalves(day: seq<Assignment>) returns (total: int)
    ensures total == Total(day)
  {
    total := 0;
    for j := 0 to |day|
      invariant total == TotalTo(day, j)
    {
      total := total + day[j].halves;
    }
  }

  /**
   * Lines 196-207: serve the entries in the order given, each cut to what
   * is left of the cap, or to nothing once the cap is used up.
   */
  method WalkDay(day: seq<Assignment>, order: seq<int>) returns (capped: seq<Assignment>)
    requires forall q :: 0 <= q < |order| ==> 0 <= order[q] < |day|
    ensures capped == Walk(day, order, 0, 0)
  {
    capped := day;
    var totalAllocated := 0;
    for p := 0 to |order|
      invariant |capped| == |day|
      invariant Walk(capped, order, p, totalAllocated) == Walk(day, order, 0, 0)
    {
      ghost var before, grantedBefore := capped, totalAllocated;
      var k := order[p];
      var remaining := DailyCapHalves - totalAllocated;
      if remaining <= 0 {
        capped := capped[k := capped[k].(halves := 0)];
      } else {
        capped := capped[k := capped[k].(halves := Min(capped[k].halves, remaining))];
        totalAllocated := totalAllocated + capped[k].halves;
      }
      WalkStep(before, order, p, grantedBefore, totalAllocated - grantedBefore, capped);
    }
  }

  // ----- What the schedule promises -----

  /** Date `d` of the horizon holds pass 1's list for `d`, capped; that list names only known tasks. */
  lemma PlanAt(tasks: seq<Task>, daysAhead: int, today: Day, dueOf: map<TaskId, Day>, d: Day)
    requires Ids(tasks) <= dueOf.Keys && today <= d < today + Horizon(daysAhead)
    ensures KnownIds(ListOn(tasks, today, Horizon(daysAhead), d), dueOf) && NonNegative(ListOn(tasks, today, Horizon(daysAhead), d))
    ensures WorkSchedule(tasks, daysAhead, today, dueOf)[d] == CappedDay(ListOn(tasks, today, Horizon(daysAhead), d), dueOf)
  {
    var n := Horizon(daysAhead);
    var lists := PassOne(tasks, today, n);
    SlotsNonNegative(tasks, today, n, d - today);
    DayListEntries(tasks, Slots(tasks, today, n, d - today), |tasks|);
    DayListsKnown(lists, tasks, today, n, dueOf);
    assert lists[d] == ListOn(tasks, today, n, d);
  }

  /**
   * No day of the plan holds more than five hours: a day keeps its pass-1
   * total when that is at most five hours and is cut to exactly five
   * otherwise; every entry stays in place, and none gains hours or goes
   * below zero.
   */
  lemma DailyLimitRespected(tasks: seq<Task>, daysAhead: int, today: Day, dueOf: map<TaskId, Day>, d: Day)
    requires Ids(tasks) <= dueOf.Keys && today <= d < today + Horizon(daysAhead)
    ensures var day := WorkSchedule(tasks, daysAhead, today, dueOf)[d];
      var list := ListOn(tasks, today, Horizon(daysAhead), d);
      && Total(day) == Min(DailyCapHalves, Total(list))
      && |day| == |list|
      && forall j :: 0 <= j < |day| ==> day[j].taskId == list[j].taskId && 0 <= day[j].halves <= list[j].halves
  {
    var list := ListOn(tasks, today, Horizon(daysAhead), d);
    PlanAt(tasks, daysAhead, today, dueOf, d);
    CapMeetsLimit(list, dueOf);
    CapNeverRaises(list, dueOf);
  }

  /**
   * A task that is completed, has no effort left, or is due beyond the
   * horizon appears on no day of the plan.
   */
  lemma UnscheduledTaskNeverAppears(tasks: seq<Task>, daysAhead: int, today: Day, dueOf: map<TaskId, Day>, k: nat)
    requires Ids(tasks) <= dueOf.Keys && UniqueIds(tasks) && k < |tasks|
    requires !Eligible(tasks[k]) || DaysUntilDue(tasks[k], today) > Horizon(daysAhead)
    ensures forall d, j :: d in WorkSchedule(tasks, daysAhead, today, dueOf) && 0 <= j < |WorkSchedule(tasks, daysAhead, today, dueOf)[d]| ==>
      WorkSchedule(tasks, daysAhead, today, dueOf)[d][j].taskId != tasks[k].id
  {
    var plan: Schedule := WorkSchedule(tasks, daysAhead, today, dueOf);
    forall d: Day | d in plan
      ensures Unlisted(plan[d], tasks[k].id)
    {
      UnscheduledOnDay(tasks, daysAhead, today, dueOf, k, d);
    }
  }

  lemma UnscheduledOnDay(tasks: seq<Task>, daysAhead: int, today: Day, dueOf: map<TaskId, Day>, k: nat, d: Day)
    requires Ids(tasks) <= dueOf.Keys && UniqueIds(tasks) && k < |tasks|
    requires !Eligible(tasks[k]) || DaysUntilDue(tasks[k], today) > Horizon(daysAhead)
    requires today <= d < today + Horizon(daysAhead)
    ensures Unlisted(WorkSchedule(tasks, daysAhead, today, dueOf)[d], tasks[k].id)
  {
    PlanAt(tasks, daysAhead, today, dueOf, d);
    UnscheduledTaskAbsent(tasks, today, Horizon(daysAhead), k, d);
    CapKeepsUnlisted(ListOn(tasks, today, Horizon(daysAhead), d), dueOf, tasks[k].id);
  }

  /**
   * Every entry of the plan belongs to a task that is not completed and has
   * effort left, and falls on or before the task's due date, except that
   * an overdue task's entry falls today.
   */
  lemma NoWorkAfterDue(tasks: seq<Task>, daysAhead: int, today: Day, dueOf: map<TaskId, Day>, k: nat, d: Day, j: nat)
    requires Ids(tasks) <= dueOf.Keys && UniqueIds(tasks) && k < |tasks|
    requires today <= d < today + Horizon(daysAhead)
    requires j < |WorkSchedule(tasks, daysAhead, today, dueOf)[d]|
    ensures WorkSchedule(tasks, daysAhead, today, dueOf)[d][j].taskId == tasks[k].id ==>
      Eligible(tasks[k]) && (d <= tasks[k].due || (d == today && tasks[k].due < today))
  {
    PlanAt(tasks, daysAhead, today, dueOf, d);
    CappedEntry(ListOn(tasks, today, Horizon(daysAhead), d), dueOf, j);
    EntryWithinDue(tasks, today, Horizon(daysAhead), d, j, k);
  }

  /** The due-date lookup used by the sort at line 195 agrees with the tasks' own due dates. */
  predicate DueDatesAgree(tasks: seq<Task>, dueOf: map<TaskId, Day>)
  {
    forall i :: 0 <= i < |tasks| ==> tasks[i].id in dueOf && dueOf[tasks[i].id] == tasks[i].due
  }

  /** The priority rule of one capped day, stated with the due dates of the tasks behind two entries. */
  lemma CapServesByDueDate(day: seq<Assignment>, dueOf: map<TaskId, Day>, tasks: seq<Task>, a: nat, b: nat, j: nat, k: nat)
    requires KnownIds(day, dueOf) && DueDatesAgree(tasks, dueOf)
    requires a < |tasks| && b < |tasks| && j < |day| && k < |day|
    requires day[j].taskId == tasks[a].id && day[k].taskId == tasks[b].id
    requires tasks[a].due < tasks[b].due || (tasks[a].due == tasks[b].due && j < k)
    requires CappedDay(day, dueOf)[k].halves > 0
    ensures CappedDay(day, dueOf)[j].halves == day[j].halves
  {
    assert Before(DueKeys(day, dueOf), j, k);
    CapServesEarliestDueFirst(day, dueOf, j, k);
  }

  /**
   * On every day of the plan, an entry keeps hours only if each entry of a
   * task due earlier, or due the same day and earlier in the task list,
   * keeps all of the hours pass 1 gave it.
   */
  lemma PlanServesEarliestDueFirst(tasks: seq<Task>, daysAhead: int, today: Day, dueOf: map<TaskId, Day>,
                                   d: Day, a: nat, b: nat, j: nat, k: nat)
    requires Ids(tasks) <= dueOf.Keys && DueDatesAgree(tasks, dueOf) && UniqueIds(tasks)
    requires today <= d < today + Horizon(daysAhead) && a < |tasks| && b < |tasks|
    requires j < |WorkSchedule(tasks, daysAhead, today, dueOf)[d]| && k < |WorkSchedule(tasks, daysAhead, today, dueOf)[d]|
    requires WorkSchedule(tasks, daysAhead, today, dueOf)[d][j].taskId == tasks[a].id
    requires WorkSchedule(tasks, daysAhead, today, dueOf)[d][k].taskId == tasks[b].id
    requires tasks[a].due < tasks[b].due || (tasks[a].due == tasks[b].due && a < b)
    requires WorkSchedule(tasks, daysAhead, today, dueOf)[d][k].halves > 0
    ensures j < |ListOn(tasks, today, Horizon(daysAhead), d)| &&
      WorkSchedule(tasks, daysAhead, today, dueOf)[d][j].halves == ListOn(tasks, today, Horizon(daysAhead), d)[j].halves
  {
    PlanAt(tasks, daysAhead, today, dueOf, d);
    CappedEntry(ListOn(tasks, today, Horizon(daysAhead), d), dueOf, j);
    CappedEntry(ListOn(tasks, today, Horizon(daysAhead), d), dueOf, k);
    ListOnInTaskOrder(tasks, today, Horizon(daysAhead), d, j, k, a, b);
    CapServesByDueDate(ListOn(tasks, today, Horizon(daysAhead), d), dueOf, tasks, a, b, j, k);
  }

  /** A task due before today appears on today's plan, and on no other day. */
  lemma OverdueTaskScheduledToday(tasks: seq<Task>, daysAhead: int, today: Day, dueOf: map<TaskId, Day>, k: nat)
    requires Ids(tasks) <= dueOf.Keys && UniqueIds(tasks) && k < |tasks| && daysAhead >= 1
    requires Eligible(tasks[k]) && tasks[k].due < today
    ensures exists j :: (0 <= j < |WorkSchedule(tasks, daysAhead, today, dueOf)[today]| &&
                         WorkSchedule(tasks, daysAhead, today, dueOf)[today][j].taskId == tasks[k].id)
    ensures forall d, j :: d in WorkSchedule(tasks, daysAhead, today, dueOf) && d != today && 0 <= j < |WorkSchedule(tasks, daysAhead, today, dueOf)[d]| ==>
      WorkSchedule(tasks, daysAhead, today, dueOf)[d][j].taskId != tasks[k].id
  {
    var n := Horizon(daysAhead);
    var plan: Schedule := WorkSchedule(tasks, daysAhead, today, dueOf);
    var list := ListOn(tasks, today, n, today);
    PlanAt(tasks, daysAhead, today, dueOf, today);
    OverdueLandsToday(tasks, today, n, k);
    var j :| 0 <= j < |list| && list[j] == Assignment(tasks[k].id, tasks[k].title, ToHalves(Remaining(tasks[k])));
    assert plan[today][j].taskId == tasks[k].id;
    forall d: Day, j: int | d in plan && d != today && 0 <= j < |plan[d]|
      ensures plan[d][j].taskId != tasks[k].id
    {
      NoWorkAfterDue(tasks, daysAhead, today, dueOf, k, d, j);
    }
  }

  /** Without tasks, every day of the horizon is planned empty. */
  lemma NoTasksNoWork(daysAhead: int, today: Day, dueOf: map<TaskId, Day>)
    ensures forall d :: d in WorkSchedule([], daysAhead, today, dueOf) ==> WorkSchedule([], daysAhead, today, dueOf)[d] == []
  {
    forall d | d in WorkSchedule([], daysAhead, today, dueOf)
      ensures WorkSchedule([], daysAhead, today, dueOf)[d] == []
    {
      PlanAt([], daysAhead, today, dueOf, d);
    }
  }
}
