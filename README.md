# Task scheduler: the work-schedule planner

This project models the planning core of a small Flask task scheduler (`flask_task_scheduler/app.py`).

Each task has four relevant fields:
- a due date;
- an estimated number of hours;
- the hours already completed;
- a status.

`calculate_work_schedule` turns the open tasks into a plan for the next `days_ahead` days. Each day of the plan lists the tasks to work on and the suggested hours.

**Pass 1** walks the tasks in store order:
- A task that is completed, or has no effort left, is skipped.
- A task whose due date has passed gets all its remaining effort today, rounded to the half hour.
- A task due within the horizon gets a daily share:
  - the share is the remaining effort divided by the days up to and including the due date, rounded to the half hour, and at least half an hour;
  - on Saturdays and Sundays it is lowered by 20%;
  - each day's amount is clamped to what is still unallocated;
  - the walk stops once the remaining effort has been handed out.
- A task due after the horizon is left out.

**Pass 2** caps every day at five hours. A day that holds more than five hours is walked in order of due date, earliest first, ties kept in list order. Each entry keeps what still fits under the cap, and entries past the cap drop to zero.

The model also covers the checks that decide which tasks reach the planner:
- the checks of the task create and edit forms;
- the check of a progress-log entry;
- the rule that marks a task completed once its logged hours reach the estimate.

Modelling choices:
- **Hours are half-hour counts.** All amounts in a plan are whole numbers of half hours (`halves: int`). Python's `round(x * 2) / 2` becomes `RoundHalfEven(2 * x)` half hours. Python's `round` sends ties to the even neighbour.
- **Task fields stay `real`.** The estimated and completed hours of a task are `real`, because the forms accept any positive number.
- **Dates are day numbers.** A date is a proleptic Gregorian day number, numbered as `date.toordinal()` numbers them.
- **The whole computation is a method.** Both passes are imperative: `Scheduler.CalculateWorkSchedule` runs pass 1 through `DistributeTask` and `SpreadTask`, and pass 2 through `CapDays`, `CapDay`, `SumHalves` and `WalkDay`. It is proved equal to a functional specification, `Scheduler.WorkSchedule`, whose properties are proved as lemmas.
- **Pass 2 sorts indices.** The sort in pass 2 is modelled as a stable ordering of the day's indices by due date (`Capping.StableOrder`). Because `sorted` returns the same dictionaries that sit in the day's list, the walk updates the day's entries in place, and the list keeps its original order.

## Model

| member | source | states |
|---|---|---|
| Rounding.RoundHalfEven | flask_task_scheduler/app.py:146 | the result is within one half of the argument, and an exact tie goes to the even integer (Python's `round`) |
| Rounding.ToHalves | flask_task_scheduler/app.py:146 | `round(hours * 2) / 2` is within a quarter of an hour of `hours` |
| Rounding.RoundHalfEvenUnique | flask_task_scheduler/app.py:146 | any integer within one half of the argument that sends ties to the even side is the rounded value |
| Rounding.RoundHalfEvenTies | flask_task_scheduler/app.py:146 | 0.5 rounds to 0, 1.5 and 2.5 to 2 |
| Rounding.RoundOfWhole | flask_task_scheduler/app.py:206 | rounding a whole number of half hours changes nothing |
| Rounding.RoundOfSmall | flask_task_scheduler/app.py:177-180 | an amount of at most a quarter of an hour rounds to zero |
| Rounding.RoundMonotone | flask_task_scheduler/app.py:177 | rounding preserves order |
| Tasks.Weekday | flask_task_scheduler/app.py:170 | `weekday()` lies in 0..6 and is 0 exactly on the Mondays |
| Tasks.WeekdayAdvances | flask_task_scheduler/app.py:170 | the weekday advances by one each day, repeats every seven days, and 1 January 2024 is a Monday |
| Distribution.DailyHalves | flask_task_scheduler/app.py:153-156 | the daily share is at least half an hour |
| Distribution.DailyHalvesNearShare | flask_task_scheduler/app.py:153-156 | above half an hour, the daily share is the even split rounded to the nearest half hour, a tie going to an even number of half hours; it is exactly half an hour when, and only when, the split is under three quarters of an hour |
| Distribution.AdjustedHalves | flask_task_scheduler/app.py:168-171 | the day's amount is between half an hour and the daily share, and it equals the share on weekdays |
| Distribution.WeekendShare | flask_task_scheduler/app.py:168-171 | on a weekend a share of half an hour stays half an hour, and any larger share becomes 80% of itself rounded to the nearest half hour; it is strictly lower once the share is 1.5 hours or more |
| Distribution.Spread | flask_task_scheduler/app.py:159-186 | the walk yields one slot per day up to the due date, and every amount it hands out is at least half an hour |
| Distribution.SpreadAtMostAdjusted | flask_task_scheduler/app.py:173-177 | no day gets more than its weekend-adjusted share |
| Distribution.ClampedShare | flask_task_scheduler/app.py:174-177 | the rounded clamped amount overshoots what is left by at most a quarter of an hour, and not at all when the effort is whole half hours; when the clamp binds, what is left afterwards is at most a quarter of an hour |
| Distribution.SpreadStops | flask_task_scheduler/app.py:164-177 | once what is left is at most a quarter of an hour, every later day is empty |
| Distribution.SpreadClampIsLast | flask_task_scheduler/app.py:173-186 | a day that gets less than its adjusted share is the last day with any work |
| Distribution.SpreadTotal | flask_task_scheduler/app.py:159-186 | the walk hands out at most the remaining effort plus a quarter of an hour, and no more than the remaining effort when that is whole half hours |
| Distribution.SpreadHead | flask_task_scheduler/app.py:164-186 | one day of the walk while effort is missing: the day gets its full weekend-adjusted share, or a clamped share that brings the grants within a quarter of an hour of the remaining effort |
| Distribution.SpreadCovers | flask_task_scheduler/app.py:159-186 | the walk's grants come within a quarter of an hour of the remaining effort, unless every day through the due date gets its full weekend-adjusted share |
| Distribution.TaskRow | flask_task_scheduler/app.py:121-186 | a task's contribution is one slot per day of the horizon |
| Distribution.TaskRowUnscheduled | flask_task_scheduler/app.py:121-151 | a completed task, one with no effort left, or one due after the horizon gets nothing on any day |
| Distribution.TaskRowOverdue | flask_task_scheduler/app.py:140-148 | a task due before today gets its remaining effort, rounded to the half hour, today and nothing on later days |
| Distribution.TaskRowAmounts | flask_task_scheduler/app.py:121-186 | only open tasks with effort left get work; amounts are never negative and fall on days up to the due date, or today for an overdue task |
| Distribution.SpreadRowDays | flask_task_scheduler/app.py:150-186 | for a spread task every amount lies on or before the due date and between half an hour and the adjusted share; only the last amount may fall short of its share |
| Distribution.TaskRowTotal | flask_task_scheduler/app.py:127-186 | pass 1 gives a task at most its remaining effort plus a quarter of an hour, and at most its remaining effort when that is whole half hours |
| Distribution.TaskRowStops | flask_task_scheduler/app.py:164-166 | after the days whose amounts cover the remaining effort to within a quarter of an hour, the task gets nothing |
| Distribution.TaskRowCovers | flask_task_scheduler/app.py:150-186 | pass 1 gives a task due within the horizon its remaining effort to within a quarter of an hour, unless every day from today through the due date gets its full weekend-adjusted daily share |
| Distribution.OvershootExample | flask_task_scheduler/app.py:173-177 | 0.8 hours left on the due date gives one hour: pass 1 can exceed the remaining effort |
| Distribution.OverdueZeroHoursExample | flask_task_scheduler/app.py:141-147 | an overdue task with a quarter of an hour left gets an entry of zero hours |
| Distribution.DueTodayOnWeekendExample | flask_task_scheduler/app.py:138-171 | a task due today is spread (one day), and on a Saturday its five hours become four |
| DayLists.DayListEntries | flask_task_scheduler/app.py:121-186 | every entry of a day's list belongs to a listed task and has non-negative hours |
| DayLists.DayListProvenance | flask_task_scheduler/app.py:143-185 | every entry of a day's list is the slot of some task for that day |
| DayLists.DayListIncludes | flask_task_scheduler/app.py:143-185 | every task with a slot on a day appears in that day's list with that amount |
| DayLists.EntryTaskVisited | flask_task_scheduler/app.py:121-186 | with distinct task ids, a task has an entry on a day only once the loop has visited it |
| DayLists.DayListInTaskOrder | flask_task_scheduler/app.py:121-186 | with distinct task ids, a day's entries appear in the order their tasks are visited |
| DayLists.ListOnInTaskOrder | flask_task_scheduler/app.py:121-186 | after pass 1, the entry of an earlier task comes before the entry of a later one on every day |
| DayLists.DayListOncePerTask | flask_task_scheduler/app.py:121-186 | with distinct task ids, no task appears twice in a day's list |
| DayLists.TaskAbsentFromDay | flask_task_scheduler/app.py:180-185 | a task without a slot on a day does not appear in that day's list |
| DayLists.UnscheduledTaskAbsent | flask_task_scheduler/app.py:121-151 | a skipped task appears in no day's list after pass 1 |
| DayLists.EntryWithinDue | flask_task_scheduler/app.py:138-186 | after pass 1 a task appears only on days up to its due date, or today when overdue, and only when it is open with effort left |
| DayLists.OverdueLandsToday | flask_task_scheduler/app.py:140-148 | after pass 1 an overdue task's entry is in today's list and the task is on no later day |
| Capping.InsertIndex | flask_task_scheduler/app.py:195 | inserting an index keeps the order sorted by due date and adds exactly that index |
| Capping.StableOrder | flask_task_scheduler/app.py:195 | the sort visits every entry of the day exactly once, in due-date order, with ties kept in list order |
| Capping.SortedIsDistinct | flask_task_scheduler/app.py:195 | the sort visits no entry twice |
| Capping.ServedInKeyOrder | flask_task_scheduler/app.py:195 | an entry with an earlier due date is visited before one with a later due date |
| Capping.Grant | flask_task_scheduler/app.py:201-207 | once five hours are allocated an entry gets nothing; otherwise it gets its own hours or what is left under the cap, whichever is less |
| Capping.Walk | flask_task_scheduler/app.py:198-207 | the walk keeps every entry's task and title in place |
| Capping.WalkFrame | flask_task_scheduler/app.py:199-207 | entries the walk has already served, or never serves, keep their value |
| Capping.WalkSaturated | flask_task_scheduler/app.py:201-203 | once the cap is reached every later entry drops to zero |
| Capping.WalkNeverRaises | flask_task_scheduler/app.py:205 | no entry's hours go up, and none goes below zero |
| Capping.WalkTotal | flask_task_scheduler/app.py:198-207 | after the walk the day holds the smaller of five hours and its old total |
| Capping.WalkPriority | flask_task_scheduler/app.py:199-207 | when an entry later in the walk keeps hours, every earlier entry kept all of its hours |
| Capping.CappedDay | flask_task_scheduler/app.py:189-207 | capping keeps the day's entries, their tasks and their order; a day of at most five hours is unchanged |
| Capping.CapNeverRaises | flask_task_scheduler/app.py:202-205 | capping lowers no entry's hours and makes none negative |
| Capping.CapMeetsLimit | flask_task_scheduler/app.py:189-207 | a capped day holds exactly five hours when it held more, and its old total otherwise |
| Capping.CapServesEarliestDueFirst | flask_task_scheduler/app.py:195-207 | when an entry keeps any hours, every entry visited before it (earlier due date, or same due date and earlier in the list) keeps all of its hours |
| Capping.CappedEntry | flask_task_scheduler/app.py:199-207 | each entry of the capped day is the same task as the entry at that place before |
| Capping.CapKeepsUnlisted | flask_task_scheduler/app.py:199-207 | capping never brings a task into a day |
| Scheduler.PassOne | flask_task_scheduler/app.py:116-186 | pass 1 gives a list to exactly the days of the horizon |
| Scheduler.CapAll | flask_task_scheduler/app.py:188-207 | pass 2 keeps the set of days |
| Scheduler.WorkSchedule | flask_task_scheduler/app.py:106-209 | the plan has exactly the days of the horizon |
| Scheduler.CalculateWorkSchedule | flask_task_scheduler/app.py:106-209 | the in-place two-pass computation returns exactly `WorkSchedule` |
| Scheduler.DistributeTask | flask_task_scheduler/app.py:121-186 | one task's iteration appends the task's slot for each day to that day's list and changes nothing else |
| Scheduler.NothingAppended | flask_task_scheduler/app.py:122-151 | a skipped task leaves the schedule as it is |
| Scheduler.OverdueAppended | flask_task_scheduler/app.py:140-148 | appending the overdue entry to today's list is the task's whole contribution |
| Scheduler.SpreadTask | flask_task_scheduler/app.py:159-186 | the day-by-day loop appends exactly the spread amounts, day by day, and changes nothing else |
| Scheduler.CapDays | flask_task_scheduler/app.py:189-207 | after the loop over the days every day of the horizon is capped |
| Scheduler.CappedEveryDay | flask_task_scheduler/app.py:189-207 | a schedule with every day capped is pass 2's result |
| Scheduler.CapDay | flask_task_scheduler/app.py:189-207 | capping one day in place yields `CappedDay` |
| Scheduler.SumHalves | flask_task_scheduler/app.py:190 | the loop computes the day's total hours |
| Scheduler.WalkDay | flask_task_scheduler/app.py:198-207 | the in-place walk over the sorted entries yields `Walk` |
| Scheduler.PlanAt | flask_task_scheduler/app.py:106-209 | each day of the plan is that day's pass 1 list, capped |
| Scheduler.DailyLimitRespected | flask_task_scheduler/app.py:189-207 | every day of the plan holds the smaller of five hours and its pass 1 total; it has the same entries as after pass 1, and none has more hours than it had then or fewer than zero |
| Scheduler.UnscheduledTaskNeverAppears | flask_task_scheduler/app.py:121-151 | a completed task, one with no effort left, or one due after the horizon appears on no day of the plan |
| Scheduler.UnscheduledOnDay | flask_task_scheduler/app.py:121-151 | the same for one given day |
| Scheduler.NoWorkAfterDue | flask_task_scheduler/app.py:138-186 | a task appears in the plan only while it is open with effort left, and only on days up to its due date, or today when it is overdue |
| Scheduler.OverdueTaskScheduledToday | flask_task_scheduler/app.py:140-148 | an open overdue task appears in today's plan and on no other day |
| Scheduler.CapServesByDueDate | flask_task_scheduler/app.py:195-207 | when the due-date lookup agrees with the tasks, an entry keeps hours under the cap only if every entry of a task due earlier, or due the same day and listed before it, keeps all of its hours |
| Scheduler.PlanServesEarliestDueFirst | flask_task_scheduler/app.py:188-209 | on every day of the plan, an entry keeps hours only if every entry of a task due earlier, or due the same day and earlier in the task list, keeps all of the hours pass 1 gave it |
| Scheduler.NoTasksNoWork | flask_task_scheduler/app.py:111-118 | with no tasks every day of the plan is empty |
| Validation.ValidateTaskForm | flask_task_scheduler/app.py:240-246 | a form is accepted exactly when it has a title, a due date and a positive estimate; a missing title is reported first, a missing due date exactly when the title is present and the due date missing, and the estimate only when both are present |
| Validation.AcceptedTaskIsScheduled | flask_task_scheduler/app.py:240-254 | a task created from an accepted form is one the planner does not skip (it passes the skips at lines 122-129) |
| Validation.ModHalf | flask_task_scheduler/app.py:334 | Python's `hours % 0.5` lies in [0, 0.5) |
| Validation.HalfHourRemainder | flask_task_scheduler/app.py:334 | `hours % 0.5 == 0` holds exactly when `hours` is a whole number of half hours |
| Validation.CheckLogHours | flask_task_scheduler/app.py:331-335 | an entry is rejected as not positive exactly when its hours are at most zero |
| Validation.CheckLogHoursAccepts | flask_task_scheduler/app.py:331-335 | an entry is accepted exactly when it is a positive whole number of half hours |
| Validation.LogProgress | flask_task_scheduler/app.py:331-358 | a rejected entry changes nothing and reports the first failing check; an accepted one sets the hours completed to the earlier entries plus this one and marks the task completed exactly when it was already completed or that total reaches the estimate |
| Validation.LoggedTaskScheduledIff | flask_task_scheduler/app.py:347-358 | after an accepted entry the task stays in the plan exactly when it was open and its logged hours are still below the estimate |
| Validation.LogKeepsCompletionRule | flask_task_scheduler/app.py:353-358 | after logging, a task whose hours completed reach its estimate is completed |
| Validation.LogAddsAtLeastHalfHour | flask_task_scheduler/app.py:331-347 | every accepted entry adds at least half an hour to the hours completed |

The definitions the rows above rely on have no contract of their own. Each mirrors these source lines:
- `Tasks.Remaining`: `estimated_hours - hours_completed` (line 127).
- `Tasks.Eligible`: the two skips at lines 122-129.
- `Tasks.DaysUntilDue`: `(due_date - today).days + 1` (line 138).
- `Tasks.IsWeekend`: `weekday() >= 5` (line 170).
- `Tasks.Horizon`: the number of days `range(days_ahead)` visits (lines 116-118).
- `DayLists.Entry`: the dictionary appended at lines 143-147 and 181-185.
- `DayLists.Slots`, `DayLists.DayList`, `DayLists.ListOn`: one day's list after pass 1 appends the tasks in store order (lines 121-186).
- `Distribution.Granted`: the sum that `total_allocated` builds up (line 186).
- `Distribution.RealMin`: the `min` that clamps a day's share (line 174).
- `Distribution.FullShares`: every day of a stretch gets its full weekend-adjusted share (lines 169-177).
- `Capping.Min`: the `min` that caps an entry at what the day has left (line 205).
- `Capping.Total`, `Capping.TotalTo`: `sum(task['hours'] for task in tasks)` (line 190).
- `Capping.DueKeys`, `Capping.Before`, `Capping.SortedBy`: the sort key and the stable comparison of `sorted` (line 195).
- `Validation.Sum`: `sum(log['hours'] for log in logs)` (line 347).

Behaviour of the code worth noting:
- **A task due today is spread, not handled as overdue.** For a task due today, `(due_date - today).days + 1` is 1. Only a due date before today reaches the overdue branch at lines 141-148, although the comment at line 140 says "or is today". A task due today is spread over a one-day range, with the weekend reduction (`Distribution.DueTodayOnWeekendExample`).
- **An overdue task can get a zero-hour entry.** If its remaining effort rounds to zero, the task still gets an entry of zero hours (`Distribution.OverdueZeroHoursExample`).
- **Pass 1 can overshoot the remaining effort.** When the remaining effort is not a whole number of half hours, pass 1 can hand out up to a quarter of an hour more than it (`Distribution.OvershootExample`, `Distribution.TaskRowTotal`).
- **The rounding at line 206 is the identity.** In pass 2 every amount is already whole half hours, and so is `5 - total_allocated`.
- **The sort key is a date.** The connection is opened with declared-type parsing (lines 35-38), and the `due_date` column is declared `DATE`. So the key at line 195 is a `datetime.date`, and the sort compares calendar dates. The model compares day numbers, which gives the same order.
- **The horizon check never fails.** The test `current_date in schedule` at line 180 always holds inside the horizon. The test `today in schedule` at line 142 fails only when `days_ahead` is below 1; the model keeps that test.

## Left out

- The Flask routes, templates and the SQLite store. The planner takes the task list as a parameter, and `get_task(id)['due_date']` at line 195 becomes the map `dueOf`, which must know every listed task's id.
- The clock: `datetime.now().date()` is the parameter `today`, and the log date of a progress entry is not modelled.
- Python's date range: `today + timedelta(days=i)` (line 117) and the due-date arithmetic raise `OverflowError` past 31 December 9999, and `days_ahead` comes from the request. Day numbers are unbounded, so the model returns a plan for any `daysAhead` and does not model that error.
- Parsing the due date with `strptime`: tasks carry their due date as a day number. Malformed date text is not modelled.
- Floating point: hours are exact reals and exact half-hour counts, so binary rounding of `float` (for example of `0.1 * 3`) is not modelled.
- Number parsing and non-finite hours: `float(...)` at lines 238, 275 and 329 runs before the checks, so empty or non-numeric text raises `ValueError` instead of reporting a form error. `inf` or `1e400` passes the estimate check at line 245, and `round` at line 146 or 156 then raises `OverflowError` while the schedule is built. Form fields and task hours are finite reals here, so `Validation.ValidateTaskForm`, `Validation.LogProgress` and `Scheduler.WorkSchedule` model neither error.
- Task status values other than completed: they all behave alike in the planner and are one `Pending` value.
- The calendar and PDF exports, the front-end script and the project-structure generator: they only present or produce files and do not change the plan.
- Validation.AcceptedTaskIsScheduled: assumes the store's defaults for a new row (status pending, nothing completed); the table definition is not part of this model.
- Validation.LogProgress: the edit form can set the status directly (line 276); only the completion rule applied when logging is modelled.
