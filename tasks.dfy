/**
 * The records the scheduler reads and writes: a task snapshot as the task
 * store hands it over, calendar days, and one entry of a day's plan.
 */
module Tasks {

  /**
   * A calendar date as a proleptic Gregorian day number, numbered the way
   * Python's `date.toordinal()` numbers them (1 January of year 1 is day 1).
   */
  type Day = int

  type TaskId = int

  /** Day number of Monday 1 January 2024. */
  const Monday20240101: Day := 738886

  /** `date.weekday()`: Monday is 0, Sunday is 6. */
  function Weekday(d: Day): (w: int)
    ensures 0 <= w <= 6
    ensures w == 0 <==> (d - Monday20240101) % 7 == 0
  {
    (d + 6) % 7
  }

  /** Saturday and Sunday, the test `weekday() >= 5`. */
  predicate IsWeekend(d: Day)
  {
    Weekday(d) >= 5
  }

  /** Consecutive days run through the week in order, and 1 January 2024 is a Monday. */
  lemma WeekdayAdvances(d: Day)
    ensures Weekday(d + 1) == (Weekday(d) + 1) % 7
    ensures Weekday(d + 7) == Weekday(d)
    ensures Weekday(Monday20240101) == 0
  {
  }

  datatype Status = Pending | Completed

  /** One row of the task store, with its due date already parsed. */
  datatype Task = Task(
    id: TaskId,
    title: string,
    due: Day,
    estimatedHours: real,
    hoursCompleted: real,
    status: Status)

  /** One line of a day's plan: `{task_id, title, hours}`, with hours counted in half hours. */
  datatype Assignment = Assignment(taskId: TaskId, title: string, halves: int)

  /** No entry of the day's list belongs to the task `id`. */
  predicate Unlisted(day: seq<Assignment>, id: TaskId)
  {
    forall j :: 0 <= j < |day| ==> day[j].taskId != id
  }

  /** Effort still to do, `estimated_hours - hours_completed`. */
  function Remaining(t: Task): real
  {
    t.estimatedHours - t.hoursCompleted
  }

  /** A task the scheduler distributes at all: not completed and with effort left. */
  predicate Eligible(t: Task)
  {
    t.status != Completed && Remaining(t) > 0.0
  }

  /** `(due_date - today).days + 1`: the number of days from today through the due date. */
  function DaysUntilDue(t: Task, today: Day): int
  {
    t.due - today + 1
  }

  /** The number of days `range(days_ahead)` walks through. */
  function Horizon(daysAhead: int): (n: nat)
    ensures daysAhead >= 0 ==> n == daysAhead
    ensures daysAhead < 0 ==> n == 0
  {
    if daysAhead < 0 then 0 else daysAhead
  }

  function Ids(tasks: seq<Task>): set<TaskId>
  {
    set t | t in tasks :: t.id
  }

  /** Task ids are the store's primary key, so no two rows share one. */
  predicate UniqueIds(tasks: seq<Task>)
  {
    forall p, q :: 0 <= p < q < |tasks| ==> tasks[p].id != tasks[q].id
  }
}
