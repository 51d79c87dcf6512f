/**
 * The input checks of the task forms and the progress log, and the
 * completion rule applied when progress is logged. They decide which
 * tasks the work schedule sees: an accepted new task is scheduled, and a
 * task whose logged hours reach its estimate drops out of the schedule.
 */
module Validation {
  import opened Wrappers
  import opened Tasks

  /** The fields of the create and edit forms; a missing due date is the empty text. */
  datatype TaskForm = TaskForm(title: string, dueDate: string, estimatedHours: real)

  datatype FormError = TitleRequired | DueDateRequired | EstimateNotPositive

  /**
   * Lines 240-246 and 278-284: the first failing rule is reported, title
   * before due date before estimate.
   */
  function ValidateTaskForm(f: TaskForm): (e: Option<FormError>)
    ensures e == None <==> f.title != [] && f.dueDate != [] && f.estimatedHours > 0.0
    ensures e == Some(TitleRequired) <==> f.title == []
    ensures e == Some(DueDateRequired) <==> f.title != [] && f.dueDate == []
    ensures e == Some(EstimateNotPositive) ==> f.title != [] && f.dueDate != []
  {
    if f.title == [] then Some(TitleRequired)
    else if f.dueDate == [] then Some(DueDateRequired)
    else if f.estimatedHours <= 0.0 then Some(EstimateNotPositive)
    else None
  }

  /** A task created from an accepted form (pending, nothing logged) is one the scheduler distributes. */
  lemma AcceptedTaskIsScheduled(f: TaskForm, id: TaskId, due: Day)
    requires ValidateTaskForm(f) == None
    ensures Eligible(Task(id, f.title, due, f.estimatedHours, 0.0, Pending))
  {
  }

  // ----- Logging progress -----

  /** Python's `x % 0.5`: the remainder takes the sign of the divisor, so it is never negative. */
  function ModHalf(x: real): (r: real)
    ensures 0.0 <= r < 0.5
  {
    x - 0.5 * (x / 0.5).Floor as real
  }

  /** `hours % 0.5 == 0` holds exactly for whole numbers of half hours. */
  lemma HalfHourRemainder(hours: real)
    ensures ModHalf(hours) == 0.0 <==> (2.0 * hours).Floor as real == 2.0 * hours
  {
    assert hours / 0.5 == 2.0 * hours;
  }

  datatype LogError = HoursNotPositive | NotHalfHourMultiple

  /** Lines 331-335: hours must be positive, then a multiple of half an hour. */
  function CheckLogHours(hours: real): (e: Option<LogError>)
    ensures e == Some(HoursNotPositive) <==> hours <= 0.0
  {
    if hours <= 0.0 then Some(HoursNotPositive)
    else if ModHalf(hours) != 0.0 then Some(NotHalfHourMultiple)
    else None
  }

  /** An entry is accepted exactly when it is a positive whole number of half hours. */
  lemma CheckLogHoursAccepts(hours: real)
    ensures CheckLogHours(hours) == None <==> hours > 0.0 && (2.0 * hours).Floor as real == 2.0 * hours
  {
    HalfHourRemainder(hours);
  }

  /** `sum(log['hours'] for log in logs)`. */
  function Sum(logged: seq<real>): real
  {
    if logged == [] then 0.0 else Sum(logged[..|logged| - 1]) + logged[|logged| - 1]
  }

  /**
   * Lines 331-358: a rejected entry changes nothing; an accepted one sets
   * the hours completed to the earlier entries plus this one, and marks the
   * task completed once that reaches the estimate.
   */
  function LogProgress(t: Task, logged: seq<real>, hours: real): (r: Result<Task, LogError>)
    ensures r.Failure? <==> CheckLogHours(hours).Some?
    ensures r.Failure? ==> r.error == CheckLogHours(hours).value
    ensures r.Success? ==>
      && r.value.id == t.id && r.value.title == t.title && r.value.due == t.due
      && r.value.estimatedHours == t.estimatedHours
      && r.value.hoursCompleted == Sum(logged) + hours
      && (r.value.status == Completed <==> t.status == Completed || Sum(logged) + hours >= t.estimatedHours)
  {
    match CheckLogHours(hours)
    case Some(e) => Failure(e)
    case None =>
      var total := Sum(logged) + hours;
      var updated := t.(hoursCompleted := total);
      if total >= t.estimatedHours then Success(updated.(status := Completed)) else Success(updated)
  }

  /**
   * After an accepted entry the task stays in the schedule exactly when it
   * was not completed and the logged hours are still short of the estimate.
   */
  lemma LoggedTaskScheduledIff(t: Task, logged: seq<real>, hours: real)
    requires LogProgress(t, logged, hours).Success?
    ensures Eligible(LogProgress(t, logged, hours).value) <==>
      t.status != Completed && Sum(logged) + hours < t.estimatedHours
  {
  }

  /**
   * Logging keeps the rule that only a completed task may have logged as
   * many hours as its estimate or more.
   */
  lemma LogKeepsCompletionRule(t: Task, logged: seq<real>, hours: real)
    requires LogProgress(t, logged, hours).Success?
    ensures LogProgress(t, logged, hours).value.hoursCompleted >= t.estimatedHours ==>
      LogProgress(t, logged, hours).value.status == Completed
  {
  }

  /** Every accepted entry adds at least half an hour to the hours completed. */
  lemma LogAddsAtLeastHalfHour(t: Task, logged: seq<real>, hours: real)
    requires LogProgress(t, logged, hours).Success?
    ensures LogProgress(t, logged, hours).value.hoursCompleted >= Sum(logged) + 0.5
  {
    CheckLogHoursAccepts(hours);
    var h2 := (2.0 * hours).Floor;
    assert h2 as real == 2.0 * hours;
    assert h2 >= 1;
  }
}
