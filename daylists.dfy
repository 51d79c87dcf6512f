/**
 * Pass 1 for all tasks together: the list of one day after every task has
 * appended its entry for that day, the tasks visited in the order given.
 * A day's list is described from the amounts the tasks' rows hold for that
 * day (its slots), so that facts about lists do not depend on how a row is
 * computed.
 */
module DayLists {
  import opened Wrappers
  import opened Rounding
  import opened Tasks
  import opened Distribution

  /** A day's list gets one entry for a task exactly when the task's row has an amount that day. */
  function Entry(t: Task, slot: Option<int>): seq<Assignment>
  {
    match slot
    case None => []
    case Some(h) => [Assignment(t.id, t.title, h)]
  }

  /** Each task's amount on day `i` of the horizon, in task order. */
  function Slots(tasks: seq<Task>, today: Day, n: nat, i: nat): (s: seq<Option<int>>)
    requires i < n
    ensures |s| == |tasks|
  {
    seq(|tasks|, k requires 0 <= k < |tasks| => TaskRow(tasks[k], today, n)[i])
  }

  /** The slot of task `k` is the amount its row holds for the day. */
  lemma SlotsAt(tasks: seq<Task>, today: Day, n: nat, i: nat, k: nat)
    requires i < n && k < |tasks|
    ensures Slots(tasks, today, n, i)[k] == TaskRow(tasks[k], today, n)[i]
  {
  }

  predicate NonNegativeSlots(slots: seq<Option<int>>)
  {
    forall k :: 0 <= k < |slots| && slots[k].Some? ==> slots[k].value >= 0
  }

  /** No task has a negative amount on any day. */
  lemma SlotsNonNegative(tasks: seq<Task>, today: Day, n: nat, i: nat)
    requires i < n
    ensures NonNegativeSlots(Slots(tasks, today, n, i))
  {
    var s := Slots(tasks, today, n, i);
    forall k | 0 <= k < |s| && s[k].Some?
      ensures s[k].value >= 0
    {
      SlotsAt(tasks, today, n, i, k);
      TaskRowAmounts(tasks[k], today, n, i);
    }
  }

  /**
   * The day's list after the first `m` tasks have been visited, when task
   * `k` has amount `slots[k]` that day: each visited task appends its entry.
   */
  function DayList(tasks: seq<Task>, slots: seq<Option<int>>, m: nat): seq<Assignment>
    requires |slots| == |tasks| && m <= |tasks|
  {
    if m == 0 then [] else DayList(tasks, slots, m - 1) + Entry(tasks[m - 1], slots[m - 1])
  }

  /** Pass 1's list for date `d` of the horizon of `n` days that starts at `today`, once every task is distributed. */
  function ListOn(tasks: seq<Task>, today: Day, n: nat, d: Day): seq<Assignment>
    requires today <= d < today + n
  {
    DayList(tasks, Slots(tasks, today, n, d - today), |tasks|)
  }

  /** Every entry belongs to one of the tasks, and with non-negative amounts every entry is non-negative. */
  lemma {:induction false} DayListEntries(tasks: seq<Task>, slots: seq<Option<int>>, m: nat)
    requires |slots| == |tasks| && m <= |tasks| && NonNegativeSlots(slots)
    ensures forall j :: 0 <= j < |DayList(tasks, slots, m)| ==>
      DayList(tasks, slots, m)[j].taskId in Ids(tasks) && DayList(tasks, slots, m)[j].halves >= 0
  {
    if m > 0 {
      var prev := DayList(tasks, slots, m - 1);
      var day := DayList(tasks, slots, m);
      DayListEntries(tasks, slots, m - 1);
      forall j | 0 <= j < |day|
        ensures day[j].taskId in Ids(tasks) && day[j].halves >= 0
      {
        if j < |prev| {
          assert day[j] == prev[j];
        } else {
          assert tasks[m - 1] in tasks;
        }
      }
    }
  }

  /** `a` is the entry task `t` appends for the amount in `slot`. */
  predicate EntryOf(t: Task, slot: Option<int>, a: Assignment)
  {
    a.taskId == t.id && a.title == t.title && slot == Some(a.halves)
  }

  /** Every entry of a day comes from a visited task that has exactly that amount on that day. */
  lemma {:induction false} DayListProvenance(tasks: seq<Task>, slots: seq<Option<int>>, m: nat, j: nat)
    requires |slots| == |tasks| && m <= |tasks| && j < |DayList(tasks, slots, m)|
    ensures exists k :: 0 <= k < m && EntryOf(tasks[k], slots[k], DayList(tasks, slots, m)[j])
  {
    var day := DayList(tasks, slots, m);
    var prev := DayList(tasks, slots, m - 1);
    if j < |prev| {
      DayListProvenance(tasks, slots, m - 1, j);
      var k :| 0 <= k < m - 1 && EntryOf(tasks[k], slots[k], prev[j]);
      assert day[j] == prev[j];
    } else {
      assert EntryOf(tasks[m - 1], slots[m - 1], day[j]);
    }
  }

  /** A visited task's amount on the day appears in the day's list as an entry for the task. */
  lemma {:induction false} DayListIncludes(tasks: seq<Task>, slots: seq<Option<int>>, m: nat, k: nat)
    requires |slots| == |tasks| && k < m <= |tasks| && slots[k].Some?
    ensures Assignment(tasks[k].id, tasks[k].title, slots[k].value) in DayList(tasks, slots, m)
  {
    var a := Assignment(tasks[k].id, tasks[k].title, slots[k].value);
    var prev := DayList(tasks, slots, m - 1);
    var added := Entry(tasks[m - 1], slots[m - 1]);
    assert DayList(tasks, slots, m) == prev + added;
    if k < m - 1 {
      DayListIncludes(tasks, slots, m - 1, k);
      assert a in prev;
    } else {
      assert added == [a];
    }
  }

  predicate DistinctTasks(day: seq<Assignment>)
  {
    forall p, q :: 0 <= p < q < |day| ==> day[p].taskId != day[q].taskId
  }

  /** With unique ids, a task not yet visited has no entry in the day's list. */
  lemma LaterTaskUnlisted(tasks: seq<Task>, slots: seq<Option<int>>, m: nat, k: nat)
    requires |slots| == |tasks| && m <= k < |tasks| && UniqueIds(tasks)
    ensures Unlisted(DayList(tasks, slots, m), tasks[k].id)
  {
    var day := DayList(tasks, slots, m);
    forall j | 0 <= j < |day| ensures day[j].taskId != tasks[k].id {
      DayListProvenance(tasks, slots, m, j);
      var k' :| 0 <= k' < m && EntryOf(tasks[k'], slots[k'], day[j]);
      assert tasks[k'].id != tasks[k].id;
    }
  }

  /** With unique ids, no day lists the same task twice. */
  lemma {:induction false} DayListOncePerTask(tasks: seq<Task>, slots: seq<Option<int>>, m: nat)
    requires |slots| == |tasks| && m <= |tasks| && UniqueIds(tasks)
    ensures DistinctTasks(DayList(tasks, slots, m))
  {
    if m > 0 {
      var before := DayList(tasks, slots, m - 1);
      var day := DayList(tasks, slots, m);
      DayListOncePerTask(tasks, slots, m - 1);
      LaterTaskUnlisted(tasks, slots, m - 1, m - 1);
      assert day == before + Entry(tasks[m - 1], slots[m - 1]);
      forall p, q | 0 <= p < q < |day| ensures day[p].taskId != day[q].taskId {
        if q < |before| {
          assert day[p].taskId != day[q].taskId by {
            assert day[p] == before[p] && day[q] == before[q];
          }
        } else {
          assert day[q].taskId == tasks[m - 1].id && day[p] == before[p];
        }
      }
    }
  }

  /** With unique ids, an entry for task `a` shows that `a` is among the tasks visited. */
  lemma EntryTaskVisited(tasks: seq<Task>, slots: seq<Option<int>>, m: nat, p: nat, a: nat)
    requires |slots| == |tasks| && m <= |tasks| && UniqueIds(tasks) && a < |tasks|
    requires p < |DayList(tasks, slots, m)| && DayList(tasks, slots, m)[p].taskId == tasks[a].id
    ensures a < m
  {
    DayListProvenance(tasks, slots, m, p);
    var k :| 0 <= k < m && EntryOf(tasks[k], slots[k], DayList(tasks, slots, m)[p]);
    assert tasks[k].id == tasks[a].id;
  }

  /**
   * With unique ids, a day lists its entries in the order the tasks are
   * visited: the entry of an earlier task comes first.
   */
  lemma {:induction false} DayListInTaskOrder(tasks: seq<Task>, slots: seq<Option<int>>, m: nat, p: nat, q: nat, a: nat, b: nat)
    requires |slots| == |tasks| && m <= |tasks| && UniqueIds(tasks) && a < |tasks| && b < |tasks|
    requires p < |DayList(tasks, slots, m)| && q < |DayList(tasks, slots, m)|
    requires DayList(tasks, slots, m)[p].taskId == tasks[a].id && DayList(tasks, slots, m)[q].taskId == tasks[b].id
    ensures p < q <==> a < b
  {
    if m > 0 {
      var before := DayList(tasks, slots, m - 1);
      var day := DayList(tasks, slots, m);
      assert day == before + Entry(tasks[m - 1], slots[m - 1]);
      if p < |before| && q < |before| {
        assert day[p] == before[p] && day[q] == before[q];
        DayListInTaskOrder(tasks, slots, m - 1, p, q, a, b);
      } else if p < |before| {
        assert day[q].taskId == tasks[m - 1].id && day[p] == before[p];
        assert b == m - 1 by { assert tasks[b].id == tasks[m - 1].id; }
        EntryTaskVisited(tasks, slots, m - 1, p, a);
      } else if q < |before| {
        assert day[p].taskId == tasks[m - 1].id && day[q] == before[q];
        assert a == m - 1 by { assert tasks[a].id == tasks[m - 1].id; }
        EntryTaskVisited(tasks, slots, m - 1, q, b);
      } else {
        assert p == q && tasks[a].id == tasks[b].id;
      }
    }
  }

  /** Pass 1's list for a date holds the entries of earlier tasks first. */
  lemma ListOnInTaskOrder(tasks: seq<Task>, today: Day, n: nat, d: Day, p: nat, q: nat, a: nat, b: nat)
    requires UniqueIds(tasks) && today <= d < today + n && a < |tasks| && b < |tasks|
    requires p < |ListOn(tasks, today, n, d)| && q < |ListOn(tasks, today, n, d)|
    requires ListOn(tasks, today, n, d)[p].taskId == tasks[a].id && ListOn(tasks, today, n, d)[q].taskId == tasks[b].id
    ensures p < q <==> a < b
  {
    DayListInTaskOrder(tasks, Slots(tasks, today, n, d - today), |tasks|, p, q, a, b);
  }

  /** With unique ids, a task without an amount on the day has no entry in the day's list. */
  lemma TaskAbsentFromDay(tasks: seq<Task>, slots: seq<Option<int>>, m: nat, k: nat)
    requires |slots| == |tasks| && m <= |tasks| && UniqueIds(tasks) && k < |tasks| && slots[k] == None
    ensures Unlisted(DayList(tasks, slots, m), tasks[k].id)
  {
    var day := DayList(tasks, slots, m);
    forall j | 0 <= j < |day| ensures day[j].taskId != tasks[k].id {
      DayListProvenance(tasks, slots, m, j);
      var k' :| 0 <= k' < m && EntryOf(tasks[k'], slots[k'], day[j]);
      if k' < k { assert tasks[k'].id != tasks[k].id; }
      if k < k' { assert tasks[k].id != tasks[k'].id; }
    }
  }

  /** A task that is completed, has no effort left, or is due beyond the horizon is on no day's list. */
  lemma UnscheduledTaskAbsent(tasks: seq<Task>, today: Day, n: nat, k: nat, d: Day)
    requires UniqueIds(tasks) && k < |tasks| && today <= d < today + n
    requires !Eligible(tasks[k]) || DaysUntilDue(tasks[k], today) > n
    ensures Unlisted(ListOn(tasks, today, n, d), tasks[k].id)
  {
    TaskRowUnscheduled(tasks[k], today, n);
    SlotsAt(tasks, today, n, d - today, k);
    TaskAbsentFromDay(tasks, Slots(tasks, today, n, d - today), |tasks|, k);
  }

  /**
   * Every task with an amount on day `i` of the horizon is pending with
   * effort left, and the day is no later than its due date, or is today
   * and the task is overdue.
   */
  predicate SlotsWithinDue(tasks: seq<Task>, slots: seq<Option<int>>, today: Day, i: nat)
    requires |slots| == |tasks|
  {
    forall k :: 0 <= k < |tasks| && slots[k].Some? ==>
      Eligible(tasks[k]) && (today + i <= tasks[k].due || (i == 0 && tasks[k].due < today))
  }

  lemma SlotsAreWithinDue(tasks: seq<Task>, today: Day, n: nat, i: nat)
    requires i < n
    ensures SlotsWithinDue(tasks, Slots(tasks, today, n, i), today, i)
  {
    var s := Slots(tasks, today, n, i);
    forall k | 0 <= k < |tasks| && s[k].Some?
      ensures Eligible(tasks[k]) && (today + i <= tasks[k].due || (i == 0 && tasks[k].due < today))
    {
      SlotsAt(tasks, today, n, i, k);
      TaskRowAmounts(tasks[k], today, n, i);
    }
  }

  /** With unique ids, an entry for task `k` means the task has an amount that day. */
  lemma EntryHasSlot(tasks: seq<Task>, slots: seq<Option<int>>, today: Day, i: nat, j: nat, k: nat)
    requires |slots| == |tasks| && UniqueIds(tasks) && k < |tasks| && SlotsWithinDue(tasks, slots, today, i)
    requires j < |DayList(tasks, slots, |tasks|)|
    ensures DayList(tasks, slots, |tasks|)[j].taskId == tasks[k].id ==>
      Eligible(tasks[k]) && (today + i <= tasks[k].due || (i == 0 && tasks[k].due < today))
  {
    if DayList(tasks, slots, |tasks|)[j].taskId == tasks[k].id {
      DayListProvenance(tasks, slots, |tasks|, j);
      var k' :| 0 <= k' < |tasks| && EntryOf(tasks[k'], slots[k'], DayList(tasks, slots, |tasks|)[j]);
      assert tasks[k'].id == tasks[k].id;
    }
  }

  /**
   * With unique ids, an entry of date `d` for task `k` means the task is
   * pending with effort left, and `d` is no later than its due date, or is
   * today and the task is overdue.
   */
  lemma EntryWithinDue(tasks: seq<Task>, today: Day, n: nat, d: Day, j: nat, k: nat)
    requires UniqueIds(tasks) && k < |tasks| && today <= d < today + n
    requires j < |ListOn(tasks, today, n, d)|
    ensures ListOn(tasks, today, n, d)[j].taskId == tasks[k].id ==>
      Eligible(tasks[k]) && (d <= tasks[k].due || (d == today && tasks[k].due < today))
  {
    SlotsAreWithinDue(tasks, today, n, d - today);
    EntryHasSlot(tasks, Slots(tasks, today, n, d - today), today, d - today, j, k);
  }

  /**
   * Pass 1 puts all of an overdue task's remaining effort, rounded to the
   * half hour, on today's list, and the task on no other day's list.
   */
  lemma OverdueLandsToday(tasks: seq<Task>, today: Day, n: nat, k: nat)
    requires UniqueIds(tasks) && k < |tasks| && n >= 1
    requires Eligible(tasks[k]) && tasks[k].due < today
    ensures Assignment(tasks[k].id, tasks[k].title, ToHalves(Remaining(tasks[k]))) in ListOn(tasks, today, n, today)
    ensures forall d :: today < d < today + n ==> Unlisted(ListOn(tasks, today, n, d), tasks[k].id)
  {
    TaskRowOverdue(tasks[k], today, n);
    SlotsAt(tasks, today, n, 0, k);
    DayListIncludes(tasks, Slots(tasks, today, n, 0), |tasks|, k);
    forall d | today < d < today + n
      ensures Unlisted(ListOn(tasks, today, n, d), tasks[k].id)
    {
      SlotsAt(tasks, today, n, d - today, k);
      TaskAbsentFromDay(tasks, Slots(tasks, today, n, d - today), |tasks|, k);
    }
  }
}
