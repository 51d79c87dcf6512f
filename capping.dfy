/**
 * Pass 2 of the work schedule: a day whose entries add up to more than
 * five hours is walked in order of due date (earliest first, ties in list
 * order) and each entry is cut to what is left of the five hours, or to
 * nothing once they are used up. The entries are changed where they stand,
 * so the day's list keeps its order; only the hours change.
 */
module Capping {
  import opened Tasks

  /** The daily cap of five hours, in half hours. */
  const DailyCapHalves: int := 10

  function Min(a: int, b: int): int
  {
    if a <= b then a else b
  }

  /** `sum(task['hours'] for task in tasks)`, in half hours. */
  function Total(day: seq<Assignment>): int
  {
    TotalTo(day, |day|)
  }

  /** The amounts of the first `j` entries. */
  function TotalTo(day: seq<Assignment>, j: nat): int
    requires j <= |day|
  {
    if j == 0 then 0 else TotalTo(day, j - 1) + day[j - 1].halves
  }

  /** Every entry's task has a due date that can be looked up. */
  predicate KnownIds(day: seq<Assignment>, dueOf: map<TaskId, Day>)
  {
    forall j :: 0 <= j < |day| ==> day[j].taskId in dueOf
  }

  predicate NonNegative(day: seq<Assignment>)
  {
    forall k :: 0 <= k < |day| ==> day[k].halves >= 0
  }

  // ----- The order in which a day's entries are served -----

  /**
   * Entry `j` is served before entry `k`: its task is due earlier, or on
   * the same day and `j` stands earlier in the list (the sort is stable).
   */
  predicate Before(keys: seq<Day>, j: int, k: int)
  {
    0 <= j < |keys| && 0 <= k < |keys| && (keys[j] < keys[k] || (keys[j] == keys[k] && j < k))
  }

  predicate SortedBy(keys: seq<Day>, order: seq<int>)
  {
    forall p, q :: 0 <= p < q < |order| ==> Before(keys, order[p], order[q])
  }

  /** Insert index `x`, larger than every index already in `order`, after all entries due no later. */
  function InsertIndex(keys: seq<Day>, order: seq<int>, x: int): (r: seq<int>)
    requires 0 <= x < |keys|
    requires SortedBy(keys, order) && forall p :: 0 <= p < |order| ==> 0 <= order[p] < x
    ensures |r| == |order| + 1
    ensures forall y :: y in r <==> y in order || y == x
    ensures SortedBy(keys, r)
  {
    if order == [] then [x]
    else if keys[order[0]] > keys[x] then [x] + order
    else
      var rest := InsertIndex(keys, order[1..], x);
      assert forall y :: y in order[1..] ==> Before(keys, order[0], y) by {
        forall y | y in order[1..] ensures Before(keys, order[0], y) {
          var i :| 0 <= i < |order[1..]| && order[1..][i] == y;
          assert order[i + 1] == y;
        }
      }
      assert forall q :: 0 <= q < |rest| ==> rest[q] in rest;
      [order[0]] + rest
  }

  /**
   * `sorted(tasks, key=due date)` on the first `m` entries, as the list of
   * their indices: each index once, in serving order.
   */
  function StableOrder(keys: seq<Day>, m: nat): (order: seq<int>)
    requires m <= |keys|
    ensures |order| == m
    ensures forall y :: y in order <==> 0 <= y < m
    ensures SortedBy(keys, order)
  {
    if m == 0 then []
    else
      var prev := StableOrder(keys, m - 1);
      assert forall p :: 0 <= p < |prev| ==> prev[p] in prev;
      InsertIndex(keys, prev, m - 1)
  }

  /** The due date of each entry's task, looked up by task id. */
  function DueKeys(day: seq<Assignment>, dueOf: map<TaskId, Day>): (keys: seq<Day>)
    requires KnownIds(day, dueOf)
    ensures |keys| == |day| && forall j :: 0 <= j < |day| ==> keys[j] == dueOf[day[j].taskId]
  {
    seq(|day|, j requires 0 <= j < |day| => dueOf[day[j].taskId])
  }

  // ----- The walk -----

  /**
   * The capping walk from serving position `p` on, with `alloc` half hours
   * already granted: an entry gets nothing once the cap is used up, and
   * otherwise the smaller of its own amount and what is left of the cap.
   */
  function Walk(cur: seq<Assignment>, order: seq<int>, p: nat, alloc: int): (res: seq<Assignment>)
    requires p <= |order| && forall q :: 0 <= q < |order| ==> 0 <= order[q] < |cur|
    ensures |res| == |cur|
    ensures forall k :: 0 <= k < |cur| ==> res[k].taskId == cur[k].taskId && res[k].title == cur[k].title
    decreases |order| - p
  {
    if p == |order| then cur
    else
      var k := order[p];
      var g := Grant(cur[k].halves, alloc);
      Walk(cur[k := cur[k].(halves := g)], order, p + 1, alloc + g)
  }

  /** One step of the walk: serve the entry at position `p` and go on with the rest. */
  lemma WalkStep(cur: seq<Assignment>, order: seq<int>, p: nat, alloc: int, g: int, next: seq<Assignment>)
    requires p < |order| && forall q :: 0 <= q < |order| ==> 0 <= order[q] < |cur|
    requires g == Grant(cur[order[p]].halves, alloc)
    requires next == cur[order[p] := cur[order[p]].(halves := g)]
    ensures Walk(cur, order, p, alloc) == Walk(next, order, p + 1, alloc + g)
  {
  }

  /**
   * What one entry of `h` half hours gets when `alloc` are already granted:
   * nothing when the cap is used up (line 203), else the smaller of `h` and
   * the rest of the cap (line 205).
   */
  function Grant(h: int, alloc: int): (g: int)
    ensures alloc >= DailyCapHalves ==> g == 0
    ensures alloc < DailyCapHalves ==> g <= h && g <= DailyCapHalves - alloc && (g == h || g == DailyCapHalves - alloc)
  {
    if DailyCapHalves - alloc <= 0 then 0 else Min(h, DailyCapHalves - alloc)
  }

  /**
   * A day of the schedule after pass 2: unchanged unless its total exceeds
   * the cap; otherwise every entry is walked in serving order.
   */
  function CappedDay(day: seq<Assignment>, dueOf: map<TaskId, Day>): (r: seq<Assignment>)
    requires KnownIds(day, dueOf)
    ensures |r| == |day|
    ensures forall k :: 0 <= k < |day| ==> r[k].taskId == day[k].taskId && r[k].title == day[k].title
    ensures Total(day) <= DailyCapHalves ==> r == day
  {
    if Total(day) <= DailyCapHalves then day
    else
      var order := StableOrder(DueKeys(day, dueOf), |day|);
      assert forall q :: 0 <= q < |order| ==> order[q] in order;
      Walk(day, order, 0, 0)
  }

  // ----- Sums over the entries not yet served -----

  /** The amounts of the entries among the first `j` whose index is in `u`. */
  function SumIn(cur: seq<Assignment>, u: seq<int>, j: nat): int
    requires j <= |cur|
  {
    if j == 0 then 0
    else SumIn(cur, u, j - 1) + (if j - 1 in u then cur[j - 1].halves else 0)
  }

  lemma {:induction false} SumInAll(cur: seq<Assignment>, u: seq<int>, j: nat)
    requires j <= |cur| && forall k :: 0 <= k < j ==> k in u
    ensures SumIn(cur, u, j) == TotalTo(cur, j)
  {
    if j > 0 {
      SumInAll(cur, u, j - 1);
    }
  }

  lemma {:induction false} SumInCons(cur: seq<Assignment>, x: int, v: seq<int>, j: nat)
    requires j <= |cur| && x !in v
    ensures SumIn(cur, [x] + v, j) == SumIn(cur, v, j) + (if 0 <= x < j then cur[x].halves else 0)
  {
    if j > 0 {
      SumInCons(cur, x, v, j - 1);
    }
  }

  lemma {:induction false} SumInFrame(cur: seq<Assignment>, cur': seq<Assignment>, u: seq<int>, j: nat)
    requires j <= |cur| && j <= |cur'|
    requires forall k :: 0 <= k < j && k in u ==> cur[k].halves == cur'[k].halves
    ensures SumIn(cur, u, j) == SumIn(cur', u, j)
  {
    if j > 0 {
      SumInFrame(cur, cur', u, j - 1);
    }
  }

  lemma {:induction false} SumInNonNegative(cur: seq<Assignment>, u: seq<int>, j: nat)
    requires j <= |cur| && NonNegative(cur)
    ensures SumIn(cur, u, j) >= 0
  {
    if j > 0 {
      SumInNonNegative(cur, u, j - 1);
    }
  }

  lemma {:induction false} TotalUpdate(cur: seq<Assignment>, k: nat, a: Assignment, j: nat)
    requires k < |cur| && j <= |cur|
    ensures TotalTo(cur[k := a], j) == TotalTo(cur, j) + (if k < j then a.halves - cur[k].halves else 0)
  {
    if j > 0 {
      TotalUpdate(cur, k, a, j - 1);
    }
  }

  // ----- Facts about the walk -----

  predicate Distinct(order: seq<int>)
  {
    forall p, q :: 0 <= p < q < |order| ==> order[p] != order[q]
  }

  predicate WalkReady(cur: seq<Assignment>, order: seq<int>, p: nat)
  {
    p <= |order| && Distinct(order) && forall q :: 0 <= q < |order| ==> 0 <= order[q] < |cur|
  }

  /** Entries the walk has already passed are left as they are. */
  lemma {:induction false} WalkFrame(cur: seq<Assignment>, order: seq<int>, p: nat, alloc: int)
    requires WalkReady(cur, order, p)
    ensures forall k :: 0 <= k < |cur| && k !in order[p..] ==> Walk(cur, order, p, alloc)[k] == cur[k]
    decreases |order| - p
  {
    if p < |order| {
      var k := order[p];
      var g := Grant(cur[k].halves, alloc);
      var alloc' := alloc + g;
      WalkFrame(cur[k := cur[k].(halves := g)], order, p + 1, alloc');
      assert forall k' :: k' in order[p + 1..] ==> k' in order[p..];
    }
  }

  /** Once the cap is used up, every entry still to be served gets nothing. */
  lemma {:induction false} WalkSaturated(cur: seq<Assignment>, order: seq<int>, p: nat, alloc: int)
    requires WalkReady(cur, order, p) && alloc >= DailyCapHalves
    ensures forall q :: p <= q < |order| ==> Walk(cur, order, p, alloc)[order[q]].halves == 0
    decreases |order| - p
  {
    if p < |order| {
      var k := order[p];
      var cur' := cur[k := cur[k].(halves := 0)];
      WalkSaturated(cur', order, p + 1, alloc);
      WalkFrame(cur', order, p + 1, alloc);
      assert Walk(cur, order, p, alloc) == Walk(cur', order, p + 1, alloc);
      assert k !in order[p + 1..];
    }
  }

  /** No entry gains hours, and none goes below zero. */
  lemma {:induction false} WalkNeverRaises(cur: seq<Assignment>, order: seq<int>, p: nat, alloc: int)
    requires WalkReady(cur, order, p) && NonNegative(cur)
    ensures forall k :: 0 <= k < |cur| ==> 0 <= Walk(cur, order, p, alloc)[k].halves <= cur[k].halves
    decreases |order| - p
  {
    if p < |order| {
      var k := order[p];
      var g := Grant(cur[k].halves, alloc);
      var alloc' := alloc + g;
      WalkNeverRaises(cur[k := cur[k].(halves := g)], order, p + 1, alloc');
    }
  }

  /**
   * The balance the walk keeps: "total = granted so far + amounts not yet
   * served", with every amount non-negative and the grant within the cap.
   */
  predicate WalkBalanced(cur: seq<Assignment>, order: seq<int>, p: nat, alloc: int)
  {
    && WalkReady(cur, order, p) && NonNegative(cur)
    && 0 <= alloc <= DailyCapHalves
    && Total(cur) == alloc + SumIn(cur, order[p..], |cur|)
  }

  /**
   * Keeping that balance, the walk ends with the smaller of the cap and the
   * total it started from.
   */
  lemma {:induction false} WalkTotal(cur: seq<Assignment>, order: seq<int>, p: nat, alloc: int)
    requires WalkBalanced(cur, order, p, alloc)
    ensures Total(Walk(cur, order, p, alloc)) == Min(DailyCapHalves, Total(cur))
    decreases |order| - p
  {
    if p == |order| {
      WalkTotalDone(cur, order, p, alloc);
    } else {
      var k := order[p];
      var g := Grant(cur[k].halves, alloc);
      var cur' := cur[k := cur[k].(halves := g)];
      WalkStepBalance(cur, order, p, alloc, g, cur');
      WalkStep(cur, order, p, alloc, g, cur');
      WalkTotal(cur', order, p + 1, alloc + g);
    }
  }

  /** At the end of the walk the balance says that the total is the grant, within the cap. */
  lemma WalkTotalDone(cur: seq<Assignment>, order: seq<int>, p: nat, alloc: int)
    requires WalkBalanced(cur, order, p, alloc) && p == |order|
    ensures Total(Walk(cur, order, p, alloc)) == Min(DailyCapHalves, Total(cur))
  {
    assert order[p..] == [];
    ZeroOutside(cur, |cur|);
  }

  /** One step of the walk keeps the balance and the smaller of cap and total. */
  lemma WalkStepBalance(cur: seq<Assignment>, order: seq<int>, p: nat, alloc: int, g: int, cur': seq<Assignment>)
    requires WalkBalanced(cur, order, p, alloc) && p < |order|
    requires g == Grant(cur[order[p]].halves, alloc)
    requires cur' == cur[order[p] := cur[order[p]].(halves := g)]
    ensures WalkBalanced(cur', order, p + 1, alloc + g)
    ensures Min(DailyCapHalves, Total(cur')) == Min(DailyCapHalves, Total(cur))
  {
    var k := order[p];
    var rest := SumIn(cur', order[p + 1..], |cur|);
    assert order[p..] == [k] + order[p + 1..];
    assert k !in order[p + 1..];
    SumInCons(cur, k, order[p + 1..], |cur|);
    SumInFrame(cur, cur', order[p + 1..], |cur|);
    TotalUpdate(cur, k, cur[k].(halves := g), |cur|);
    SumInNonNegative(cur', order[p + 1..], |cur|);
  }

  lemma {:induction false} ZeroOutside(cur: seq<Assignment>, j: nat)
    requires j <= |cur|
    ensures SumIn(cur, [], j) == 0
  {
    if j > 0 {
      ZeroOutside(cur, j - 1);
    }
  }

  /**
   * An entry served later gets any hours only if every entry served before
   * it kept all of its own.
   */
  lemma {:induction false} WalkPriority(cur: seq<Assignment>, order: seq<int>, p: nat, alloc: int)
    requires WalkReady(cur, order, p)
    ensures var res := Walk(cur, order, p, alloc);
      forall q1, q2 :: p <= q1 < q2 < |order| && res[order[q2]].halves > 0 ==>
        res[order[q1]].halves == cur[order[q1]].halves
    decreases |order| - p
  {
    if p < |order| {
      var k := order[p];
      var g := Grant(cur[k].halves, alloc);
      var cur' := cur[k := cur[k].(halves := g)];
      WalkStep(cur, order, p, alloc, g, cur');
      WalkPriority(cur', order, p + 1, alloc + g);
      PriorityStep(cur, order, p, alloc, g, cur', Walk(cur', order, p + 1, alloc + g));
    }
  }

  /** Serving the entry at position `p` first keeps the ordering promise of the rest of the walk. */
  lemma PriorityStep(cur: seq<Assignment>, order: seq<int>, p: nat, alloc: int, g: int, cur': seq<Assignment>, res: seq<Assignment>)
    requires WalkReady(cur, order, p) && p < |order|
    requires g == Grant(cur[order[p]].halves, alloc)
    requires cur' == cur[order[p] := cur[order[p]].(halves := g)]
    requires res == Walk(cur', order, p + 1, alloc + g)
    requires forall q1, q2 :: p + 1 <= q1 < q2 < |order| && res[order[q2]].halves > 0 ==>
      res[order[q1]].halves == cur'[order[q1]].halves
    ensures forall q1, q2 :: p <= q1 < q2 < |order| && res[order[q2]].halves > 0 ==>
      res[order[q1]].halves == cur[order[q1]].halves
  {
    var k := order[p];
    var alloc' := alloc + g;
    WalkFrame(cur', order, p + 1, alloc');
    assert k !in order[p + 1..];
    if g != cur[k].halves {
      assert alloc' >= DailyCapHalves;
      WalkSaturated(cur', order, p + 1, alloc');
    }
    forall q1, q2 | p <= q1 < q2 < |order| && res[order[q2]].halves > 0
      ensures res[order[q1]].halves == cur[order[q1]].halves
    {
      if q1 > p {
        assert cur'[order[q1]] == cur[order[q1]];
      }
    }
  }

  // ----- Facts about a capped day -----

  lemma SortedIsDistinct(keys: seq<Day>, order: seq<int>)
    requires SortedBy(keys, order)
    ensures Distinct(order)
  {
    forall p, q | 0 <= p < q < |order| ensures order[p] != order[q] {
      assert Before(keys, order[p], order[q]);
    }
  }

  /** Capping never adds hours to an entry; a cut entry stays in the list with zero hours. */
  lemma CapNeverRaises(day: seq<Assignment>, dueOf: map<TaskId, Day>)
    requires KnownIds(day, dueOf)
    requires NonNegative(day)
    ensures forall k :: 0 <= k < |day| ==> 0 <= CappedDay(day, dueOf)[k].halves <= day[k].halves
  {
    if Total(day) > DailyCapHalves {
      var order := StableOrder(DueKeys(day, dueOf), |day|);
      SortedIsDistinct(DueKeys(day, dueOf), order);
      assert forall q :: 0 <= q < |order| ==> order[q] in order;
      WalkNeverRaises(day, order, 0, 0);
    }
  }

  /** After capping, a day holds at most five hours, and exactly five when it held more. */
  lemma CapMeetsLimit(day: seq<Assignment>, dueOf: map<TaskId, Day>)
    requires KnownIds(day, dueOf)
    requires NonNegative(day)
    ensures Total(day) <= DailyCapHalves ==> Total(CappedDay(day, dueOf)) == Total(day)
    ensures Total(day) > DailyCapHalves ==> Total(CappedDay(day, dueOf)) == DailyCapHalves
  {
    if Total(day) > DailyCapHalves {
      var order := StableOrder(DueKeys(day, dueOf), |day|);
      SortedIsDistinct(DueKeys(day, dueOf), order);
      assert forall q :: 0 <= q < |order| ==> order[q] in order;
      assert order[0..] == order;
      SumInAll(day, order, |day|);
      WalkTotal(day, order, 0, 0);
    }
  }

  /**
   * Hours go to entries in order of due date: when an entry keeps any
   * hours, every entry served before it (due earlier, or due the same day
   * and listed earlier) kept all of its hours.
   */
  lemma CapServesEarliestDueFirst(day: seq<Assignment>, dueOf: map<TaskId, Day>, j: nat, k: nat)
    requires KnownIds(day, dueOf)
    requires j < |day| && k < |day|
    requires Before(DueKeys(day, dueOf), j, k)
    requires CappedDay(day, dueOf)[k].halves > 0
    ensures CappedDay(day, dueOf)[j].halves == day[j].halves
  {
    if Total(day) > DailyCapHalves {
      var keys := DueKeys(day, dueOf);
      var order := StableOrder(keys, |day|);
      SortedIsDistinct(keys, order);
      assert forall q :: 0 <= q < |order| ==> order[q] in order;
      assert j in order && k in order;
      var pj :| 0 <= pj < |order| && order[pj] == j;
      var pk :| 0 <= pk < |order| && order[pk] == k;
      ServedInKeyOrder(keys, order, pj, pk);
      WalkPriority(day, order, 0, 0);
      var res := Walk(day, order, 0, 0);
      assert res[order[pk]].halves > 0;
      assert res[order[pj]].halves == day[order[pj]].halves;
    }
  }

  /** The entry at position `j` keeps its task when the day is capped. */
  lemma CappedEntry(day: seq<Assignment>, dueOf: map<TaskId, Day>, j: nat)
    requires KnownIds(day, dueOf) && j < |CappedDay(day, dueOf)|
    ensures j < |day| && CappedDay(day, dueOf)[j].taskId == day[j].taskId
  {
  }

  /** Capping keeps every entry's task, so a task missing from a day stays missing. */
  lemma CapKeepsUnlisted(day: seq<Assignment>, dueOf: map<TaskId, Day>, id: TaskId)
    requires KnownIds(day, dueOf)
    requires Unlisted(day, id)
    ensures Unlisted(CappedDay(day, dueOf), id)
  {
  }

  /** An index due before another sits earlier in a serving order. */
  lemma ServedInKeyOrder(keys: seq<Day>, order: seq<int>, pj: nat, pk: nat)
    requires SortedBy(keys, order) && pj < |order| && pk < |order|
    requires Before(keys, order[pj], order[pk])
    ensures pj < pk
  {
  }
}
