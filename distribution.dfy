/**
 * Pass 1 of the work schedule: each pending task's remaining effort is
 * spread over the days from today through its due date, in half-hour
 * units, with a lighter load on weekends. The functions here state, day by
 * day, what the source's loops append; `Scheduler` holds those loops.
 */
module Distribution {
  import opened Wrappers
  import opened Rounding
  import opened Tasks

  function RealMin(a: real, b: real): real
  {
    if a <= b then a else b
  }

  /** A row of `m` days on which a task gets nothing. */
  function Nones(m: nat): (s: seq<Option<int>>)
    ensures |s| == m && forall j :: 0 <= j < m ==> s[j] == None
  {
    seq(m, _ => None)
  }

  /** The row has no amount from position `m` on. */
  predicate EmptyFrom(row: seq<Option<int>>, m: nat)
  {
    forall j :: m <= j < |row| ==> row[j] == None
  }

  /** The half hours a row grants in all. */
  function Granted(row: seq<Option<int>>): int
  {
    if row == [] then 0
    else (if row[0].Some? then row[0].value else 0) + Granted(row[1..])
  }

  /**
   * `max(0.5, round(remaining / days_until_due * 2) / 2)`: the even share of
   * the remaining effort per day, to the nearest half hour, at least one half hour.
   */
  function DailyHalves(remaining: real, daysUntilDue: int): (h: int)
    requires daysUntilDue >= 1
    ensures h >= 1
  {
    var share := RoundHalfEven(remaining / daysUntilDue as real * 2.0);
    if share < 1 then 1 else share
  }

  /**
   * The daily share is the even share to the nearest half hour, a tie going
   * to an even number of half hours, and it is one half hour exactly when
   * the even share is less than three quarters of an hour.
   */
  lemma DailyHalvesNearShare(remaining: real, daysUntilDue: int)
    requires daysUntilDue >= 1
    ensures var h := DailyHalves(remaining, daysUntilDue);
      var share := remaining / daysUntilDue as real * 2.0;
      && (h > 1 ==> h as real - 0.5 <= share <= h as real + 0.5)
      && (h > 1 && (h as real == share + 0.5 || h as real == share - 0.5) ==> h % 2 == 0)
      && (h == 1 <==> share < 1.5)
  {
  }

  /**
   * The day's amount before clamping: the daily share on weekdays; on
   * Saturday and Sunday 80% of it, to the nearest half hour, at least one half hour.
   */
  function AdjustedHalves(daily: int, d: Day): (a: int)
    requires daily >= 1
    ensures 1 <= a <= daily
    ensures !IsWeekend(d) ==> a == daily
  {
    if Weekday(d) >= 5 then
      var reduced := RoundHalfEven(daily as real * 0.8);
      if reduced < 1 then 1 else reduced
    else daily
  }

  /**
   * On Saturday and Sunday the amount is 80% of the daily share to the
   * nearest half hour; it stays one half hour only for a share of one half
   * hour, and a share of 1.5 hours or more is lowered.
   */
  lemma WeekendShare(daily: int, d: Day)
    requires daily >= 1 && IsWeekend(d)
    ensures var a := AdjustedHalves(daily, d);
      && (a == 1 <==> daily == 1)
      && (daily >= 2 ==> a as real - 0.5 <= 0.8 * daily as real <= a as real + 0.5)
      && (daily >= 3 ==> a < daily)
  {
  }

  /**
   * The per-day walk for one task, from day offset `i` to `dud - 1`, when
   * `alloc` half hours were granted on earlier days: the walk stops once
   * the grants reach the remaining effort (`rem2`, in half hours); a day
   * gets the adjusted amount clamped to what is still unallocated, rounded,
   * and nothing when that rounds to zero.
   */
  function Spread(rem2: real, daily: int, today: Day, i: int, dud: int, alloc: int): (row: seq<Option<int>>)
    requires daily >= 1 && 0 <= i <= dud
    ensures |row| == dud - i
    ensures forall j :: 0 <= j < |row| && row[j].Some? ==> row[j].value >= 1
    decreases dud - i
  {
    if i == dud then []
    else if alloc as real >= rem2 then Nones(dud - i)
    else
      var h := RoundHalfEven(RealMin(AdjustedHalves(daily, today + i) as real, rem2 - alloc as real));
      [if h > 0 then Some(h) else None] + Spread(rem2, daily, today, i + 1, dud, if h > 0 then alloc + h else alloc)
  }

  /** One day of the walk while the remaining effort is not yet reached. */
  lemma SpreadStep(rem2: real, daily: int, today: Day, i: int, dud: int, alloc: int, h: int, alloc': int)
    requires daily >= 1 && 0 <= i < dud && alloc as real < rem2
    requires h == RoundHalfEven(RealMin(AdjustedHalves(daily, today + i) as real, rem2 - alloc as real))
    requires alloc' == if h > 0 then alloc + h else alloc
    ensures Spread(rem2, daily, today, i, dud, alloc)[0] == (if h > 0 then Some(h) else None)
    ensures Spread(rem2, daily, today, i, dud, alloc)[1..] == Spread(rem2, daily, today, i + 1, dud, alloc')
  {
    var s := Spread(rem2, daily, today, i, dud, alloc);
    assert s == [if h > 0 then Some(h) else None] + Spread(rem2, daily, today, i + 1, dud, alloc');
  }

  /** No day of the walk gets more than its weekend-adjusted share. */
  lemma {:induction false} SpreadAtMostAdjusted(rem2: real, daily: int, today: Day, i: int, dud: int, alloc: int, j: nat, d: Day)
    requires daily >= 1 && 0 <= i <= dud && j < dud - i && d == today + i + j
    requires Spread(rem2, daily, today, i, dud, alloc)[j].Some?
    ensures Spread(rem2, daily, today, i, dud, alloc)[j].value <= AdjustedHalves(daily, d)
    decreases dud - i
  {
    var row := Spread(rem2, daily, today, i, dud, alloc);
    assert alloc as real < rem2;
    var adj := AdjustedHalves(daily, today + i);
    var x := RealMin(adj as real, rem2 - alloc as real);
    var h := RoundHalfEven(x);
    var alloc' := if h > 0 then alloc + h else alloc;
    SpreadStep(rem2, daily, today, i, dud, alloc, h, alloc');
    if j == 0 {
      RoundMonotone(x, adj as real);
      RoundOfWhole(adj);
    } else {
      assert Spread(rem2, daily, today, i + 1, dud, alloc')[j - 1] == row[j];
      SpreadAtMostAdjusted(rem2, daily, today, i + 1, dud, alloc', j - 1, d);
    }
  }

  /** Once the grants reach the remaining effort, the rest of the walk grants nothing. */
  lemma SpreadDone(rem2: real, daily: int, today: Day, i: int, dud: int, alloc: int)
    requires daily >= 1 && 0 <= i <= dud && alloc as real >= rem2
    ensures Spread(rem2, daily, today, i, dud, alloc) == Nones(dud - i)
  {
  }

  /**
   * What one task contributes to each of the `n` days of the horizon
   * (offset 0 is today): nothing for a completed task or one without
   * remaining effort; all of the remaining effort today for a task due
   * before today; the spread share for a task due within the horizon; and
   * nothing for a task due beyond it.
   */
  function TaskRow(t: Task, today: Day, n: nat): (row: seq<Option<int>>)
    ensures |row| == n
  {
    if !Eligible(t) then Nones(n)
    else
      var dud := DaysUntilDue(t, today);
      if dud <= 0 then
        if n == 0 then [] else [Some(ToHalves(Remaining(t)))] + Nones(n - 1)
      else if dud <= n then
        Spread(2.0 * Remaining(t), DailyHalves(Remaining(t), dud), today, 0, dud, 0) + Nones(n - dud)
      else Nones(n)
  }

  /** A row followed by empty days has the row's amounts and none after it. */
  lemma ExtendedRow(full: seq<Option<int>>, row: seq<Option<int>>, n: nat)
    requires |row| <= n && full == row + Nones(n - |row|)
    ensures |full| == n && forall j :: 0 <= j < n ==> full[j] == if j < |row| then row[j] else None
  {
  }

  /** A completed task, one without remaining effort and one due beyond the horizon get nothing on any day. */
  lemma TaskRowUnscheduled(t: Task, today: Day, n: nat)
    requires !Eligible(t) || DaysUntilDue(t, today) > n
    ensures forall j :: 0 <= j < n ==> TaskRow(t, today, n)[j] == None
  {
  }

  /** A task due before today gets all of its remaining effort today and nothing later. */
  lemma TaskRowOverdue(t: Task, today: Day, n: nat)
    requires Eligible(t) && DaysUntilDue(t, today) <= 0 && n >= 1
    ensures TaskRow(t, today, n)[0] == Some(ToHalves(Remaining(t)))
    ensures forall j :: 1 <= j < n ==> TaskRow(t, today, n)[j] == None
  {
  }

  /**
   * Only a pending task with effort left gets amounts; they are never
   * negative and never fall after the due date, except an overdue task's
   * amount today.
   */
  lemma TaskRowAmounts(t: Task, today: Day, n: nat, j: nat)
    requires j < n && TaskRow(t, today, n)[j].Some?
    ensures Eligible(t) && TaskRow(t, today, n)[j].value >= 0
    ensures today + j <= t.due || (j == 0 && t.due < today)
  {
  }

  /** For a task due within the horizon, its row is the walk followed by empty days. */
  lemma TaskRowSpreads(t: Task, today: Day, n: nat, rem2: real, daily: int, dud: int)
    requires Eligible(t) && dud == DaysUntilDue(t, today) && 1 <= dud <= n
    requires rem2 == 2.0 * Remaining(t) && daily == DailyHalves(Remaining(t), dud)
    ensures TaskRow(t, today, n) == Spread(rem2, daily, today, 0, dud, 0) + Nones(n - dud)
  {
  }

  // ----- Sums of rows -----

  lemma {:induction false} GrantedNones(m: nat)
    ensures Granted(Nones(m)) == 0
  {
    if m > 0 {
      assert Nones(m)[1..] == Nones(m - 1);
      GrantedNones(m - 1);
    }
  }

  lemma {:induction false} GrantedAppend(a: seq<Option<int>>, b: seq<Option<int>>)
    ensures Granted(a + b) == Granted(a) + Granted(b)
  {
    if a == [] {
      assert a + b == b;
    } else {
      assert (a + b)[0] == a[0];
      assert (a + b)[1..] == a[1..] + b;
      GrantedAppend(a[1..], b);
    }
  }

  // ----- The per-day walk of one task -----

  /** Once at most a quarter of an hour is left to allocate, every further day rounds to nothing. */
  lemma {:induction false} SpreadTail(rem2: real, daily: int, today: Day, i: int, dud: int, alloc: int)
    requires daily >= 1 && 0 <= i <= dud
    requires rem2 - alloc as real <= 0.5
    ensures EmptyFrom(Spread(rem2, daily, today, i, dud, alloc), 0)
    decreases dud - i
  {
    if i < dud && alloc as real < rem2 {
      var x := RealMin(AdjustedHalves(daily, today + i) as real, rem2 - alloc as real);
      RoundOfSmall(x);
      SpreadStep(rem2, daily, today, i, dud, alloc, RoundHalfEven(x), alloc);
      SpreadTail(rem2, daily, today, i + 1, dud, alloc);
      NonesShift(Spread(rem2, daily, today, i, dud, alloc), Spread(rem2, daily, today, i + 1, dud, alloc), 1);
    } else if i < dud {
      SpreadDone(rem2, daily, today, i, dud, alloc);
    }
  }

  /** The grants of a row's first `m` days are its first day's grant plus those of the next `m - 1` days after it. */
  lemma GrantedShift(row: seq<Option<int>>, rest: seq<Option<int>>, m: nat)
    requires 1 <= m <= |row| && row[1..] == rest
    ensures Granted(row[..m]) == (if row[0].Some? then row[0].value else 0) + Granted(rest[..m - 1])
  {
    assert row[..m][0] == row[0] && row[..m][1..] == rest[..m - 1];
  }

  /** Empty days from position `m - 1` of a row's tail are empty days from position `m` of the row. */
  lemma NonesShift(row: seq<Option<int>>, rest: seq<Option<int>>, m: nat)
    requires 1 <= m <= |row| && row[1..] == rest && EmptyFrom(rest, m - 1)
    ensures EmptyFrom(row, m)
  {
    forall j | m <= j < |row|
      ensures row[j] == None
    {
      assert row[j] == rest[j - 1];
    }
  }

  /**
   * A day's grant while `rem2 - alloc` half hours are unallocated: at most
   * a quarter of an hour over the rest, not over it when the remaining effort
   * is a whole number of half hours, and within a quarter of an hour of the
   * rest when it is less than the adjusted amount.
   */
  lemma ClampedShare(adj: int, rem2: real, alloc: int)
    requires adj >= 1 && alloc as real < rem2
    ensures var h := RoundHalfEven(RealMin(adj as real, rem2 - alloc as real));
      && h as real <= rem2 - alloc as real + 0.5
      && (rem2.Floor as real == rem2 ==> h as real <= rem2 - alloc as real)
      && (h != adj ==> rem2 - alloc as real - h as real <= 0.5)
  {
    RoundOfWhole(adj);
    if rem2.Floor as real == rem2 {
      RoundOfWhole(rem2.Floor - alloc);
    }
  }

  /**
   * The walk stops once the running total is within a quarter of an hour of
   * the remaining effort (in particular once it reaches it): no later day gets anything.
   */
  lemma {:induction false} SpreadStops(rem2: real, daily: int, today: Day, i: int, dud: int, alloc: int, m: nat)
    requires daily >= 1 && 0 <= i <= dud && m <= dud - i
    requires rem2 - (alloc + Granted(Spread(rem2, daily, today, i, dud, alloc)[..m])) as real <= 0.5
    ensures EmptyFrom(Spread(rem2, daily, today, i, dud, alloc), m)
    decreases dud - i
  {
    var row := Spread(rem2, daily, today, i, dud, alloc);
    if m == 0 {
      assert row[..0] == [];
      SpreadTail(rem2, daily, today, i, dud, alloc);
    } else if alloc as real >= rem2 {
      SpreadDone(rem2, daily, today, i, dud, alloc);
    } else {
      var h := RoundHalfEven(RealMin(AdjustedHalves(daily, today + i) as real, rem2 - alloc as real));
      var alloc' := if h > 0 then alloc + h else alloc;
      SpreadStep(rem2, daily, today, i, dud, alloc, h, alloc');
      var rest := Spread(rem2, daily, today, i + 1, dud, alloc');
      GrantedShift(row, rest, m);
      SpreadStops(rem2, daily, today, i + 1, dud, alloc', m - 1);
      NonesShift(row, rest, m);
    }
  }

  /**
   * Every day gets the full (weekend-adjusted) amount except possibly the
   * last day that gets anything: a day clamped to the unallocated rest ends the walk.
   */
  lemma {:induction false} SpreadClampIsLast(rem2: real, daily: int, today: Day, i: int, dud: int, alloc: int, j: nat, d: Day)
    requires daily >= 1 && 0 <= i <= dud && j < dud - i && d == today + i + j
    requires Spread(rem2, daily, today, i, dud, alloc)[j].Some?
    requires Spread(rem2, daily, today, i, dud, alloc)[j].value != AdjustedHalves(daily, d)
    ensures EmptyFrom(Spread(rem2, daily, today, i, dud, alloc), j + 1)
    decreases dud - i
  {
    var row := Spread(rem2, daily, today, i, dud, alloc);
    if alloc as real >= rem2 {
      SpreadDone(rem2, daily, today, i, dud, alloc);
      assert false;
    }
    if j == 0 {
      ClampEndsWalk(rem2, daily, today, i, dud, alloc);
    } else {
      var h := RoundHalfEven(RealMin(AdjustedHalves(daily, today + i) as real, rem2 - alloc as real));
      var alloc' := if h > 0 then alloc + h else alloc;
      SpreadStep(rem2, daily, today, i, dud, alloc, h, alloc');
      var rest := Spread(rem2, daily, today, i + 1, dud, alloc');
      assert rest[j - 1] == row[j];
      SpreadClampIsLast(rem2, daily, today, i + 1, dud, alloc', j - 1, d);
      NonesShift(row, rest, j + 1);
    }
  }

  /** A first day clamped below its adjusted amount leaves at most a quarter of an hour, so the walk ends there. */
  lemma ClampEndsWalk(rem2: real, daily: int, today: Day, i: int, dud: int, alloc: int)
    requires daily >= 1 && 0 <= i < dud && alloc as real < rem2
    requires Spread(rem2, daily, today, i, dud, alloc)[0].Some?
    requires Spread(rem2, daily, today, i, dud, alloc)[0].value != AdjustedHalves(daily, today + i)
    ensures EmptyFrom(Spread(rem2, daily, today, i, dud, alloc), 1)
  {
    var row := Spread(rem2, daily, today, i, dud, alloc);
    var adj := AdjustedHalves(daily, today + i);
    var h := RoundHalfEven(RealMin(adj as real, rem2 - alloc as real));
    var alloc' := if h > 0 then alloc + h else alloc;
    SpreadStep(rem2, daily, today, i, dud, alloc, h, alloc');
    var rest := Spread(rem2, daily, today, i + 1, dud, alloc');
    ClampedShare(adj, rem2, alloc);
    SpreadTail(rem2, daily, today, i + 1, dud, alloc');
    NonesShift(row, rest, 1);
  }

  /**
   * The walk grants at most a quarter of an hour more than the remaining
   * effort in all, and never more than it when the remaining effort is a whole number
   * of half hours.
   */
  lemma {:induction false} SpreadTotal(rem2: real, daily: int, today: Day, i: int, dud: int, alloc: int)
    requires daily >= 1 && 0 <= i <= dud
    ensures alloc as real >= rem2 ==> Granted(Spread(rem2, daily, today, i, dud, alloc)) == 0
    ensures alloc as real < rem2 ==> (alloc + Granted(Spread(rem2, daily, today, i, dud, alloc))) as real <= rem2 + 0.5
    ensures alloc as real < rem2 && rem2.Floor as real == rem2 ==>
      (alloc + Granted(Spread(rem2, daily, today, i, dud, alloc))) as real <= rem2
    decreases dud - i
  {
    var row := Spread(rem2, daily, today, i, dud, alloc);
    if i == dud {
    } else if alloc as real >= rem2 {
      SpreadDone(rem2, daily, today, i, dud, alloc);
      GrantedNones(dud - i);
    } else {
      var adj := AdjustedHalves(daily, today + i);
      var h := RoundHalfEven(RealMin(adj as real, rem2 - alloc as real));
      var alloc' := if h > 0 then alloc + h else alloc;
      SpreadStep(rem2, daily, today, i, dud, alloc, h, alloc');
      var rest := Spread(rem2, daily, today, i + 1, dud, alloc');
      assert Granted(row) == alloc' - alloc + Granted(rest);
      SpreadTotal(rem2, daily, today, i + 1, dud, alloc');
      ClampedShare(adj, rem2, alloc);
    }
  }

  /** Every day from offset `i` on gets its full weekend-adjusted share. */
  predicate FullShares(row: seq<Option<int>>, daily: int, today: Day, i: int)
    requires daily >= 1
  {
    forall j :: 0 <= j < |row| ==> row[j] == Some(AdjustedHalves(daily, today + i + j))
  }

  lemma {:induction false} GrantedNonNegative(row: seq<Option<int>>)
    requires forall j :: 0 <= j < |row| && row[j].Some? ==> row[j].value >= 0
    ensures Granted(row) >= 0
  {
    if row != [] {
      assert forall j :: 0 <= j < |row[1..]| ==> row[1..][j] == row[j + 1];
      GrantedNonNegative(row[1..]);
    }
  }

  /** A first day at its full share followed by days at their full shares. */
  lemma FullSharesCons(row: seq<Option<int>>, rest: seq<Option<int>>, daily: int, today: Day, i: int)
    requires daily >= 1 && |row| == |rest| + 1 && row[1..] == rest
    requires row[0] == Some(AdjustedHalves(daily, today + i)) && FullShares(rest, daily, today, i + 1)
    ensures FullShares(row, daily, today, i)
  {
    forall j | 0 <= j < |row|
      ensures row[j] == Some(AdjustedHalves(daily, today + i + j))
    {
      if j > 0 {
        assert row[j] == rest[j - 1];
        assert today + (i + 1) + (j - 1) == today + i + j;
      }
    }
  }

  /** A day clamped below its adjusted share brings the grants within a quarter of an hour of the remaining effort. */
  lemma ClampedCovers(adj: int, rem2: real, alloc: int, h: int)
    requires adj >= 1 && alloc as real < rem2
    requires h == RoundHalfEven(RealMin(adj as real, rem2 - alloc as real)) && h != adj
    ensures (alloc + (if h > 0 then h else 0)) as real >= rem2 - 0.5
  {
    ClampedShare(adj, rem2, alloc);
    RoundOfSmall(0.0);
    RoundMonotone(0.0, RealMin(adj as real, rem2 - alloc as real));
  }

  /** A day that gets its full share keeps the covering property of the days after it. */
  lemma FullDayCovers(row: seq<Option<int>>, rest: seq<Option<int>>, rem2: real, daily: int, today: Day, i: int,
                      alloc: int, alloc': int, h: int)
    requires daily >= 1 && |row| == |rest| + 1 && row[1..] == rest
    requires h == AdjustedHalves(daily, today + i) && row[0] == Some(h) && alloc' == alloc + h
    requires (alloc' + Granted(rest)) as real >= rem2 - 0.5 || FullShares(rest, daily, today, i + 1)
    ensures (alloc + Granted(row)) as real >= rem2 - 0.5 || FullShares(row, daily, today, i)
  {
    assert Granted(row) == h + Granted(rest);
    if FullShares(rest, daily, today, i + 1) {
      FullSharesCons(row, rest, daily, today, i);
    }
  }

  /** A day whose share is clamped to the effort still missing brings the grants within reach. */
  lemma ClampedDayCovers(row: seq<Option<int>>, rest: seq<Option<int>>, rem2: real, h: int, alloc: int)
    requires |row| == |rest| + 1 && row[1..] == rest
    requires row[0] == (if h > 0 then Some(h) else None)
    requires (alloc + (if h > 0 then h else 0)) as real >= rem2 - 0.5
    requires forall j :: 0 <= j < |rest| && rest[j].Some? ==> rest[j].value >= 0
    ensures (alloc + Granted(row)) as real >= rem2 - 0.5
  {
    GrantedNonNegative(rest);
    assert Granted(row) == (if h > 0 then h else 0) + Granted(rest);
  }

  /** Once the remaining effort is reached, or no day is left, the walk grants nothing more. */
  lemma SpreadDoneGrantsNothing(rem2: real, daily: int, today: Day, i: int, dud: int, alloc: int)
    requires daily >= 1 && 0 <= i <= dud && (i == dud || alloc as real >= rem2)
    ensures Granted(Spread(rem2, daily, today, i, dud, alloc)) == 0
    ensures FullShares(Spread(rem2, daily, today, i, dud, alloc), daily, today, i) || alloc as real >= rem2
  {
    if i == dud {
      assert Spread(rem2, daily, today, i, dud, alloc) == [];
    } else {
      SpreadDone(rem2, daily, today, i, dud, alloc);
      GrantedNones(dud - i);
    }
  }

  /**
   * One day of the walk while effort is still missing: the day either gets
   * its full weekend-adjusted share, or a share clamped to the effort still
   * missing that brings the grants within a quarter of an hour of it.
   */
  lemma SpreadHead(rem2: real, daily: int, today: Day, i: int, dud: int, alloc: int) returns (h: int, alloc': int)
    requires daily >= 1 && 0 <= i < dud && alloc as real < rem2
    ensures Spread(rem2, daily, today, i, dud, alloc)[0] == (if h > 0 then Some(h) else None)
    ensures Spread(rem2, daily, today, i, dud, alloc)[1..] == Spread(rem2, daily, today, i + 1, dud, alloc')
    ensures h == AdjustedHalves(daily, today + i) ==> alloc' == alloc + h
    ensures h != AdjustedHalves(daily, today + i) ==> (alloc + (if h > 0 then h else 0)) as real >= rem2 - 0.5
  {
    var adj := AdjustedHalves(daily, today + i);
    h := RoundHalfEven(RealMin(adj as real, rem2 - alloc as real));
    alloc' := if h > 0 then alloc + h else alloc;
    SpreadStep(rem2, daily, today, i, dud, alloc, h, alloc');
    if h != adj {
      ClampedCovers(adj, rem2, alloc, h);
    }
  }

  /**
   * The walk hands out the remaining effort: either its grants come within
   * a quarter of an hour of the remaining effort, or every day up to the
   * due date gets its full weekend-adjusted share.
   */
  lemma {:induction false} SpreadCovers(rem2: real, daily: int, today: Day, i: int, dud: int, alloc: int)
    requires daily >= 1 && 0 <= i <= dud
    ensures (alloc + Granted(Spread(rem2, daily, today, i, dud, alloc))) as real >= rem2 - 0.5 ||
      FullShares(Spread(rem2, daily, today, i, dud, alloc), daily, today, i)
    decreases dud - i
  {
    if i == dud || alloc as real >= rem2 {
      SpreadDoneGrantsNothing(rem2, daily, today, i, dud, alloc);
    } else {
      var h, alloc' := SpreadHead(rem2, daily, today, i, dud, alloc);
      if h == AdjustedHalves(daily, today + i) {
        SpreadCovers(rem2, daily, today, i + 1, dud, alloc');
        FullDayCovers(Spread(rem2, daily, today, i, dud, alloc), Spread(rem2, daily, today, i + 1, dud, alloc'),
                      rem2, daily, today, i, alloc, alloc', h);
      } else {
        ClampedDayCovers(Spread(rem2, daily, today, i, dud, alloc), Spread(rem2, daily, today, i + 1, dud, alloc'),
                         rem2, h, alloc);
      }
    }
  }

  // ----- One task's row -----

  /**
   * For a task due within the horizon (but not before today), amounts fall
   * only on days up to the due date, each at most the weekend-adjusted daily
   * share, and only the last of them may be less than that share.
   */
  lemma SpreadRowDays(t: Task, today: Day, n: nat)
    requires Eligible(t) && 1 <= DaysUntilDue(t, today) <= n
    ensures var row := TaskRow(t, today, n);
      var daily := DailyHalves(Remaining(t), DaysUntilDue(t, today));
      forall j :: 0 <= j < n && row[j].Some? ==>
        && today + j <= t.due
        && 1 <= row[j].value <= AdjustedHalves(daily, today + j) <= daily
        && (row[j].value < AdjustedHalves(daily, today + j) ==> forall j' :: j < j' < n ==> row[j'] == None)
  {
    var row := TaskRow(t, today, n);
    var dud := DaysUntilDue(t, today);
    var rem2 := 2.0 * Remaining(t);
    var daily := DailyHalves(Remaining(t), dud);
    var spread := Spread(rem2, daily, today, 0, dud, 0);
    TaskRowSpreads(t, today, n, rem2, daily, dud);
    ExtendedRow(row, spread, n);
    forall j | 0 <= j < n && row[j].Some?
      ensures today + j <= t.due
      ensures 1 <= row[j].value <= AdjustedHalves(daily, today + j) <= daily
      ensures row[j].value < AdjustedHalves(daily, today + j) ==> forall j' :: j < j' < n ==> row[j'] == None
    {
      assert j < dud && row[j] == spread[j];
      SpreadAtMostAdjusted(rem2, daily, today, 0, dud, 0, j, today + j);
      if row[j].value < AdjustedHalves(daily, today + j) {
        SpreadClampIsLast(rem2, daily, today, 0, dud, 0, j, today + j);
      }
    }
  }

  /**
   * In all, pass 1 gives a task at most its remaining effort when that is a
   * whole number of half hours, and at most a quarter of an hour more otherwise.
   */
  lemma TaskRowTotal(t: Task, today: Day, n: nat)
    ensures Granted(TaskRow(t, today, n)) as real / 2.0 <= RealMax(Remaining(t), 0.0) + 0.25
    ensures (2.0 * Remaining(t)).Floor as real == 2.0 * Remaining(t) ==>
      Granted(TaskRow(t, today, n)) as real / 2.0 <= RealMax(Remaining(t), 0.0)
  {
    var row := TaskRow(t, today, n);
    var dud := DaysUntilDue(t, today);
    if !Eligible(t) || dud > n {
      assert row == Nones(n);
      GrantedNones(n);
    } else if dud <= 0 {
      if n == 0 {
      } else {
        assert row == [row[0]] + Nones(n - 1);
        assert row[1..] == Nones(n - 1);
        GrantedNones(n - 1);
        if (2.0 * Remaining(t)).Floor as real == 2.0 * Remaining(t) {
          RoundOfWhole((2.0 * Remaining(t)).Floor);
        }
      }
    } else {
      var spread := Spread(2.0 * Remaining(t), DailyHalves(Remaining(t), dud), today, 0, dud, 0);
      assert row == spread + Nones(n - dud);
      GrantedAppend(spread, Nones(n - dud));
      GrantedNones(n - dud);
      SpreadTotal(2.0 * Remaining(t), DailyHalves(Remaining(t), dud), today, 0, dud, 0);
    }
  }

  function RealMax(a: real, b: real): real
  {
    if a >= b then a else b
  }

  /** Pass 1 stops a task's walk once its running total comes within a quarter of an hour of the remaining effort. */
  lemma TaskRowStops(t: Task, today: Day, n: nat, m: nat)
    requires Eligible(t) && 1 <= DaysUntilDue(t, today) && m <= n
    requires 2.0 * Remaining(t) - Granted(TaskRow(t, today, n)[..m]) as real <= 0.5
    ensures forall j :: m <= j < n ==> TaskRow(t, today, n)[j] == None
  {
    var row := TaskRow(t, today, n);
    var dud := DaysUntilDue(t, today);
    if dud <= n {
      var spread := Spread(2.0 * Remaining(t), DailyHalves(Remaining(t), dud), today, 0, dud, 0);
      assert row == spread + Nones(n - dud);
      if m <= dud {
        assert row[..m] == spread[..m];
        SpreadStops(2.0 * Remaining(t), DailyHalves(Remaining(t), dud), today, 0, dud, 0, m);
      }
    }
  }

  /**
   * Pass 1 hands a spread task its remaining effort, to within a quarter of
   * an hour, unless every day from today through the due date already gets
   * its full weekend-adjusted daily share.
   */
  lemma TaskRowCovers(t: Task, today: Day, n: nat)
    requires Eligible(t) && 1 <= DaysUntilDue(t, today) <= n
    ensures Granted(TaskRow(t, today, n)) as real / 2.0 >= Remaining(t) - 0.25 ||
      forall j :: 0 <= j < DaysUntilDue(t, today) ==>
        TaskRow(t, today, n)[j] == Some(AdjustedHalves(DailyHalves(Remaining(t), DaysUntilDue(t, today)), today + j))
  {
    var dud := DaysUntilDue(t, today);
    var rem2 := 2.0 * Remaining(t);
    var daily := DailyHalves(Remaining(t), dud);
    var spread := Spread(rem2, daily, today, 0, dud, 0);
    var row := TaskRow(t, today, n);
    TaskRowSpreads(t, today, n, rem2, daily, dud);
    GrantedAppend(spread, Nones(n - dud));
    GrantedNones(n - dud);
    SpreadCovers(rem2, daily, today, 0, dud, 0);
    forall j | 0 <= j < dud && FullShares(spread, daily, today, 0)
      ensures row[j] == Some(AdjustedHalves(daily, today + j))
    {
      assert row[j] == spread[j];
      assert today + 0 + j == today + j;
    }
  }

  /**
   * A remaining effort that is not a whole number of half hours can be
   * overshot: 0.8 hours due today becomes one hour (two half hours).
   */
  lemma OvershootExample(today: Day)
    ensures TaskRow(Task(1, "t", today, 0.8, 0.0, Pending), today, 1) == [Some(2)]
  {
    var t := Task(1, "t", today, 0.8, 0.0, Pending);
    assert DaysUntilDue(t, today) == 1;
    RoundHalfEvenUnique(1.6, 2);
    assert DailyHalves(0.8, 1) == 2;
    assert RealMin(AdjustedHalves(2, today) as real, 1.6) == 1.6;
    assert Spread(1.6, 2, today, 1, 1, 2) == [];
  }

  /**
   * An overdue task with a quarter of an hour left gets a zero-hour entry
   * today: twice 0.25 is a tie, and Python rounds it to the even 0.
   */
  lemma OverdueZeroHoursExample(today: Day)
    ensures TaskRow(Task(1, "t", today - 1, 0.25, 0.0, Pending), today, 1) == [Some(0)]
  {
    RoundHalfEvenUnique(0.5, 0);
    assert ToHalves(0.25) == 0;
  }

  /**
   * A task due today goes through the spread, not the overdue branch, so on
   * a weekend it gets only the reduced share: five hours left on Saturday
   * 6 January 2024 yield four hours that day and nothing more.
   */
  lemma DueTodayOnWeekendExample()
    ensures TaskRow(Task(1, "t", Monday20240101 + 5, 5.0, 0.0, Pending), Monday20240101 + 5, 1) == [Some(8)]
  {
    var sat := Monday20240101 + 5;
    var t := Task(1, "t", sat, 5.0, 0.0, Pending);
    assert DaysUntilDue(t, sat) == 1;
    RoundOfWhole(10);
    assert DailyHalves(5.0, 1) == 10;
    assert IsWeekend(sat);
    RoundOfWhole(8);
    assert AdjustedHalves(10, sat) == 8;
    assert RealMin(8.0, 10.0 - 0 as real) == 8.0;
    assert Spread(10.0, 10, sat, 1, 1, 8) == [];
  }
}
