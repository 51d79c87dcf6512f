/**
 * Python's one-argument `round`, which rounds to the nearest integer and
 * breaks ties towards the even neighbour, and the scheduler's use of it to
 * round an amount of hours to the nearest half hour (`round(x * 2) / 2`).
 */
module Rounding {

  /** `round(x)`: the nearest integer, ties to the even one. */
  function RoundHalfEven(x: real): (r: int)
    ensures x - 0.5 <= r as real <= x + 0.5
    ensures (r as real == x + 0.5 || r as real == x - 0.5) ==> r % 2 == 0
  {
    var f := x.Floor;
    var frac := x - f as real;
    if frac < 0.5 then f
    else if frac > 0.5 then f + 1
    else if f % 2 == 0 then f else f + 1
  }

  /** `round(hours * 2)`: an amount of hours as a whole number of half hours. */
  function ToHalves(hours: real): (h: int)
    ensures hours - 0.25 <= h as real / 2.0 <= hours + 0.25
  {
    RoundHalfEven(hours * 2.0)
  }

  /** The contract above pins the result down: no other integer qualifies. */
  lemma RoundHalfEvenUnique(x: real, r: int)
    requires x - 0.5 <= r as real <= x + 0.5
    requires (r as real == x + 0.5 || r as real == x - 0.5) ==> r % 2 == 0
    ensures r == RoundHalfEven(x)
  {
  }

  /** Whole numbers are left alone. */
  lemma RoundOfWhole(n: int)
    ensures RoundHalfEven(n as real) == n
  {
  }

  /** Amounts of at most half a unit (and above minus half) round to zero: 0.5 is a tie and 0 is even. */
  lemma RoundOfSmall(x: real)
    requires -0.5 < x <= 0.5
    ensures RoundHalfEven(x) == 0
  {
  }

  /** Rounding never reverses the order of two amounts. */
  lemma RoundMonotone(x: real, y: real)
    requires x <= y
    ensures RoundHalfEven(x) <= RoundHalfEven(y)
  {
  }

  /** Python's rule differs from rounding half up: 0.5 and 2.5 go down, 1.5 goes up. */
  lemma RoundHalfEvenTies()
    ensures RoundHalfEven(0.5) == 0 && RoundHalfEven(1.5) == 2 && RoundHalfEven(2.5) == 2
  {
    RoundHalfEvenUnique(0.5, 0);
    RoundHalfEvenUnique(1.5, 2);
    RoundHalfEvenUnique(2.5, 2);
  }
}
