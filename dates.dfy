/**
 * Go `time.Time` values in UTC and `time.Duration`, as far as the core uses them.
 *
 * A date is the number of nanoseconds since Go's zero Time, January 1 of
 * year 1, 00:00:00 UTC, so the zero Time (what `time.Parse` returns on
 * malformed text) is 0. Every Time in the core is in UTC, where a calendar
 * day is exactly 24 hours long.
 */
module Dates {

  type Date = int

  /** `time.Time{}`. */
  const ZeroDate: Date := 0

  const NanosPerHour: int := 3_600_000_000_000
  const NanosPerDay: int := 24 * NanosPerHour

  /** A `time.Duration` is an int64 count of nanoseconds. */
  const MaxDuration: int := 0x7FFF_FFFF_FFFF_FFFF
  const MinDuration: int := -0x8000_0000_0000_0000

  /** `t.After(u)`: `t` is strictly later, which is when `t.Sub(u)` is positive. */
  predicate After(t: Date, u: Date)
  {
    t > u
  }

  /** `t.AddDate(0, 0, 1)`: the same instant of the next calendar day. */
  function NextDay(t: Date): (n: Date)
    ensures After(n, t)
  {
    t + NanosPerDay
  }

  /** `t.After(u)` holds exactly when `t.Sub(u)` is a positive duration. */
  lemma AfterIffPositiveSub(t: Date, u: Date)
    ensures After(t, u) <==> Sub(t, u) > 0
    ensures After(t, u) ==> !After(u, t)
  {
  }

  /** In UTC the next calendar day is exactly 24 hours later. */
  lemma NextDayIsOneDayLater(t: Date)
    ensures Sub(NextDay(t), t) == NanosPerDay
    ensures !After(t, NextDay(t))
  {
  }

  /** The date `k` calendar days after `start`. */
  function Day(start: Date, k: nat): (d: Date)
    ensures k == 0 ==> d == start
    ensures k > 0 ==> After(d, start)
  {
    start + k * NanosPerDay
  }

  /** Stepping one calendar day from day `k` of a range reaches day `k + 1`. */
  lemma DayStep(start: Date, k: nat)
    ensures NextDay(Day(start, k)) == Day(start, k + 1)
  {
  }

  /**
   * `t.Sub(u)`: the duration from `u` to `t`, saturating at the int64
   * bounds when the true difference does not fit.
   */
  function Sub(t: Date, u: Date): (d: int)
    ensures MinDuration <= d <= MaxDuration
    ensures d == t - u <==> MinDuration <= t - u <= MaxDuration
    ensures (d > 0 <==> t > u) && (d == 0 <==> t == u)
    ensures t - u > MaxDuration ==> d == MaxDuration
    ensures t - u < MinDuration ==> d == MinDuration
  {
    var exact := t - u;
    if exact > MaxDuration then MaxDuration
    else if exact < MinDuration then MinDuration
    else exact
  }
}
