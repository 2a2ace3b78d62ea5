/**
 * The rates of every day of a range (`getCurrencyHistories`): count the
 * days, allocate one slot per day, run the day task of each day into its
 * own slot, and return the slots only when no task failed.
 *
 * The source runs the day tasks concurrently in an errgroup; each task
 * writes only its own pre-assigned slot, so the tasks are modelled as a
 * sequential loop over the days.
 */
module History {
  import opened Wrappers
  import opened Entities
  import opened Dates
  import opened Rates

  /**
   * The slot count as the source computes it,
   * `int(end.Sub(start).Hours()/24) + 1`, on a range in order: the
   * saturating duration truncated to whole days, plus one.
   */
  function DayCountAsWritten(start: Date, end: Date): (n: int)
    requires start <= end
    ensures 1 <= n <= MaxDuration / NanosPerDay + 1
  {
    Sub(end, start) / NanosPerDay + 1
  }

  /**
   * The number of calendar days from `start` to `end` inclusive, computed on
   * the exact difference: `n - 1` whole days fit in the range and `n` do not.
   */
  function DayCount(start: Date, end: Date): (n: nat)
    requires start <= end
    ensures n >= 1
    ensures (n - 1) * NanosPerDay <= end - start < n * NanosPerDay
  {
    (end - start) / NanosPerDay + 1
  }

  /**
   * The dates the loop `for d := start; !d.After(end); d = d.AddDate(0, 0, 1)`
   * visits, in order.
   */
  function LoopDates(start: Date, end: Date): (ds: seq<Date>)
    ensures ds == [] <==> After(start, end)
    ensures ds != [] ==> ds[0] == start
    ensures forall k :: 0 <= k < |ds| ==> !After(ds[k], end)
    ensures forall k :: 0 < k < |ds| ==> ds[k] == NextDay(ds[k - 1])
    decreases end - start + NanosPerDay
  {
    if After(start, end) then [] else [start] + LoopDates(NextDay(start), end)
  }

  /**
   * The loop over the range runs exactly `DayCount` times, and its
   * iteration `k` visits the date `k` days after `start`.
   */
  lemma {:induction false} LoopDatesMatchDayCount(start: Date, end: Date)
    requires start <= end
    ensures |LoopDates(start, end)| == DayCount(start, end)
    ensures forall k :: 0 <= k < |LoopDates(start, end)| ==> LoopDates(start, end)[k] == Day(start, k)
    decreases end - start
  {
    var next := NextDay(start);
    if After(next, end) {
      assert LoopDates(next, end) == [];
    } else {
      LoopDatesMatchDayCount(next, end);
      var rest := LoopDates(next, end);
      assert LoopDates(start, end) == [start] + rest;
      forall k | 0 < k < |LoopDates(start, end)|
        ensures LoopDates(start, end)[k] == Day(start, k)
      {
        assert LoopDates(start, end)[k] == rest[k - 1] == Day(next, k - 1);
      }
    }
  }

  /** The largest difference at which the source's slot count is still right. */
  const SaturationBound: int := (MaxDuration / NanosPerDay + 1) * NanosPerDay

  /**
   * The slot count agrees with the number of loop iterations exactly when the
   * range is shorter than `SaturationBound` (106752 days, about 292 years);
   * beyond it `Sub` saturates and the slot count stays at 106752.
   */
  lemma SlotCountAgreesBelowSaturation(start: Date, end: Date)
    requires start <= end
    ensures DayCountAsWritten(start, end) == DayCount(start, end) <==> end - start < SaturationBound
    ensures end - start >= SaturationBound ==> DayCountAsWritten(start, end) < |LoopDates(start, end)|
  {
    LoopDatesMatchDayCount(start, end);
    var q := MaxDuration / NanosPerDay;
    assert q * NanosPerDay <= MaxDuration < SaturationBound;
    if end - start > MaxDuration {
      assert Sub(end, start) == MaxDuration;
      assert DayCountAsWritten(start, end) == q + 1;
    }
  }

  /**
   * A malformed start date becomes the zero Time (year 1). With an end on
   * 2024-01-01, 738885 days later, the loop visits 738886 dates while only
   * 106752 slots were made, so iteration 106752 writes past the last slot.
   */
  lemma MalformedStartOverflowsSlots()
    ensures var end := 738885 * NanosPerDay;
            && DayCountAsWritten(ZeroDate, end) == 106752
            && |LoopDates(ZeroDate, end)| == 738886
  {
    var end := 738885 * NanosPerDay;
    LoopDatesMatchDayCount(ZeroDate, end);
    SlotCountAgreesBelowSaturation(ZeroDate, end);
  }

  /** The day task of the day `k` days after `start`, on the date text `format` gives it. */
  function DayOutcome(start: Date, k: nat, from: string, to: string,
                      fetch: Query -> Result<Document, Error>,
                      parseNumber: string -> Option<Float64>,
                      format: Date -> string): Result<Option<CurrencyHistory>, Error>
  {
    DayResult(from, to, format(Day(start, k)), fetch, parseNumber)
  }

  /**
   * What `getCurrencyHistories` may return for the range: either every day
   * succeeded and slot `k` holds the result of day `k` (nil when its page
   * had no rate), one slot per day; or some day failed and its error is
   * returned, with no slots.
   */
  predicate RangeOutcome(start: Date, end: Date, from: string, to: string,
                         fetch: Query -> Result<Document, Error>,
                         parseNumber: string -> Option<Float64>,
                         format: Date -> string,
                         r: Result<seq<Option<CurrencyHistory>>, Error>)
    requires start <= end
  {
    var n := DayCount(start, end);
    match r
    case Success(slots) =>
      && |slots| == n
      && forall k :: 0 <= k < |slots| ==>
           DayOutcome(start, k, from, to, fetch, parseNumber, format) == Success(slots[k])
    case Failure(e) =>
      exists k :: 0 <= k < n && DayOutcome(start, k, from, to, fetch, parseNumber, format) == Failure(e)
  }

  /** All or nothing: the range succeeds exactly when no day fails. */
  lemma RangeSucceedsIffNoDayFails(start: Date, end: Date, from: string, to: string,
                                   fetch: Query -> Result<Document, Error>,
                                   parseNumber: string -> Option<Float64>,
                                   format: Date -> string,
                                   r: Result<seq<Option<CurrencyHistory>>, Error>)
    requires start <= end
    requires RangeOutcome(start, end, from, to, fetch, parseNumber, format, r)
    ensures r.Success? <==>
            forall k :: 0 <= k < DayCount(start, end) ==> DayOutcome(start, k, from, to, fetch, parseNumber, format).Success?
  {
    if r.Success? {
      forall k | 0 <= k < DayCount(start, end)
        ensures DayOutcome(start, k, from, to, fetch, parseNumber, format).Success?
      {
        assert DayOutcome(start, k, from, to, fetch, parseNumber, format) == Success(r.value[k]);
      }
    }
  }

  /**
   * On success the slots are in date order: a non-nil slot `k` carries the
   * date text of the day `k` days after `start`.
   */
  lemma SlotsInDateOrder(start: Date, end: Date, from: string, to: string,
                         fetch: Query -> Result<Document, Error>,
                         parseNumber: string -> Option<Float64>,
                         format: Date -> string,
                         slots: seq<Option<CurrencyHistory>>)
    requires start <= end
    requires RangeOutcome(start, end, from, to, fetch, parseNumber, format, Success(slots))
    ensures |slots| == DayCount(start, end)
    ensures forall k :: 0 <= k < |slots| && slots[k].Some? ==> slots[k].value.date == format(Day(start, k))
  {
    forall k | 0 <= k < |slots| && slots[k].Some?
      ensures slots[k].value.date == format(Day(start, k))
    {
      DayResultOfReversedQuery(from, to, format(Day(start, k)), fetch, parseNumber);
    }
  }

  /**
   * `getCurrencyHistories` on a clamped range (`start <= end`): one slot per
   * day, day `k`'s result written to slot `k`, and the slots returned only
   * when no day failed.
   */
  method GetCurrencyHistories(start: Date, end: Date, from: string, to: string,
                              fetch: Query -> Result<Document, Error>,
                              parseNumber: string -> Option<Float64>,
                              format: Date -> string)
    returns (r: Result<seq<Option<CurrencyHistory>>, Error>)
    requires start <= end
    ensures RangeOutcome(start, end, from, to, fetch, parseNumber, format, r)
  {
    var days := DayCount(start, end);
    var slots := new Option<CurrencyHistory>[days](_ => None);
    ghost var expected := seq(days, k requires 0 <= k => DayOutcome(start, k, from, to, fetch, parseNumber, format));
    var failed: Option<Error> := None;
    var idx := 0;
    var d := start;
    while !After(d, end)
      invariant 0 <= idx <= days
      invariant d == Day(start, idx)
      invariant forall k :: 0 <= k < idx ==> slots[k] == if expected[k].Success? then expected[k].value else None
      invariant failed.None? ==> forall k :: 0 <= k < idx ==> expected[k].Success?
      invariant failed.Some? ==> exists k :: 0 <= k < idx && expected[k] == Failure(failed.value)
      decreases end - d
    {
      assert idx < days;
      var result := GetCurrencyHistory(from, to, format(d), fetch, parseNumber);
      assert result == expected[idx];
      slots[idx] := if result.Success? then result.value else None;
      if result.Failure? && failed.None? {
        failed := Some(result.error);
      }
      DayStep(start, idx);
      idx := idx + 1;
      d := NextDay(d);
    }
    assert idx == days;
    if failed.Some? {
      return Failure(failed.value);
    }
    return Success(slots[..]);
  }
}
