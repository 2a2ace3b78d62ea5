/**
 * Validation of the `/currency-history` query parameters and clamping of
 * the requested date range (`parseParameters`).
 */
module Parameters {
  import opened Wrappers
  import opened Entities
  import opened Dates

  /** The four query parameters, each "" when absent. */
  datatype Request = Request(from: string, to: string, startDate: string, endDate: string)

  /** A validated currency pair and a clamped range. */
  datatype Params = Params(from: string, to: string, start: Date, end: Date)

  const EmptyParameterError: Error := "invalid parameters: a parameter can't be empty"
  const SameCurrencyError: Error := "invalid parameter: from & to can't be same"

  /** Some parameter is missing or empty. */
  predicate AnyEmpty(req: Request)
  {
    req.from == [] || req.to == [] || req.startDate == [] || req.endDate == []
  }

  /**
   * `time.Parse("2006-01-02", text)` with its error ignored: the parsed date,
   * or the zero Time when `parseDate` rejects the text.
   */
  function DateOrZero(text: string, parseDate: string -> Option<Date>): (t: Date)
    ensures parseDate(text).None? ==> t == ZeroDate
    ensures parseDate(text).Some? ==> t == parseDate(text).value
  {
    parseDate(text).GetOr(ZeroDate)
  }

  /**
   * `parseParameters`, with the current time `now` and the date parser
   * `parseDate` passed in.
   */
  function ParseParameters(req: Request, now: Date, parseDate: string -> Option<Date>): (r: Result<Params, Error>)
    ensures r.Failure? <==> AnyEmpty(req) || req.from == req.to
    ensures r.Failure? ==> r.error == if AnyEmpty(req) then EmptyParameterError else SameCurrencyError
    ensures r.Success? ==> r.value.from == req.from && r.value.to == req.to
    ensures r.Success? ==> r.value.start <= r.value.end <= now
  {
    if AnyEmpty(req) then
      Failure(EmptyParameterError)
    else if req.from == req.to then
      Failure(SameCurrencyError)
    else
      var start := DateOrZero(req.startDate, parseDate);
      var end := DateOrZero(req.endDate, parseDate);
      var end' := if After(end, now) then now else end;
      var start' := if After(start, end') then end' else start;
      Success(Params(req.from, req.to, start', end'))
  }

  /**
   * The end is replaced by `now` only when it lies after `now`, and the start
   * by the clamped end only when it lies after that; otherwise both are kept.
   */
  lemma ClampOnlyWhenAfter(req: Request, now: Date, parseDate: string -> Option<Date>)
    requires ParseParameters(req, now, parseDate).Success?
    ensures var p := ParseParameters(req, now, parseDate).value;
            var start := DateOrZero(req.startDate, parseDate);
            var end := DateOrZero(req.endDate, parseDate);
            && (end <= now ==> p.end == end)
            && (end > now ==> p.end == now)
            && (start <= p.end ==> p.start == start)
            && (start > p.end ==> p.start == p.end)
  {
  }

  /** A range that already lies in the past and in order passes through unchanged. */
  lemma InRangeUnchanged(req: Request, now: Date, parseDate: string -> Option<Date>)
    requires !AnyEmpty(req) && req.from != req.to
    requires DateOrZero(req.startDate, parseDate) <= DateOrZero(req.endDate, parseDate) <= now
    ensures ParseParameters(req, now, parseDate)
         == Success(Params(req.from, req.to, DateOrZero(req.startDate, parseDate), DateOrZero(req.endDate, parseDate)))
  {
  }

  /**
   * Normalising is idempotent: feeding the clamped dates back in (with a
   * parser that returns them) changes nothing.
   */
  lemma ParseParametersIdempotent(req: Request, now: Date, parseDate: string -> Option<Date>, parseAgain: string -> Option<Date>)
    requires ParseParameters(req, now, parseDate).Success?
    requires var p := ParseParameters(req, now, parseDate).value;
             parseAgain(req.startDate) == Some(p.start) && parseAgain(req.endDate) == Some(p.end)
    ensures ParseParameters(req, now, parseAgain) == ParseParameters(req, now, parseDate)
  {
  }

  /**
   * A malformed date is not a validation error: with valid codes the request
   * succeeds, and a malformed start becomes the zero Time whenever the end is
   * not before it.
   */
  lemma MalformedDateIsNotAnError(req: Request, now: Date, parseDate: string -> Option<Date>)
    requires !AnyEmpty(req) && req.from != req.to
    requires parseDate(req.startDate).None?
    ensures ParseParameters(req, now, parseDate).Success?
    ensures var p := ParseParameters(req, now, parseDate).value;
            p.end >= ZeroDate ==> p.start == ZeroDate
  {
  }
}
