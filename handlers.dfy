/**
 * The status and body the two HTTP handlers answer with
 * (`CurrencyHistoryHandler`, `CurrencyHandler`). The JSON encoding and the
 * writes to the connection are not modelled: a response is its status code
 * and the value that would be encoded.
 */
module Handlers {
  import opened Wrappers
  import opened Entities
  import opened Dates
  import opened Parameters
  import opened Rates
  import opened History
  import opened Currencies

  const StatusOK: int := 200
  const StatusBadRequest: int := 400
  const StatusInternalServerError: int := 500

  /** The message shown for every fetch failure, whatever its cause. */
  const GenericError: Error := "something went wrong, please try again later"

  /** The value encoded as the JSON body: `{"error": ...}`, the rate slots (nil ones as null), or the currency list. */
  datatype Body =
    | ErrorBody(error: Error)
    | HistoriesBody(histories: seq<Option<CurrencyHistory>>)
    | CurrenciesBody(currencies: seq<Currency>)

  datatype Response = Response(status: int, body: Body)

  /**
   * `CurrencyHistoryHandler`: a parameter error answers 400 with its own
   * message; a failed day answers 500 with the generic message; otherwise
   * 200 with one slot per day of the clamped range.
   */
  method CurrencyHistoryHandler(req: Request, now: Date,
                                parseDate: string -> Option<Date>,
                                fetch: Query -> Result<Document, Error>,
                                parseNumber: string -> Option<Float64>,
                                format: Date -> string)
    returns (resp: Response)
    ensures var p := ParseParameters(req, now, parseDate);
            && (resp.status == StatusBadRequest <==> p.Failure?)
            && (p.Failure? ==> resp.body == ErrorBody(p.error))
            && (p.Success? ==> resp.status == StatusOK || resp.status == StatusInternalServerError)
            && (p.Success? && resp.status == StatusInternalServerError ==>
                  && resp.body == ErrorBody(GenericError)
                  && exists e :: RangeOutcome(p.value.start, p.value.end, p.value.from, p.value.to,
                                              fetch, parseNumber, format, Failure(e)))
            && (p.Success? && resp.status == StatusOK ==>
                  && resp.body.HistoriesBody?
                  && RangeOutcome(p.value.start, p.value.end, p.value.from, p.value.to,
                                  fetch, parseNumber, format, Success(resp.body.histories)))
  {
    var p := ParseParameters(req, now, parseDate);
    if p.Failure? {
      return Response(StatusBadRequest, ErrorBody(p.error));
    }
    var histories := GetCurrencyHistories(p.value.start, p.value.end, p.value.from, p.value.to,
                                          fetch, parseNumber, format);
    if histories.Failure? {
      return Response(StatusInternalServerError, ErrorBody(GenericError));
    }
    return Response(StatusOK, HistoriesBody(histories.value));
  }

  /**
   * `CurrencyHandler`, given the outcome of fetching the home page as its
   * list items: a fetch error answers 500 with the generic message,
   * otherwise 200 with the sorted currency list.
   */
  method CurrencyHandler(page: Result<seq<Item>, Error>) returns (resp: Response)
    ensures page.Failure? ==> resp == Response(StatusInternalServerError, ErrorBody(GenericError))
    ensures page.Success? ==>
              && resp.status == StatusOK
              && resp.body.CurrenciesBody?
              && SortedByCode(resp.body.currencies)
              && multiset(resp.body.currencies) == multiset(Collect(page.value))
  {
    if page.Failure? {
      return Response(StatusInternalServerError, ErrorBody(GenericError));
    }
    var currencies := GetCurrencies(page.value);
    return Response(StatusOK, CurrenciesBody(currencies));
  }
}
