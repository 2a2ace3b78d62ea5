/**
 * The rate of one day (`getCurrencyHistory`): fetch the historical rates
 * page for the reversed pair and scan its table cells for the first one
 * that links to the requested currency and shows a number.
 *
 * The page fetch (`utils.GetPage`) and `strconv.ParseFloat` are passed in as
 * the functions `fetch` and `parseNumber`.
 */
module Rates {
  import opened Wrappers
  import opened Entities
  import opened Strings

  /** One `.ratesTable tbody tr td` cell: the `href` of its link ("" when absent) and the link text. */
  datatype Cell = Cell(href: string, text: string)

  /** A fetched rates page, reduced to its table cells in document order. */
  type Document = seq<Cell>

  /** The query parameters of the historical rates page. */
  datatype Query = Query(from: string, amount: string, date: string)

  /**
   * The page queried for the pair `from`/`to` on `date`: the pair is
   * reversed, so that the table lists what one unit of `to` is worth in
   * every other currency, among them `from`.
   */
  function DayQuery(from: string, to: string, date: string): (q: Query)
    ensures q.from == to && q.amount == "1" && q.date == date
  {
    Query(to, "1", date)
  }

  /** The link target a cell must contain to be the rate for `from`. */
  function Target(from: string): string
  {
    "to=" + from
  }

  /** A cell that links to `from` and whose text parses as a number. */
  predicate Matches(cell: Cell, from: string, parseNumber: string -> Option<Float64>)
  {
    Contains(cell.href, Target(from)) && parseNumber(cell.text).Some?
  }

  /** The index of the first matching cell, or `|cells|` when none matches. */
  function FirstMatch(cells: Document, from: string, parseNumber: string -> Option<Float64>): (i: nat)
    ensures i <= |cells|
    ensures i < |cells| ==> Matches(cells[i], from, parseNumber)
    ensures forall j :: 0 <= j < i ==> !Matches(cells[j], from, parseNumber)
    decreases |cells|
  {
    if cells == [] then 0
    else if Matches(cells[0], from, parseNumber) then 0
    else 1 + FirstMatch(cells[1..], from, parseNumber)
  }

  /** The rate the scan finds on a page: that of the first matching cell, dated `date`, or nil. */
  function FirstRate(cells: Document, from: string, date: string, parseNumber: string -> Option<Float64>): (r: Option<CurrencyHistory>)
    ensures r.Some? ==> r.value.date == date
    ensures r.Some? ==> exists j :: 0 <= j < |cells| && Matches(cells[j], from, parseNumber)
                                    && parseNumber(cells[j].text) == Some(r.value.value)
  {
    var i := FirstMatch(cells, from, parseNumber);
    if i < |cells| then Some(CurrencyHistory(date, parseNumber(cells[i].text).value)) else None
  }

  /**
   * The rate found is that of the first cell, in document order, that links
   * to `from` and holds a number; nothing is found exactly when no cell does.
   */
  lemma FirstRateIsFirstMatch(cells: Document, from: string, date: string, parseNumber: string -> Option<Float64>)
    ensures FirstRate(cells, from, date, parseNumber).None?
        <==> forall j :: 0 <= j < |cells| ==> !Matches(cells[j], from, parseNumber)
    ensures forall i :: 0 <= i < |cells| && Matches(cells[i], from, parseNumber)
                        && (forall j :: 0 <= j < i ==> !Matches(cells[j], from, parseNumber))
                        ==> FirstRate(cells, from, date, parseNumber)
                            == Some(CurrencyHistory(date, parseNumber(cells[i].text).value))
  {
  }

  /** A cell that does not match is skipped: it neither ends the scan nor changes its result. */
  lemma {:induction false} NonMatchingCellSkipped(cell: Cell, cells: Document, from: string, date: string,
                                                  parseNumber: string -> Option<Float64>)
    requires !Matches(cell, from, parseNumber)
    ensures FirstRate([cell] + cells, from, date, parseNumber) == FirstRate(cells, from, date, parseNumber)
  {
    assert ([cell] + cells)[1..] == cells;
  }

  /** Once a cell matches, no later cell is looked at: what follows it cannot change the result. */
  lemma LaterCellsIgnored(cells: Document, more: Document, from: string, date: string,
                          parseNumber: string -> Option<Float64>)
    requires FirstRate(cells, from, date, parseNumber).Some?
    ensures FirstRate(cells + more, from, date, parseNumber) == FirstRate(cells, from, date, parseNumber)
  {
    var i := FirstMatch(cells, from, parseNumber);
    var all := cells + more;
    assert all[i] == cells[i];
    assert forall j :: 0 <= j < i ==> all[j] == cells[j];
    FirstRateIsFirstMatch(all, from, date, parseNumber);
  }

  /**
   * The `EachWithBreak` scan over the cells: the first cell that links to
   * `from` and parses as a number gives the rate, and the scan stops there.
   */
  method ScanRates(cells: Document, from: string, date: string, parseNumber: string -> Option<Float64>)
    returns (found: Option<CurrencyHistory>)
    ensures found == FirstRate(cells, from, date, parseNumber)
  {
    found := None;
    var i := 0;
    while i < |cells|
      invariant 0 <= i <= |cells|
      invariant forall j :: 0 <= j < i ==> !Matches(cells[j], from, parseNumber)
    {
      var cell := cells[i];
      if Contains(cell.href, Target(from)) {
        var value := parseNumber(cell.text);
        if value.Some? {
          found := Some(CurrencyHistory(date, value.value));
          FirstRateIsFirstMatch(cells, from, date, parseNumber);
          return;
        }
      }
      i := i + 1;
    }
  }

  /**
   * What `getCurrencyHistory` yields for one day: the fetch error, or the
   * scan of the fetched page (nil without an error when nothing matches).
   */
  function DayResult(from: string, to: string, date: string,
                     fetch: Query -> Result<Document, Error>,
                     parseNumber: string -> Option<Float64>): (r: Result<Option<CurrencyHistory>, Error>)
    ensures r.Failure? <==> fetch(DayQuery(from, to, date)).Failure?
    ensures r.Failure? ==> r.error == fetch(DayQuery(from, to, date)).error
  {
    match fetch(DayQuery(from, to, date))
    case Failure(e) => Failure(e)
    case Success(page) => Success(FirstRate(page, from, date, parseNumber))
  }

  /** `getCurrencyHistory`. */
  method GetCurrencyHistory(from: string, to: string, date: string,
                            fetch: Query -> Result<Document, Error>,
                            parseNumber: string -> Option<Float64>)
    returns (r: Result<Option<CurrencyHistory>, Error>)
    ensures r == DayResult(from, to, date, fetch, parseNumber)
  {
    var page := fetch(DayQuery(from, to, date));
    if page.Failure? {
      return Failure(page.error);
    }
    var found := ScanRates(page.value, from, date, parseNumber);
    return Success(found);
  }

  /**
   * A day's result reads only the page for the reversed query
   * (from = the caller's `to`, amount = 1, the given date): a fetch error
   * comes back unchanged, a rate found is dated with the requested date and
   * is the number shown in a cell linking to the caller's `from`, and a page
   * without such a cell gives nil with no error.
   */
  lemma DayResultOfReversedQuery(from: string, to: string, date: string,
                                 fetch: Query -> Result<Document, Error>,
                                 parseNumber: string -> Option<Float64>)
    ensures var page := fetch(Query(to, "1", date));
            var r := DayResult(from, to, date, fetch, parseNumber);
            && (page.Failure? ==> r == Failure(page.error))
            && (page.Success? && (forall j :: 0 <= j < |page.value| ==> !Matches(page.value[j], from, parseNumber))
                ==> r == Success(None))
            && (r.Success? && r.value.Some? ==>
                  page.Success? && r.value.value.date == date
                  && exists j :: 0 <= j < |page.value| && Contains(page.value[j].href, "to=" + from)
                                 && parseNumber(page.value[j].text) == Some(r.value.value.value))
  {
    var page := fetch(Query(to, "1", date));
    if page.Success? {
      FirstRateIsFirstMatch(page.value, from, date, parseNumber);
    }
  }
}
