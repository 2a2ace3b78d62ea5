# go-currency-history in Dafny

A verified model of the sequential core of go-currency-history. This is a small
HTTP service that scrapes x-rates.com for the exchange rate of a currency
pair on every day of a date range. It also serves the list of known
currencies.

The model covers five pieces:

- **Parameter validation and clamping** (`Parameters`, from `parseParameters`).
  All four query parameters must be present. `from` and `to` must differ.
  Dates that do not parse silently become Go's zero Time. The end date is
  clamped to `now`, then the start date is clamped to the end.
- **The range coordinator** (`History`, from `getCurrencyHistories`). It counts
  the days and allocates one slot per day. The loop walks the range one
  calendar day at a time and writes day `k` into slot `k`. The slots are
  returned only when no day failed.
- **The day task and the rate scan** (`Rates`, from `getCurrencyHistory`). It
  fetches the page for the reversed pair (`from` = the caller's `to`,
  `amount=1`, `date`). It then scans the table cells in document order. The
  first cell whose link contains `to=<from>` and whose text parses as a
  number gives the rate.
- **The currency list** (`Currencies`, from `getCurrencies`). Each list item's
  code is cut out of its link after `?from=`, and its name is the link text.
  The list is then sorted by code.
- **The handlers' status mapping** (`Handlers`): 400, 500 or 200 with the body
  each one encodes.

`Strings` models the parts of Go's `strings` package and string order that
the core relies on. `Dates` models `time.Time` in UTC and `time.Duration`.

A date is an integer: the nanoseconds since Go's zero Time (0001-01-01 UTC),
so the zero Time is 0. Every Time in the core is in UTC, so
`AddDate(0, 0, 1)` adds exactly 24 hours. The model receives these
collaborators as function-typed parameters:

- `now` (the result of `time.Now()`);
- `parseDate` (`time.Parse` with layout `2006-01-02`);
- `format` (`Time.Format` with the same layout);
- `fetch` (`utils.GetPage` followed by the HTML selection);
- `parseNumber` (`strconv.ParseFloat`).

A fetched page is the sequence of its rate-table cells, each a pair
`(href, text)`. A float64 is kept as its 64-bit pattern and never inspected.

In two places the code does less than a reader might expect, and the model
follows the code:

- One might expect a day without a rate to be an error. Instead
  `getCurrencyHistory` returns nil with no error, so that slot is null while
  the range still succeeds.
- One might expect a cell to match only when the currency code in its link
  equals `from`. The code only tests that the link *contains* `to=<from>`, so
  `from=US` would also match a link ending in `to=USD`.

## Model

| member | source | states |
|---|---|---|
| `Strings.Less` | internal/routes/currency.go:64-66 | Go's `<` on strings. When `a < b` and `a` is not empty, `b` is not empty and its first character is not smaller. |
| `Strings.ProperPrefixSortsFirst` | internal/routes/currency.go:64-66 | A proper prefix sorts before the text it begins. |
| `Strings.LessIrreflexive` | internal/routes/currency.go:64-66 | No code sorts before itself under Go's `<` on strings. |
| `Strings.LessAsymmetric` | internal/routes/currency.go:64-66 | If `a < b` then not `b < a`. |
| `Strings.LessTransitive` | internal/routes/currency.go:64-66 | `<` on strings is transitive. |
| `Strings.LessTotal` | internal/routes/currency.go:64-66 | Two different strings are ordered one way or the other. |
| `Strings.NotLessTransitive` | internal/routes/currency.go:64-66 | "Not after" is transitive, so a list sorted pairwise by neighbours is sorted. |
| `Strings.Contains` | internal/routes/currency_history.go:143 | `strings.Contains` holds only when the text is at least as long as the substring. |
| `Strings.Index` | internal/routes/currency.go:52 | `strings.Index` is -1 or a position in the text where the substring occurs. No occurrence lies before it. |
| `Strings.IndexFrom` | internal/routes/currency.go:52 | The result is -1 or an occurrence of `sub` at or after `i`, and no earlier occurrence from `i` exists. |
| `Strings.IndexIsFirstOccurrence` | internal/routes/currency_history.go:143 | `strings.Index` is non-negative exactly when `strings.Contains` holds, and is then the first occurrence. |
| `Strings.Split` | internal/routes/currency.go:52 | `strings.Split` with a non-empty separator always yields at least one piece. |
| `Strings.SplitLength` | internal/routes/currency.go:52-53 | `strings.Split` with a non-empty separator never yields an empty list. It yields one piece exactly when the separator is absent. |
| `Strings.SplitJoin` | internal/routes/currency.go:52 | Joining the pieces of a split with the separator gives back the original text. |
| `Strings.SplitPiecesFree` | internal/routes/currency.go:52 | No piece of a split contains the separator. |
| `Strings.SplitFirstPiece` | internal/routes/currency.go:52 | The first piece is a prefix of the text without the separator. It is followed by the separator or by nothing. |
| `Strings.SplitSecondPiece` | internal/routes/currency.go:52 | When the separator occurs, there are at least two pieces. The second is the first piece of the text after the first separator. |
| `Strings.SecondPieceFollowsFirst` | internal/routes/currency.go:52 | The second piece starts right after the first separator. It holds no separator and runs to the next separator or the end. |
| `Dates.Sub` | internal/routes/currency_history.go:87 | `end.Sub(start)` stays within the int64 range. It equals the exact difference exactly when that difference fits and keeps the sign. Above the range it saturates at the maximum, below it at the minimum. |
| `Dates.AfterIffPositiveSub` | internal/routes/currency_history.go:73-79 | `t.After(u)` holds exactly when `t.Sub(u)` is positive. It never holds both ways. |
| `Dates.NextDay` | internal/routes/currency_history.go:94 | `d.AddDate(0, 0, 1)` is after `d`. |
| `Dates.NextDayIsOneDayLater` | internal/routes/currency_history.go:94 | In UTC the next calendar day is exactly 24 hours later. |
| `Dates.Day` | internal/routes/currency_history.go:93-106 | Day 0 of a range is its start. Every later day is after the start. |
| `Dates.DayStep` | internal/routes/currency_history.go:94 | One step of `AddDate(0, 0, 1)` from day `k` reaches day `k + 1`, so iteration `k` visits day `k`. |
| `Parameters.DateOrZero` | internal/routes/currency_history.go:69-71 | A date text the parser rejects becomes the zero Time. Any other text becomes its parsed date. |
| `Parameters.ParseParameters` | internal/routes/currency_history.go:52-82 | Validation fails exactly when a parameter is empty or `from == to`. The empty check takes precedence with its own message. On success the pair is kept and `start <= end <= now`. |
| `Parameters.ClampOnlyWhenAfter` | internal/routes/currency_history.go:73-79 | The end becomes `now` only when it is after `now`. The start becomes the clamped end only when it is after that end. Otherwise both are unchanged. |
| `Parameters.InRangeUnchanged` | internal/routes/currency_history.go:73-79 | An ordered range that lies in the past passes through unchanged. |
| `Parameters.ParseParametersIdempotent` | internal/routes/currency_history.go:73-79 | Normalising an already normalised range changes nothing. |
| `Parameters.MalformedDateIsNotAnError` | internal/routes/currency_history.go:69-71 | An unparseable start date does not fail validation. It becomes the zero Time. |
| `Rates.DayQuery` | internal/routes/currency_history.go:119-123 | The page queried for a pair is the reversed one: `from` is the caller's `to`, the amount is "1", and the date is kept. |
| `Rates.FirstMatch` | internal/routes/currency_history.go:136-160 | The index is the first cell whose href contains `to=<from>` and whose text parses, or the number of cells when there is none. |
| `Rates.FirstRate` | internal/routes/currency_history.go:133-162 | A rate found carries the requested date and the number of some cell that links to `to=<from>` and whose text parses. |
| `Rates.FirstRateIsFirstMatch` | internal/routes/currency_history.go:136-160 | The rate found comes from the first matching cell in document order and is dated with the requested date. It is absent exactly when no cell matches. |
| `Rates.NonMatchingCellSkipped` | internal/routes/currency_history.go:143-152 | A cell without the link target, or with unparseable text, is skipped and does not change the result. |
| `Rates.LaterCellsIgnored` | internal/routes/currency_history.go:154-159 | Once a cell matches, cells after it cannot change the result. |
| `Rates.ScanRates` | internal/routes/currency_history.go:133-162 | The early-exit scan returns exactly the first-match rate. |
| `Rates.DayResult` | internal/routes/currency_history.go:118-163 | A day fails exactly when its page fetch fails, and with the fetch's error. A page without a rate is not a failure. |
| `Rates.GetCurrencyHistory` | internal/routes/currency_history.go:118-163 | The day task returns the day's result: a fetch error, or the scan of the fetched page. |
| `Rates.DayResultOfReversedQuery` | internal/routes/currency_history.go:119-131 | The day reads only the page queried with from = the caller's `to`, amount 1 and the date. A fetch error propagates unchanged. A page without a match gives nil with no error. A rate found carries the requested date and the number of a cell linking to `to=<from>`. |
| `History.DayCountAsWritten` | internal/routes/currency_history.go:87 | The source's slot count is at least 1 and never exceeds 106752, whatever the range. |
| `History.DayCount` | internal/routes/currency_history.go:87-89 | The exact slot count `n` satisfies `(n-1)` days <= `end - start` < `n` days. |
| `History.LoopDates` | internal/routes/currency_history.go:94 | The loop visits nothing exactly when the start is after the end. Otherwise it starts at `start`, steps one calendar day at a time and never visits a date after `end`. |
| `History.LoopDatesMatchDayCount` | internal/routes/currency_history.go:93-107 | The loop `d := start; !d.After(end); d = d.AddDate(0,0,1)` runs exactly `DayCount` times. Its iteration `k` visits `start + k` days. |
| `History.SlotCountAgreesBelowSaturation` | internal/routes/currency_history.go:87-107 | The source's slot count equals the number of loop iterations exactly when the range is under 106752 days. Beyond that the loop outruns the slots. |
| `History.MalformedStartOverflowsSlots` | internal/routes/currency_history.go:87-102 | With the zero Time as start and 2024-01-01 as end, the source makes 106752 slots but the loop runs 738886 times. |
| `History.RangeSucceedsIffNoDayFails` | internal/routes/currency_history.go:110-114 | All or nothing: the range succeeds exactly when every day succeeds. |
| `History.SlotsInDateOrder` | internal/routes/currency_history.go:100-114 | On success there is one slot per day. A non-nil slot `k` carries the date of `start + k` days. |
| `History.GetCurrencyHistories` | internal/routes/currency_history.go:85-115 | Either every day succeeded and slot `k` holds day `k`'s result, or the error of a failing day is returned with no slots. Slots are counted by `History.DayCount`; the source panics on ranges of 106752 days or more (see "## Findings"). |
| `Currencies.ItemCodeFollowsMarker` | internal/routes/currency.go:52-58 | When the link holds `?from=`, the code is the text between the first `?from=` and the next one or the end of the link. |
| `Currencies.ItemCodeAsWritten` | internal/routes/currency.go:52-58 | As written, the guard `len(code) < 1` never skips an item. `code[1]` is out of range exactly when the link lacks `?from=`. |
| `Currencies.HomeLinkIndexOutOfRange` | internal/routes/currency.go:52-58 | A link with no `?from=`, such as the site's home page, splits into one piece, so `code[1]` is out of range. |
| `Currencies.ItemCode` | internal/routes/currency.go:52-58 | With the intended guard, an item is skipped exactly when its link lacks `?from=`. It never reads past the pieces of the split. |
| `Currencies.ItemCodeAgreesWithSource` | internal/routes/currency.go:52-58 | Wherever the source does not fail, the corrected body yields the same code. |
| `Currencies.Collect` | internal/routes/currency.go:45-61 | The loop appends at most one entry per item. |
| `Currencies.CollectEntriesFromItems` | internal/routes/currency.go:45-61 | Every entry is the code and link text of an item whose link holds that code after `?from=`. |
| `Currencies.CollectOnePerItem` | internal/routes/currency.go:45-61 | When every link holds a code, there is one entry per item. Entry `k` is item `k`'s code and link text. |
| `Currencies.NeighboursSorted` | internal/routes/currency.go:64-66 | Neighbours in order by code means the whole list is in order. |
| `Currencies.InsertLeft` | internal/routes/currency.go:64-66 | Inserting entry `i` keeps the prefix up to `i` sorted, leaves every entry after `i` in place, and keeps the same entries. |
| `Currencies.SortByCode` | internal/routes/currency.go:64-66 | Sorting in place leaves the entries in non-decreasing code order and as a permutation of the input. |
| `Currencies.GetCurrencies` | internal/routes/currency.go:41-69 | The list is sorted by code and is a permutation of the per-item entries. An empty item list gives an empty list. |
| `Currencies.GetCurrenciesLength` | internal/routes/currency.go:45-61 | When every item links with a code, the list has exactly one entry per item. |
| `Handlers.CurrencyHistoryHandler` | internal/routes/currency_history.go:22-49 | 400 with the validation message exactly when validation fails. Otherwise 500 with the generic message when a day failed, or 200 with one slot per day. Slots are counted by `History.DayCount`; the source panics on ranges of 106752 days or more (see "## Findings"). |
| `Handlers.CurrencyHandler` | internal/routes/currency.go:16-38 | A failed fetch answers 500 with the generic message. Otherwise the answer is 200 with the sorted currency list. |

## Findings

| source | as written | input that shows it | evidently intended | confidence | as-written member | corrected member |
|---|---|---|---|---|---|---|
| internal/routes/currency_history.go:87 | The slot count comes from `end.Sub(start)`, which saturates at the largest `time.Duration` (about 292 years). Above that, it stays at 106752 while the loop keeps going. | `start_date=oops` (parsed as the zero Time, year 1) and `end_date=2024-01-01`: 106752 slots, 738886 loop iterations. The write to slot 106752 is out of range and panics inside a goroutine. | One slot per calendar day of the range, counted on the exact difference | not executed; high | `History.MalformedStartOverflowsSlots` | `History.DayCount` |
| internal/routes/currency.go:53 | The guard `len(code) < 1` can never fire, and `code[1]` is read unconditionally. | A list item whose link has no `?from=`, such as `https://www.x-rates.com/`, or an item without a link (its href is empty): the split gives one piece and `code[1]` panics. Whether the live list holds such an item is not known. | Skip items that split into fewer than two pieces (`len(code) < 2`) | not executed; high | `Currencies.HomeLinkIndexOutOfRange` | `Currencies.ItemCode` |

`History.GetCurrencyHistories` allocates its slots with `History.DayCount`.
`Currencies.GetCurrencies` collects entries with `Currencies.ItemCode`.

## Left out

- `utils.GetPage` is not part of this model. Building the request, headers, cookies and form data, the HTTP client with its timeout (10 seconds unless another is given), and HTML parsing are network I/O. The model passes in `fetch`, from a query to a page of cells or an error.
- The site URL and its query-string encoding (`url.Values.Encode`) are not modelled. The query is kept as its three parameter values.
- HTML selection (`.ratesTable tbody tr td`, `.currencyList li`, `Find("a").Attr("href")`, `Text()`) is left out. Pages are sequences of `(href, text)` pairs.
- `time.Now`, `time.Parse` and `Time.Format` are library calls. They become the parameters `now`, `parseDate` and `format`.
- `strconv.ParseFloat` becomes the parameter `parseNumber`. Float64 values are opaque.
- The errgroup goroutines and context cancellation are modelled as a sequential loop, because each task writes only its own slot. Which failing day's error is returned is left open. errgroup returns the first to arrive, and cancellation happens only after it.
- History.DayCountAsWritten: the division is exact. Go converts the duration to float64 hours, and for a range a few nanoseconds short of a whole number of days that conversion can round up. The source would then make one slot more than the loop fills, leaving a trailing null.
- History.GetCurrencyHistories: requires `start <= end`. Its only caller passes a range clamped by `parseParameters`; a reversed range, where Go's truncating division and a negative `make` size would matter, is not modelled.
- Currencies.SortByCode: an insertion sort stands in for `sort.Slice`'s algorithm. Only what `sort.Slice` promises is stated: sorted and a permutation. The order of entries with equal codes is unspecified there as well.
- Strings.Less: characters are compared by code point. Go compares UTF-8 bytes, which orders valid UTF-8 text the same way.
- Go's nil versus empty slice has no counterpart: an empty item list gives the empty sequence.
- JSON encoding, the `Content-Type` header and writes to the response are left out. A response is its status and the value that would be encoded.
- The health check, router, server setup, signal handling and `cmd/main.go` are server wiring and are not modelled.
