# NBP exchange-rate office: a Dafny model

This project models the core of a small exchange-office web application. On
the server, a Symfony service asks the National Bank of Poland (NBP) API for
the mid rate of five currencies and derives buy and sell rates from it. A
controller validates a `date` query parameter and answers with that day's
rates and today's rates. In the browser, two React components use the
results: a calculator that converts between currencies, and a table that
compares a selected day with today.

The model covers these parts:

- **Calendar**, **Decimal** and **DateFormat**: the part of PHP's
  `DateTime::createFromFormat` and `DateTime::format` that the application
  relies on.
  - Parsing reads digit fields greedily and then normalises: month 13 moves
    into the next year, and February 30 becomes March 1.
  - `ValidationHelper::validateDate` is the parse-and-reformat check built on
    these.
  - `$date->modify('-1 day')` is the calendar predecessor `Calendar.Pred`.
  - `Calendar.Ordinal`, a day count from 0000-01-01, gives an independent
    measure of how far apart two dates are.
- **Currency**: the table of supported codes and their display names.
- **Sequences**: the order-keeping subsequence relation, used for the service's rate list and the calculator's dropdowns.
- **CurrencyService**: the fetch loop.
  - The HTTP client is an oracle `Api` from a code and a day to a reply: a mid
    rate, an HTTP error status, or a transport failure.
  - For each currency the loop tries the requested day and then steps back one
    day on each 404, at most `daysToCheck` times.
  - Any other error aborts the whole call.
- **ExchangeRatesController**: the request gate. The endpoint answers 400 for
  a malformed date and 500 with the service's message when a service call
  fails. Otherwise it answers 200 with the selected date, its rates and
  today's rates.
- **Calculator**: the amount filter, the rate lookup with its `|| 1` fallback,
  the conversion, and the from/to currency-pair state machine. The
  state-changing handlers are modelled as transitions `Step` and `Run` over a
  `State`.
- **ExchangeRatesTable**: the choice of selected date, the change arrow, the
  `'-'` cell rule, and how each row is paired with today's rates.

Inputs the model cannot see become parameters: the server's clock (`today`),
the NBP API (`api`), and the route parameter (`urlDate`).
`CurrencyService.GetExchangeRates` takes an already-parsed `Date`, so the step
from validated string to `Date` sits in `ExchangeRatesController.DateOf`. That
step is shown to round-trip: formatting the parsed `Date` gives back the
original string.

`CurrencyService.GetExchangeRates` always reports `dataFromTheDay` as the
requested day. The code resets `$currentDate` to the requested date after each
currency (src/App/Service/CurrencyService.php:110), so the stepped-back day
never reaches the result. The comment at line 117 describes a different
behaviour ("the final date after adjusting"). The model follows the code.

## Model

| member | source | states |
|---|---|---|
| `Calendar.OrdinalOfPred` | src/App/Service/CurrencyService.php:101 | stepping back one calendar day lowers the day number by exactly one, across month and year ends and leap days |
| `Calendar.PredN` | src/App/Service/CurrencyService.php:72-101 | the n-th day the step-back loop asks for is a real date exactly n days before the requested one |
| `Calendar.PredNUnique` | src/App/Service/CurrencyService.php:72-101 | any real date exactly n days before the requested one is the n-th day the loop asks for, so that day is determined by n |
| `DateFormat.ModifyMinusOneDay` | src/App/Service/CurrencyService.php:101 | subtracting one from the day field and normalising, as `modify('-1 day')` does, gives the calendar predecessor |
| `DateFormat.Normalise` | src/App/Utils/ValidationHelper.php:19 | normalisation always yields a real date and leaves an already real date unchanged |
| `DateFormat.ParseRendered` | src/App/Utils/ValidationHelper.php:19-20 | parsing a date formatted with the same tokens recovers exactly the fields those tokens carry |
| `DateFormat.ParsedLength` | src/App/Utils/ValidationHelper.php:19 | anything the parser accepts is no longer than the format's widest input |
| `DateFormat.RenderLength` | src/App/Utils/ValidationHelper.php:20 | a formatted date is never shorter than the widest parsable input, and is longer when the year has more than four digits |
| `DateFormat.RenderedDateIsValid` | src/App/Utils/ValidationHelper.php:18-21 | every real date with a four-digit year formats to a string the validator accepts and that parses back to the same date |
| `DateFormat.ValidStringRoundTrip` | src/App/Utils/ValidationHelper.php:18-21 | an accepted string parses to a real date with a four-digit year, which formats back to that exact string |
| `DateFormat.RenderInjective` | src/App/Utils/ValidationHelper.php:20 | two different real four-digit-year dates never format to the same string |
| `DateFormat.ValidateDateIff` | src/App/Utils/ValidationHelper.php:18-21 | a string is accepted exactly when it is the formatting of some real four-digit-year date, and that date is unique |
| `DateFormat.AcceptsAugustSixth` | tests/Utils/ValidationHelperTest.php:26 | "2024-08-06" is accepted under Y-m-d |
| `DateFormat.AcceptsNewYear` | tests/Utils/ValidationHelperTest.php:27 | "2023-01-01" is accepted under Y-m-d |
| `DateFormat.RejectsImpossibleDay` | tests/Utils/ValidationHelperTest.php:34 | "2024-02-30" parses to 2024-03-01 and is therefore rejected |
| `DateFormat.RejectsMonthThirteen` | tests/Utils/ValidationHelperTest.php:35 | "2024-13-01" parses to 2025-01-01 and is therefore rejected |
| `DateFormat.RejectsText` | tests/Utils/ValidationHelperTest.php:36 | "not-a-date" does not parse and is rejected |
| `DateFormat.AcceptsDayFirst` | tests/Utils/ValidationHelperTest.php:43 | "06-08-2024" is accepted under d-m-Y |
| `DateFormat.RejectsWrongOrder` | tests/Utils/ValidationHelperTest.php:44 | "2024-08-06" does not parse under d-m-Y and is rejected |
| `Decimal.PadRoundTrip` | src/App/Utils/ValidationHelper.php:20 | a number written zero-padded to w digits has exactly w digits and reads back as the same number |
| `Currency.GetAllInOrder` | src/App/Constants/Currency.php:41-43 | the supported codes are EUR, USD, CZK, IDR, BRL, in that order and without repeats |
| `Currency.NamesOfSupportedCodes` | src/App/Constants/Currency.php:18-24 | each supported code has its display name |
| `Currency.GetNameKnownIff` | src/App/Constants/Currency.php:32-34 | a code has a name other than "Unknown" exactly when it is a supported code |
| `CurrencyService.CurrenciesAreTheTable` | src/App/Service/CurrencyService.php:23-29 | the service walks exactly the codes of the currency table, in its order |
| `CurrencyService.RecordOffsets` | src/App/Service/CurrencyService.php:133-161 | EUR and USD get a buy rate 0.05 below the mid and a sell rate 0.07 above it; other codes get no buy rate and a sell rate 0.15 above; the name comes from the currency table |
| `CurrencyService.SampleOffsets` | tests/Service/CurrencyServiceTest.php:56-63 | for every supported code, a mid rate of 4.1234 gives a record with that mid rate; EUR and USD get buy 4.0734 and sell 4.1934; the others get no buy rate and sell 4.2734 |
| `CurrencyService.SampleRun` | tests/Service/CurrencyServiceTest.php:41-64 | when the API answers 4.1234 for every code and day, the call succeeds, lists every supported currency in table order, and each record has the sample values above |
| `CurrencyService.SearchCurrency` | src/App/Service/CurrencyService.php:72-106 | one currency's search asks for at most `daysToCheck` days, and any record it finds is for that currency |
| `CurrencyService.SearchSteppedBack` | src/App/Service/CurrencyService.php:72-101 | the i-th request of a search is for the day i days back, and every request but the last got a 404 |
| `CurrencyService.SearchDecided` | src/App/Service/CurrencyService.php:79-106 | the last reply decides the outcome: a mid rate gives the record built from it; a non-404 error aborts with its message; a 404 on every allowed day gives nothing |
| `CurrencyService.EarlierDaysNotFound` | src/App/Service/CurrencyService.php:72-101 | a search reaches the day i days back only after a 404 on each later day |
| `CurrencyService.SearchAbsentIff` | src/App/Service/CurrencyService.php:72-106 | a search finds nothing and raises no error exactly when each of the `daysToCheck` days answered 404 |
| `CurrencyService.SingleAttemptByDefault` | src/App/Service/CurrencyService.php:69 | without a maximum, each currency is asked only for the requested day |
| `CurrencyService.NoAttemptsWithoutDays` | src/App/Service/CurrencyService.php:72 | a maximum of zero or less makes no request and finds nothing |
| `CurrencyService.FetchAll` | src/App/Service/CurrencyService.php:66-112 | the call succeeds exactly when no currency's search fails; a failure carries the message of the first currency, in table order, whose search failed, every earlier search having succeeded; on success every record is its currency's search result, in table order, and every currency whose search found something is listed |
| `CurrencyService.GetExchangeRates` | src/App/Service/CurrencyService.php:61-121 | success exactly when no search fails; an error carries the message of the first failing currency in table order; both reported dates are the requested day in Y-m-d form; the rates follow table order |
| `CurrencyService.RatesOrderedAndDistinct` | src/App/Service/CurrencyService.php:66-96 | the returned rates list each currency at most once, in table order |
| `CurrencyService.RecordProvenance` | src/App/Service/CurrencyService.php:72-101 | every returned record carries the API's mid rate for a day i < `daysToCheck` days back; the API answered 404 for every later day; the record's buy and sell rates are derived from that mid rate |
| `CurrencyService.AbsentIffAllNotFound` | src/App/Service/CurrencyService.php:66-106 | on success, a supported currency is missing from the rates exactly when every day tried for it answered 404 |
| `ExchangeRatesController.DateOf` | src/App/Service/CurrencyService.php:64 | a string that passed validation denotes a real date with a four-digit year that formats back to that string |
| `ExchangeRatesController.GetExchangeRates` | src/App/Controller/ExchangeRatesController.php:44-67 | the status is 200, 400 or 500; it is 400 exactly when the date fails validation, and then the body is "Invalid date format" and the service is not called; 200 exactly when the body is the payload; no service call steps back; for a valid date the service is asked for that day first, and for today only if that succeeded; the first failure is answered 500 with its message, and two successes 200 with the requested string and both results |
| `ExchangeRatesController.SuccessEchoesDate` | src/App/Controller/ExchangeRatesController.php:57-61 | a 200 answer echoes the requested string as `selectedDate`, and the two rate sets report the requested day and today |
| `ExchangeRatesController.FailureCarriesMessage` | src/App/Controller/ExchangeRatesController.php:54-64 | a request is answered 500 exactly when its date is valid and the service fails for that day or for today; the error is then the message of the last call made, which failed after every earlier call succeeded |
| `ExchangeRatesController.DefaultsToToday` | src/App/Controller/ExchangeRatesController.php:47 | without a `date` parameter the request is never rejected and a 200 answer selects today |
| `ExchangeRatesController.RejectsMalformedDate` | tests/Controller/ExchangeRatesControllerTest.php:45-61 | "invalid-date" is answered 400 "Invalid date format" without any service call |
| `ExchangeRatesController.ValidDateAnswered` | src/App/Controller/ExchangeRatesController.php:54-55 | a valid date is answered 200 or 500, the first service call is for that date, and each currency is asked for that day only |
| `ExchangeRatesController.PrivateValidateDateAgrees` | src/App/Controller/ExchangeRatesController.php:77-80 | the controller's private validator accepts exactly what the helper accepts |
| `Calculator.ReplaceFirstCommaSpec` | assets/js/components/Calculator.js:25 | text without a comma is unchanged; otherwise exactly the first comma becomes '.' and the rest is kept |
| `Calculator.MatchesAmountIff` | assets/js/components/Calculator.js:28 | the left-to-right scan accepts exactly the strings of digits, at most one '.', digits |
| `Calculator.HandleAmountChange` | assets/js/components/Calculator.js:21-32 | the new amount is either the old one or the comma-replaced input, and it is the input exactly when that matches the pattern or equals the old amount |
| `Calculator.AmountStaysNumeric` | assets/js/components/Calculator.js:21-32 | an amount that is digits with at most one '.' stays so after any input, and never holds a ',' |
| `Calculator.CommaBecomesDot` | assets/js/components/Calculator.js:25 | an input value of "12,5" is stored as "12.5" |
| `Calculator.SecondCommaRefused` | assets/js/components/Calculator.js:25-28 | "12,5," is refused, since only the first comma is replaced |
| `Calculator.LetterRefused` | assets/js/components/Calculator.js:28 | "7a" is refused and the amount stays "7" |
| `Calculator.LookupRate` | assets/js/components/Calculator.js:38-39 | the rate used is never zero |
| `Calculator.LookupRateFirstMatch` | assets/js/components/Calculator.js:38-39 | the rate used is that of the first entry with the code, or 1 when the code is missing or its rate is zero |
| `Calculator.PlnAlwaysListed` | assets/js/components/Calculator.js:11 | PLN is always among the codes and converts at 1 unless the server sent its own PLN entry |
| `Calculator.Convert` | assets/js/components/Calculator.js:37-48 | the result is cleared exactly when the amount is empty; it is a number exactly when the amount is non-empty, matches the amount pattern and is not a lone '.', and not a number otherwise; a numeric result times the target rate equals the amount times the source rate |
| `Calculator.ConvertSameCurrency` | assets/js/components/Calculator.js:43 | converting a currency into itself gives the amount back |
| `Calculator.ExchangeRateInfo` | assets/js/components/Calculator.js:60-72 | the quoted rate and the reverse rate multiply to one, and each converts one currency's rate into the other's |
| `Calculator.SwapInvolutive` | assets/js/components/Calculator.js:53-57 | swapping exchanges from and to, twice gives the pair back, and it keeps the two codes different |
| `Calculator.FirstOtherCode` | assets/js/components/Calculator.js:108 | the search for another code fails exactly when every listed code equals the chosen one; otherwise it gives the first listed code that differs |
| `Calculator.SelectFrom` | assets/js/components/Calculator.js:105-110 | choosing a source code sets it; if it equals the target, the target moves to the first listed code that differs; it throws only when no other code is listed; the two codes end up different |
| `Calculator.SelectTo` | assets/js/components/Calculator.js:155-160 | the same for the target select, moving the source instead |
| `Calculator.SelectionSucceeds` | assets/js/components/Calculator.js:105-110 | with PLN appended, a selection can throw only when PLN is picked and the server sent no other code |
| `Calculator.PairStaysDistinct` | assets/js/components/Calculator.js:13-15 | the initial pair EUR/PLN has two different codes, and swapping or selecting keeps them different |
| `Calculator.OptionsExcept` | assets/js/components/Calculator.js:112-113 | a dropdown lists exactly the listed codes other than the one hidden |
| `Calculator.OptionsExceptFilters` | assets/js/components/Calculator.js:112-113 | the options keep the list's order and its repeats: they are the listed codes in order, with every occurrence of the hidden code taken out |
| `Calculator.OptionsOfPair` | assets/js/components/Calculator.js:162-163 | each dropdown hides the other side's code and still offers its own current code |
| `Calculator.Step` | assets/js/components/Calculator.js:21-57 | typing and swapping never throw; only typing changes the amount and only the other events change the pair |
| `Calculator.RunStaysConsistent` | assets/js/components/Calculator.js:13-32 | from the initial state, after any sequence of events that does not throw, the amount is numeric and the two codes differ |
| `ExchangeRatesTable.InitialSelectedDate` | assets/js/components/ExchangeRatesTable.js:19 | the selected date starts as the route's date, or today when the route has none or an empty one |
| `ExchangeRatesTable.SyncWithUrl` | assets/js/components/ExchangeRatesTable.js:29-32 | the effect fetches the date selected before it runs, and adopts the route's date when there is one |
| `ExchangeRatesTable.EffectSettles` | assets/js/components/ExchangeRatesTable.js:29-32 | after at most one rerun the selected date stops changing, and with a route date the last fetch is for it |
| `ExchangeRatesTable.InitialDateInSync` | assets/js/components/ExchangeRatesTable.js:19-32 | on first render the selected date already agrees with the route, so the first fetch is for the route's date |
| `ExchangeRatesTable.DateChangeFetchesPick` | assets/js/components/ExchangeRatesTable.js:57-61 | after the user picks a date, the next effect run keeps it and fetches it |
| `ExchangeRatesTable.ChangeArrow` | assets/js/components/ExchangeRatesTable.js:70-80 | no arrow on today's page or when either side is not a number; otherwise down, up or none exactly when the selected rate is below, above or equal to today's |
| `ExchangeRatesTable.ChangeArrowAntisymmetric` | assets/js/components/ExchangeRatesTable.js:75-78 | exchanging the two rates turns a falling arrow into a rising one, and leaves "no arrow" alone |
| `ExchangeRatesTable.OrDash` | assets/js/components/ExchangeRatesTable.js:122 | a cell shows '-' exactly for a falsy value, and otherwise shows the value |
| `ExchangeRatesTable.TodayField` | assets/js/components/ExchangeRatesTable.js:125-126 | today's value is undefined exactly when today has no row at that position |
| `ExchangeRatesTable.Rows` | assets/js/components/ExchangeRatesTable.js:117-134 | there is one row per rate of the selected day, carrying that rate's code and name |
| `ExchangeRatesTable.BuyCellDash` | assets/js/components/ExchangeRatesTable.js:122 | the buy cell shows '-' exactly when the buy rate is missing or zero, and then no arrow is drawn |
| `ExchangeRatesTable.DashMarksUntraded` | assets/js/components/ExchangeRatesTable.js:122 | for records the service built from a mid rate other than 0.05, the '-' marks exactly the currencies other than EUR and USD |
| `ExchangeRatesTable.NoArrowWithoutComparison` | assets/js/components/ExchangeRatesTable.js:73 | on today's page, or where today has no row, no cell has an arrow |
| `ExchangeRatesTable.CellsShowRates` | assets/js/components/ExchangeRatesTable.js:121-134 | a row shows the selected day's mid and sell rates and a non-zero buy rate; today's cells show the rates of today's row at the same position, a dash for a missing buy rate, and nothing (a dash for buy) when today has no such row |
| `ExchangeRatesTable.SellAndBuyArrowsCompare` | assets/js/components/ExchangeRatesTable.js:129-133 | where today has a row, the sell arrow falls or rises exactly when the selected sell rate is below or above today's; a non-zero buy rate is compared the same way with today's buy rate, a missing one counting as 0 |
| `ExchangeRatesTable.NbpArrowCompares` | assets/js/components/ExchangeRatesTable.js:125 | where today has a row, the mid-rate arrow falls or rises exactly when the selected rate is below or above today's rate at that position |
| `ExchangeRatesTable.PositionalPairingMismatch` | assets/js/components/ExchangeRatesTable.js:125-134 | with only USD on the selected day and EUR, USD today, the USD row is compared with today's EUR rate |
| `ExchangeRatesTable.FindByCode` | assets/js/components/ExchangeRatesTable.js:125-134 | finds today's record of a currency exactly when today lists that currency |
| `ExchangeRatesTable.RowsByCode` | assets/js/components/ExchangeRatesTable.js:117-134 | there is one row per rate of the selected day, carrying that rate's code and name, with today's values matched by code |
| `ExchangeRatesTable.RowsByCodeCompareSameCurrency` | assets/js/components/ExchangeRatesTable.js:125 | matched by code, an arrow always compares two records of the same currency, and a currency today lacks gets no arrow |
| `ExchangeRatesTable.PairingsAgreeWhenAligned` | assets/js/components/ExchangeRatesTable.js:125-134 | when both days list the same currencies in the same order, the positional and by-code tables are equal |

## Left out

- HTTP, JSON encoding, Symfony's request and response objects, React rendering, axios and the loading and error states are not modelled. The NBP API is the `api` parameter, and the clock is the `today` parameter.
- Floating point: rates and amounts are exact reals, so the IEEE rounding of `mid - 0.05`, of `(amount * fromRate) / toRate` and of `toFixed(2)` and `toFixed(4)` is not modelled.
- `Calculator.Convert`: does not model `toFixed(2)`. The converted value is stated before rounding, and its string form is left out, because the model has no floating-point formatting.
- `Calculator.ExchangeRateInfo`: states the two quoted rates before `toFixed(4)`, for the same reason.
- `ExchangeRatesController.GetExchangeRates`: the `date` query parameter is a string or absent. A non-string query value is not modelled.
- `DateFormat.ValidateDate`: covers only the `Y`, `m`, `d` and literal tokens of the two formats the application uses.
  - PHP's number reader is modelled as up to 4 digits for `Y` and up to 2 for `m` and `d`, with no sign and no skipped whitespace.
  - Years outside 0..9999 are not accepted by the model, since `Y` would reformat them with more or fewer characters.
- `new \DateTime($date)` in the service is modelled only for strings that passed the Y-m-d check (`ExchangeRatesController.DateOf`). DateTime's free-form parser is not modelled.
- Each rate record keeps its day as a `Date` rather than the Y-m-d string of line 92. The string is `DateFormat.FormatYmd` of that date.
- The exception class hierarchy is reduced to the three reply kinds of `CurrencyService.Reply`. Any non-404 error aborts with its message, as the rethrow and the uncaught server, transport and decoding exceptions do.
- DefaultController is not part of this model. It renders the page and seeds the calculator with a seven-day step-back window. The calculator's rates are the `initial` parameter of `Calculator.RatesOf`.
- The table reads `response.data.rates` as a list, but the controller sends the service's three-key object. The table model is given the service's per-currency record list.
- `ExchangeRatesTable.Rows`: `rate.buyRate && …` renders a literal `0` for a zero buy rate in React. The model shows no arrow there instead.
- Today's date in the browser (`toISOString`, in UTC) and on the server (`date('Y-m-d')`, in the server's zone) are both the `today` parameter, so any difference between the two clocks is not modelled. The controller reads `date('Y-m-d')` twice (src/App/Controller/ExchangeRatesController.php:47 and :55); the model uses one `today` for both, so a request crossing midnight is not modelled.
- `Calculator.HandleAmountChange`: the handler is modelled on arbitrary strings, more than the number input of assets/js/components/Calculator.js:89 ever delivers, since a browser reduces that input's value to a valid number or "".
- `Calculator.NumberValue`: `Number(amount)` is modelled only on the amount pattern. Exponents, signs, surrounding whitespace, hexadecimal and "Infinity" give NaN in the model; the amount filter never stores such strings.
- `CurrencyService.SampleRun`: models only the per-rate values of tests/Service/CurrencyServiceTest.php:56-63. That test's `assertCount(5, $rates)` and `foreach ($rates as $rate)` (lines 45-47) treat the service's three-key result as the rate list, so they do not match the code and are not modelled.

## Findings

| source | as written | input that shows it | evidently intended | confidence | as-written member | corrected member |
|---|---|---|---|---|---|---|
| assets/js/components/ExchangeRatesTable.js:125-134 | each row is compared with `todayRates[index]`, the record at the same position | EUR answered 404 on the selected day, which lists only USD (mid 3.9); today lists EUR 4.3, USD 3.95; the USD row shows a falling arrow and today's rate 4.3 | each row is compared with today's record of the same currency | medium, not executed | `ExchangeRatesTable.PositionalPairingMismatch` | `ExchangeRatesTable.RowsByCodeCompareSameCurrency` |
