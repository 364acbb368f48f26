/**
  ExchangeRatesController::getExchangeRates: validates the `date` query
  parameter, asks the service for that day's rates and today's rates, and
  answers 200, 400 or 500.

  Today's date (a clock read in the controller) is a parameter, and so is the
  NBP oracle the service consults.
*/
module ExchangeRatesController {
  import opened Results
  import opened Calendar
  import Decimal
  import DateFormat
  import CurrencyService

  /** One call to CurrencyService::getExchangeRates. */
  datatype ServiceCall = ServiceCall(date: Date, maxDaysToCheck: Option<int>)

  datatype Body =
    | Payload(selectedDate: string, rates: CurrencyService.RateSet, todayRates: CurrencyService.RateSet)
    | ErrorBody(error: string)

  datatype Response = Response(status: int, body: Body)

  /** A response, with the service calls made while producing it. */
  datatype Handled = Handled(response: Response, calls: seq<ServiceCall>)

  const InvalidDateFormat := "Invalid date format"

  /** `new \DateTime($date)` on a string that passed Y-m-d validation. */
  function DateOf(s: string): (d: Date)
    requires DateFormat.ValidateDate(s, DateFormat.Ymd)
    ensures Valid(d) && DateFormat.FourDigitYear(d)
    ensures DateFormat.FormatYmd(d) == s
  {
    DateFormat.ValidStringRoundTrip(s, DateFormat.Ymd);
    DateFormat.CreateFromFormat(DateFormat.Ymd, s).value
  }

  /** The `date` query parameter, or today's date when it is absent. */
  function RequestedDate(dateParam: Option<string>, today: Date): string
    requires Valid(today)
  {
    match dateParam
    case None => DateFormat.FormatYmd(today)
    case Some(s) => s
  }

  /**
    How a request that passed validation is answered: the service is asked
    for the selected day, then, only if that succeeded, for today; the first
    failure is answered 500 with its message, and two successes 200 with
    both results.
  */
  predicate Dispatched(h: Handled, s: string, selected: Date, today: Date, api: CurrencyService.Api)
    requires Valid(selected) && Valid(today)
  {
    var forSelected := CurrencyService.GetExchangeRates(selected, None, api);
    var forToday := CurrencyService.GetExchangeRates(today, None, api);
    && (forSelected.Err? ==>
          h == Handled(Response(500, ErrorBody(forSelected.message)), [ServiceCall(selected, None)]))
    && (forSelected.Ok? && forToday.Err? ==>
          h == Handled(Response(500, ErrorBody(forToday.message)), [ServiceCall(selected, None), ServiceCall(today, None)]))
    && (forSelected.Ok? && forToday.Ok? ==>
          h == Handled(Response(200, Payload(s, forSelected.value, forToday.value)),
                       [ServiceCall(selected, None), ServiceCall(today, None)]))
  }

  function GetExchangeRates(dateParam: Option<string>, today: Date, api: CurrencyService.Api): (h: Handled)
    requires Valid(today) && DateFormat.FourDigitYear(today)
    ensures h.response.status in {200, 400, 500}
    ensures h.response.status == 400 <==> !DateFormat.ValidateDate(RequestedDate(dateParam, today), DateFormat.Ymd)
    ensures h.response.status == 400 ==> h.response.body == ErrorBody(InvalidDateFormat) && h.calls == []
    ensures h.response.status == 200 <==> h.response.body.Payload?
    ensures forall k :: 0 <= k < |h.calls| ==> h.calls[k].maxDaysToCheck == None
    ensures DateFormat.ValidateDate(RequestedDate(dateParam, today), DateFormat.Ymd) ==>
      Dispatched(h, RequestedDate(dateParam, today), DateOf(RequestedDate(dateParam, today)), today, api)
  {
    var date := RequestedDate(dateParam, today);
    if !DateFormat.ValidateDate(date, DateFormat.Ymd) then
      Handled(Response(400, ErrorBody(InvalidDateFormat)), [])
    else
      var selected := DateOf(date);
      var first := [ServiceCall(selected, None)];
      match CurrencyService.GetExchangeRates(selected, None, api)
      case Err(message) => Handled(Response(500, ErrorBody(message)), first)
      case Ok(rates) =>
        var both := [ServiceCall(selected, None), ServiceCall(today, None)];
        match CurrencyService.GetExchangeRates(today, None, api)
        case Err(message) => Handled(Response(500, ErrorBody(message)), both)
        case Ok(todayRates) => Handled(Response(200, Payload(date, rates, todayRates)), both)
  }

  /** A 200 answer echoes the requested string, and both rate sets report the day asked for. */
  lemma SuccessEchoesDate(dateParam: Option<string>, today: Date, api: CurrencyService.Api)
    requires Valid(today) && DateFormat.FourDigitYear(today)
    requires GetExchangeRates(dateParam, today, api).response.status == 200
    ensures var body := GetExchangeRates(dateParam, today, api).response.body;
      body.selectedDate == RequestedDate(dateParam, today) &&
      body.rates.dataFromTheDay == RequestedDate(dateParam, today) &&
      body.todayRates.dataFromTheDay == DateFormat.FormatYmd(today)
  {
  }

  /** The error body is the message of the last service call made, which failed after every earlier call succeeded. */
  predicate ReportsServiceError(h: Handled, api: CurrencyService.Api)
    requires forall k :: 0 <= k < |h.calls| ==> Valid(h.calls[k].date)
  {
    && h.response.body.ErrorBody?
    && |h.calls| > 0
    && CurrencyService.GetExchangeRates(h.calls[|h.calls| - 1].date, None, api) == Err(h.response.body.error)
    && forall k :: 0 <= k < |h.calls| - 1 ==> CurrencyService.GetExchangeRates(h.calls[k].date, None, api).Ok?
  }

  /** Under Dispatched, the answer is 500 exactly when a service call failed, and then it reports that call. */
  lemma DispatchedFailure(h: Handled, s: string, selected: Date, today: Date, api: CurrencyService.Api)
    requires Valid(selected) && Valid(today)
    requires Dispatched(h, s, selected, today, api)
    ensures forall k :: 0 <= k < |h.calls| ==> Valid(h.calls[k].date)
    ensures h.response.status == 500 <==>
      (CurrencyService.GetExchangeRates(selected, None, api).Err? ||
       CurrencyService.GetExchangeRates(today, None, api).Err?)
    ensures h.response.status == 500 ==> ReportsServiceError(h, api)
  {
  }

  /** A valid request is answered 500 exactly when a service call fails, and then with that call's message. */
  lemma FailureCarriesMessage(dateParam: Option<string>, today: Date, api: CurrencyService.Api)
    requires Valid(today) && DateFormat.FourDigitYear(today)
    ensures forall k :: 0 <= k < |GetExchangeRates(dateParam, today, api).calls| ==>
      Valid(GetExchangeRates(dateParam, today, api).calls[k].date)
    ensures GetExchangeRates(dateParam, today, api).response.status == 500 <==>
      DateFormat.ValidateDate(RequestedDate(dateParam, today), DateFormat.Ymd) &&
      (CurrencyService.GetExchangeRates(DateOf(RequestedDate(dateParam, today)), None, api).Err? ||
       CurrencyService.GetExchangeRates(today, None, api).Err?)
    ensures GetExchangeRates(dateParam, today, api).response.status == 500 ==>
      ReportsServiceError(GetExchangeRates(dateParam, today, api), api)
  {
    var s := RequestedDate(dateParam, today);
    if DateFormat.ValidateDate(s, DateFormat.Ymd) {
      DispatchedFailure(GetExchangeRates(dateParam, today, api), s, DateOf(s), today, api);
    }
  }

  /** Without a `date` parameter the request is never rejected, and a successful answer selects today. */
  lemma DefaultsToToday(today: Date, api: CurrencyService.Api)
    requires Valid(today) && DateFormat.FourDigitYear(today)
    ensures GetExchangeRates(None, today, api).response.status != 400
    ensures GetExchangeRates(None, today, api).response.status == 200 ==>
      GetExchangeRates(None, today, api).response.body.selectedDate == DateFormat.FormatYmd(today)
  {
    DateFormat.RenderedDateIsValid(DateFormat.Ymd, today);
  }

  /** A malformed date such as "invalid-date" is answered 400 without consulting the service. */
  lemma RejectsMalformedDate(today: Date, api: CurrencyService.Api)
    requires Valid(today) && DateFormat.FourDigitYear(today)
    ensures GetExchangeRates(Some("invalid-date"), today, api) ==
      Handled(Response(400, ErrorBody(InvalidDateFormat)), [])
  {
    assert Decimal.LeadingDigits("invalid-date", 4) == 0;
  }

  /** A successful answer for a valid date selects exactly the requested string, and no day is stepped back. */
  lemma ValidDateAnswered(s: string, today: Date, api: CurrencyService.Api)
    requires Valid(today) && DateFormat.FourDigitYear(today)
    requires DateFormat.ValidateDate(s, DateFormat.Ymd)
    ensures GetExchangeRates(Some(s), today, api).response.status in {200, 500}
    ensures GetExchangeRates(Some(s), today, api).calls[0] == ServiceCall(DateOf(s), None)
    ensures forall c :: c in CurrencyService.Currencies ==>
      CurrencyService.SearchCurrency(c, DateOf(s), CurrencyService.DaysToCheck(None), api).tried == [DateOf(s)]
  {
    forall c | c in CurrencyService.Currencies
      ensures CurrencyService.SearchCurrency(c, DateOf(s), CurrencyService.DaysToCheck(None), api).tried == [DateOf(s)]
    {
      CurrencyService.SingleAttemptByDefault(c, DateOf(s), api);
    }
  }

  /** The controller's unused private validateDate: the same parse-and-reformat check. */
  predicate PrivateValidateDate(date: string, format: DateFormat.Format) {
    match DateFormat.CreateFromFormat(format, date)
    case None => false
    case Some(d) => DateFormat.Render(DateFormat.Tokens(format), d) == date
  }

  lemma PrivateValidateDateAgrees(date: string, format: DateFormat.Format)
    ensures PrivateValidateDate(date, format) == DateFormat.ValidateDate(date, format)
  {
  }
}
