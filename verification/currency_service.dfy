/**
  CurrencyService: fetches the NBP mid rate of each supported currency for a
  requested day and derives buy and sell rates from it.

  The HTTP client is an oracle `Api` from (currency code, day) to the reply the
  NBP endpoint gives. A 404 means "no table published that day" and makes the
  service step back one calendar day, at most `daysToCheck` times per currency;
  any other failure aborts the whole call.
*/
module CurrencyService {
  import opened Results
  import opened Calendar
  import DateFormat
  import Currency
  import opened Sequences

  /** What the NBP endpoint answers for one currency on one day. */
  datatype Reply =
    | Rate(mid: real)                          // a decoded body: `rates[0].mid`
    | HttpError(status: int, message: string)  // a non-2xx status
    | TransportError(message: string)          // a network, redirection or decoding failure

  predicate IsNotFound(r: Reply) {
    r.HttpError? && r.status == 404
  }

  type Api = (string, Date) -> Reply

  /** One entry of `rates`; `date` is the day whose table supplied the mid rate. */
  datatype RateRecord = RateRecord(
    code: string,
    name: string,
    nbpRate: real,
    buyRate: Option<real>,
    sellRate: real,
    date: Date)

  /** The service's result: the day asked for, the day reported, and the rates found. */
  datatype RateSet = RateSet(requestedDate: string, dataFromTheDay: string, rates: seq<RateRecord>)

  /** The currencies the service walks, in order. */
  const Currencies: seq<string> := [Currency.EUR, Currency.USD, Currency.CZK, Currency.IDR, Currency.BRL]

  /** The currencies the exchange office both buys and sells. */
  predicate IsTraded(code: string) {
    code == Currency.EUR || code == Currency.USD
  }

  function BuyRate(code: string, mid: real): Option<real> {
    if IsTraded(code) then Some(mid - 0.05) else None
  }

  function SellRate(code: string, mid: real): real {
    if IsTraded(code) then mid + 0.07 else mid + 0.15
  }

  function MakeRecord(code: string, mid: real, date: Date): RateRecord {
    RateRecord(code, Currency.GetName(code), mid, BuyRate(code, mid), SellRate(code, mid), date)
  }

  /** The number of days tried per currency: one when no maximum is given. */
  function DaysToCheck(maxDaysToCheck: Option<int>): int {
    match maxDaysToCheck
    case None => 1
    case Some(n) => n
  }

  function Attempts(days: int): nat {
    if days < 0 then 0 else days
  }

  /** The search for one currency: the record found (or none), or the aborting error, and the days requested. */
  datatype Search = Search(outcome: Result<Option<RateRecord>>, tried: seq<Date>)

  /** One currency's step-back loop (the inner `for` of getExchangeRates). */
  function SearchCurrency(code: string, date: Date, days: int, api: Api): (s: Search)
    requires Valid(date)
    ensures |s.tried| <= Attempts(days)
    ensures s.outcome.Ok? && s.outcome.value.Some? ==> s.outcome.value.value.code == code
    decreases days
  {
    if days <= 0 then Search(Ok(None), [])
    else
      var reply := api(code, date);
      if reply.Rate? then Search(Ok(Some(MakeRecord(code, reply.mid, date))), [date])
      else if IsNotFound(reply) then
        // `$currentDate->modify('-1 day')`, which DateFormat.ModifyMinusOneDay shows is Pred
        var rest := SearchCurrency(code, Pred(date), days - 1, api);
        Search(rest.outcome, [date] + rest.tried)
      else Search(Err(reply.message), [date])
  }

  /** The reply to the last request of a search. */
  function LastReply(code: string, s: Search, api: Api): Reply
    requires |s.tried| > 0
  {
    api(code, s.tried[|s.tried| - 1])
  }

  /**
    What a search did: the i-th request asked for the day i days before
    `date`, and every request but the last got a 404.
  */
  predicate SteppedBack(code: string, date: Date, api: Api, tried: seq<Date>)
    requires Valid(date)
  {
    && (forall i :: 0 <= i < |tried| ==> tried[i] == PredN(date, i))
    && (forall i :: 0 <= i < |tried| - 1 ==> IsNotFound(api(code, tried[i])))
  }

  /** How the last reply decides a search's outcome. */
  predicate Decided(code: string, days: int, api: Api, s: Search) {
    match s.outcome
    case Ok(None) =>
      |s.tried| == Attempts(days) && (|s.tried| > 0 ==> IsNotFound(LastReply(code, s, api)))
    case Ok(Some(record)) =>
      |s.tried| > 0 && LastReply(code, s, api).Rate? &&
      record == MakeRecord(code, LastReply(code, s, api).mid, s.tried[|s.tried| - 1])
    case Err(message) =>
      |s.tried| > 0 && !LastReply(code, s, api).Rate? && !IsNotFound(LastReply(code, s, api)) &&
      message == LastReply(code, s, api).message
  }

  lemma {:induction false} SearchSteppedBack(code: string, date: Date, days: int, api: Api)
    requires Valid(date)
    ensures SteppedBack(code, date, api, SearchCurrency(code, date, days, api).tried)
    decreases days
  {
    if days > 0 && IsNotFound(api(code, date)) {
      SearchSteppedBack(code, Pred(date), days - 1, api);
      var rest := SearchCurrency(code, Pred(date), days - 1, api).tried;
      var tried := [date] + rest;
      forall i | 0 < i < |tried|
        ensures tried[i] == PredN(date, i)
      {
        assert tried[i] == rest[i - 1];
      }
    }
  }

  lemma {:induction false} SearchDecided(code: string, date: Date, days: int, api: Api)
    requires Valid(date)
    ensures Decided(code, days, api, SearchCurrency(code, date, days, api))
    decreases days
  {
    if days > 0 && IsNotFound(api(code, date)) {
      SearchDecided(code, Pred(date), days - 1, api);
      var rest := SearchCurrency(code, Pred(date), days - 1, api);
      var s := SearchCurrency(code, date, days, api);
      if |rest.tried| > 0 {
        assert LastReply(code, s, api) == LastReply(code, rest, api);
        assert s.tried[|s.tried| - 1] == rest.tried[|rest.tried| - 1];
      }
    }
  }

  /** The days a search tried before its `i`-th request all answered 404, and that request asked for `i` days back. */
  lemma EarlierDaysNotFound(code: string, date: Date, days: int, api: Api, i: nat)
    requires Valid(date)
    requires i < |SearchCurrency(code, date, days, api).tried|
    ensures SearchCurrency(code, date, days, api).tried[i] == PredN(date, i)
    ensures forall j :: 0 <= j < i ==> IsNotFound(api(code, PredN(date, j)))
  {
    var s := SearchCurrency(code, date, days, api);
    SearchSteppedBack(code, date, days, api);
    forall j | 0 <= j < i
      ensures IsNotFound(api(code, PredN(date, j)))
    {
      assert s.tried[j] == PredN(date, j);
    }
  }

  /** A currency yields no entry exactly when every day tried answered 404. */
  lemma SearchAbsentIff(code: string, date: Date, days: int, api: Api)
    requires Valid(date)
    ensures SearchCurrency(code, date, days, api).outcome == Ok(None) <==>
      forall i :: 0 <= i < days ==> IsNotFound(api(code, PredN(date, i)))
  {
    if SearchCurrency(code, date, days, api).outcome == Ok(None) {
      AbsentMeansAllNotFound(code, date, days, api);
    } else {
      FoundOrFailedMeansAnswered(code, date, days, api);
    }
  }

  lemma AbsentMeansAllNotFound(code: string, date: Date, days: int, api: Api)
    requires Valid(date)
    requires SearchCurrency(code, date, days, api).outcome == Ok(None)
    ensures forall i :: 0 <= i < days ==> IsNotFound(api(code, PredN(date, i)))
  {
    var s := SearchCurrency(code, date, days, api);
    SearchSteppedBack(code, date, days, api);
    SearchDecided(code, date, days, api);
    assert |s.tried| == Attempts(days);
    forall i | 0 <= i < days
      ensures IsNotFound(api(code, PredN(date, i)))
    {
      assert s.tried[i] == PredN(date, i);
      if i < |s.tried| - 1 {
        assert IsNotFound(api(code, s.tried[i]));
      } else {
        assert IsNotFound(LastReply(code, s, api));
      }
    }
  }

  lemma FoundOrFailedMeansAnswered(code: string, date: Date, days: int, api: Api)
    requires Valid(date)
    requires SearchCurrency(code, date, days, api).outcome != Ok(None)
    ensures exists i :: 0 <= i < days && !IsNotFound(api(code, PredN(date, i)))
  {
    var s := SearchCurrency(code, date, days, api);
    SearchSteppedBack(code, date, days, api);
    SearchDecided(code, date, days, api);
    var n := |s.tried| - 1;
    assert s.tried[n] == PredN(date, n);
    assert !IsNotFound(LastReply(code, s, api));
    assert !IsNotFound(api(code, PredN(date, n)));
  }

  function CodesOf(rates: seq<RateRecord>): (codes: seq<string>)
    ensures |codes| == |rates|
    ensures forall k :: 0 <= k < |rates| ==> codes[k] == rates[k].code
  {
    if rates == [] then [] else [rates[0].code] + CodesOf(rates[1..])
  }

  /** The search for `codes[i]` is the first, in list order, that fails. */
  predicate FirstFailureAt(codes: seq<string>, date: Date, days: int, api: Api, i: int)
    requires Valid(date)
  {
    && 0 <= i < |codes|
    && SearchCurrency(codes[i], date, days, api).outcome.Err?
    && forall j :: 0 <= j < i ==> SearchCurrency(codes[j], date, days, api).outcome.Ok?
  }

  /** A first failure of the tail is the first failure of a list whose head succeeds. */
  lemma FirstFailureShift(codes: seq<string>, date: Date, days: int, api: Api, message: string)
    requires Valid(date) && codes != []
    requires SearchCurrency(codes[0], date, days, api).outcome.Ok?
    requires exists i :: (FirstFailureAt(codes[1..], date, days, api, i) &&
      SearchCurrency(codes[1..][i], date, days, api).outcome == Err(message))
    ensures exists i :: (FirstFailureAt(codes, date, days, api, i) &&
      SearchCurrency(codes[i], date, days, api).outcome == Err(message))
  {
    var i :| FirstFailureAt(codes[1..], date, days, api, i) &&
      SearchCurrency(codes[1..][i], date, days, api).outcome == Err(message);
    forall j | 0 < j < i + 1
      ensures SearchCurrency(codes[j], date, days, api).outcome.Ok?
    {
      assert codes[j] == codes[1..][j - 1];
    }
    assert FirstFailureAt(codes, date, days, api, i + 1);
  }

  /**
    The currency loop: one search per code, in order; the first error aborts
    with no partial result; currencies whose every day was a 404 are skipped.
  */
  function FetchAll(codes: seq<string>, date: Date, days: int, api: Api): (r: Result<seq<RateRecord>>)
    requires Valid(date)
    ensures r.Ok? <==> forall i :: 0 <= i < |codes| ==> SearchCurrency(codes[i], date, days, api).outcome.Ok?
    ensures r.Err? ==> exists i :: (FirstFailureAt(codes, date, days, api, i) &&
      SearchCurrency(codes[i], date, days, api).outcome == Err(r.message))
    ensures r.Ok? ==> IsSubsequence(CodesOf(r.value), codes)
    ensures r.Ok? ==> forall k :: 0 <= k < |r.value| ==>
      SearchCurrency(r.value[k].code, date, days, api).outcome == Ok(Some(r.value[k]))
    ensures r.Ok? ==> forall i :: 0 <= i < |codes| ==>
      (SearchCurrency(codes[i], date, days, api).outcome.value.Some? ==> codes[i] in CodesOf(r.value))
    decreases |codes|
  {
    if codes == [] then Ok([])
    else
      var here := SearchCurrency(codes[0], date, days, api).outcome;
      if here.Err? then
        assert FirstFailureAt(codes, date, days, api, 0);
        Err(here.message)
      else
        var rest := FetchAll(codes[1..], date, days, api);
        if rest.Err? then
          FirstFailureShift(codes, date, days, api, rest.message);
          rest
        else if here.value.Some? then Ok([here.value.value] + rest.value)
        else rest
  }

  /** CurrencyService::getExchangeRates for a day that already passed Y-m-d validation. */
  function GetExchangeRates(requested: Date, maxDaysToCheck: Option<int>, api: Api): (r: Result<RateSet>)
    requires Valid(requested)
    ensures r.Ok? <==> forall i :: 0 <= i < |Currencies| ==>
      SearchCurrency(Currencies[i], requested, DaysToCheck(maxDaysToCheck), api).outcome.Ok?
    ensures r.Err? ==> exists i :: (FirstFailureAt(Currencies, requested, DaysToCheck(maxDaysToCheck), api, i) &&
      SearchCurrency(Currencies[i], requested, DaysToCheck(maxDaysToCheck), api).outcome == Err(r.message))
    ensures r.Ok? ==> r.value.requestedDate == DateFormat.FormatYmd(requested)
    ensures r.Ok? ==> r.value.dataFromTheDay == DateFormat.FormatYmd(requested)
    ensures r.Ok? ==> IsSubsequence(CodesOf(r.value.rates), Currencies)
  {
    var fetched := FetchAll(Currencies, requested, DaysToCheck(maxDaysToCheck), api);
    match fetched
    case Err(message) => Err(message)
    case Ok(rates) =>
      Ok(RateSet(DateFormat.FormatYmd(requested), DateFormat.FormatYmd(requested), rates))
  }

  // ------------------------------------------------------------------ lemmas

  /** The service walks exactly the codes of the currency table, in its order. */
  lemma CurrenciesAreTheTable()
    ensures Currencies == Currency.GetAll()
  {
    Currency.GetAllInOrder();
  }

  /** Rate offsets: EUR and USD are bought 0.05 below and sold 0.07 above the mid; others only sold, 0.15 above. */
  lemma RecordOffsets(code: string, mid: real, date: Date)
    ensures var r := MakeRecord(code, mid, date);
      && r.code == code
      && r.nbpRate == mid
      && r.name == Currency.GetName(code)
      && r.date == date
      && (r.buyRate.Some? <==> code == Currency.EUR || code == Currency.USD)
      && (r.buyRate.Some? ==> r.buyRate.value == mid - 0.05 && r.sellRate == mid + 0.07 && r.sellRate - r.buyRate.value == 0.12)
      && (r.buyRate.None? ==> r.sellRate == mid + 0.15)
  {
  }

  /** The record the service's test expects for every currency when the mid rate is 4.1234. */
  predicate ExpectedSample(r: RateRecord) {
    && r.nbpRate == 4.1234
    && (if r.code == Currency.EUR || r.code == Currency.USD
        then r.buyRate == Some(4.0734) && r.sellRate == 4.1934
        else r.buyRate == None && r.sellRate == 4.2734)
  }

  /** The values the service's test expects for a mid rate of 4.1234, currency by currency. */
  lemma SampleOffsets(date: Date)
    ensures forall c :: c in Currencies ==> ExpectedSample(MakeRecord(c, 4.1234, date))
    ensures MakeRecord(Currency.EUR, 4.1234, date).buyRate == Some(4.0734)
    ensures MakeRecord(Currency.CZK, 4.1234, date).buyRate == None
  {
  }

  /**
    The service's test scenario: an API that answers 4.1234 for everything
    yields one record per currency, in table order, each with the expected rates.
  */
  lemma SampleRun(requested: Date, api: Api)
    requires Valid(requested)
    requires forall c, d :: api(c, d) == Rate(4.1234)
    ensures GetExchangeRates(requested, None, api).Ok?
    ensures CodesOf(GetExchangeRates(requested, None, api).value.rates) == Currencies
    ensures forall k :: 0 <= k < |GetExchangeRates(requested, None, api).value.rates| ==>
      ExpectedSample(GetExchangeRates(requested, None, api).value.rates[k])
  {
    SampleFetch(Currencies, requested, api);
    SampleOffsets(requested);
  }

  /** Every search with a single day finds the record built from the API's one answer. */
  lemma {:induction false} SampleFetch(codes: seq<string>, date: Date, api: Api)
    requires Valid(date)
    requires forall c, d :: api(c, d) == Rate(4.1234)
    ensures FetchAll(codes, date, 1, api).Ok?
    ensures |FetchAll(codes, date, 1, api).value| == |codes|
    ensures forall k :: 0 <= k < |codes| ==> FetchAll(codes, date, 1, api).value[k] == MakeRecord(codes[k], 4.1234, date)
    decreases |codes|
  {
    if codes != [] {
      assert SearchCurrency(codes[0], date, 1, api).outcome == Ok(Some(MakeRecord(codes[0], 4.1234, date)));
      SampleFetch(codes[1..], date, api);
    }
  }

  /** Without a maximum, each currency is asked for the requested day once and never stepped back. */
  lemma SingleAttemptByDefault(code: string, date: Date, api: Api)
    requires Valid(date)
    ensures SearchCurrency(code, date, DaysToCheck(None), api).tried == [date]
  {
  }

  /** A non-positive maximum makes no request at all and so finds nothing. */
  lemma NoAttemptsWithoutDays(code: string, date: Date, days: int, api: Api)
    requires Valid(date) && days <= 0
    ensures SearchCurrency(code, date, days, api) == Search(Ok(None), [])
  {
  }

  /** A subsequence of a list without repeats has no repeats. */
  lemma {:induction false} SubsequenceDistinct(xs: seq<string>, ys: seq<string>)
    requires IsSubsequence(xs, ys) && Currency.NoDuplicates(ys)
    ensures Currency.NoDuplicates(xs)
    ensures forall x :: x in xs ==> x in ys
    decreases |ys|
  {
    if xs != [] && ys != [] {
      if xs[0] == ys[0] {
        SubsequenceDistinct(xs[1..], ys[1..]);
        assert xs == [xs[0]] + xs[1..] && ys == [ys[0]] + ys[1..];
        forall j | 0 < j < |xs|
          ensures xs[0] != xs[j]
        {
          assert xs[j] in xs[1..];
        }
      } else {
        SubsequenceDistinct(xs, ys[1..]);
      }
    }
  }

  /** `rates` lists currencies in the fixed order, each at most once. */
  lemma RatesOrderedAndDistinct(requested: Date, maxDaysToCheck: Option<int>, api: Api)
    requires Valid(requested)
    requires GetExchangeRates(requested, maxDaysToCheck, api).Ok?
    ensures IsSubsequence(CodesOf(GetExchangeRates(requested, maxDaysToCheck, api).value.rates), Currencies)
    ensures Currency.NoDuplicates(CodesOf(GetExchangeRates(requested, maxDaysToCheck, api).value.rates))
  {
    Currency.GetAllInOrder();
    CurrenciesAreTheTable();
    SubsequenceDistinct(CodesOf(GetExchangeRates(requested, maxDaysToCheck, api).value.rates), Currencies);
  }

  /**
    Record `e` was fetched `i` days before `date`, within `days` days: the API
    gave its mid rate on that day and a 404 on every later day.
  */
  predicate Provenance(e: RateRecord, date: Date, days: int, api: Api, i: nat)
    requires Valid(date)
  {
    && i < days
    && e.date == PredN(date, i)
    && Ordinal(e.date) == Ordinal(date) - i
    && api(e.code, e.date) == Rate(e.nbpRate)
    && e == MakeRecord(e.code, e.nbpRate, e.date)
    && (forall j :: 0 <= j < i ==> IsNotFound(api(e.code, PredN(date, j))))
  }

  /**
    Every entry comes from the first day, counting back from the requested one,
    on which the API did not answer 404, and that day is fewer than
    `daysToCheck` days back.
  */
  lemma RecordProvenance(requested: Date, maxDaysToCheck: Option<int>, api: Api, k: int)
    requires Valid(requested)
    requires GetExchangeRates(requested, maxDaysToCheck, api).Ok?
    requires 0 <= k < |GetExchangeRates(requested, maxDaysToCheck, api).value.rates|
    ensures exists i: nat ::
      Provenance(GetExchangeRates(requested, maxDaysToCheck, api).value.rates[k], requested, DaysToCheck(maxDaysToCheck), api, i)
  {
    var days := DaysToCheck(maxDaysToCheck);
    var e := GetExchangeRates(requested, maxDaysToCheck, api).value.rates[k];
    assert SearchCurrency(e.code, requested, days, api).outcome == Ok(Some(e));
    SearchProvenance(e.code, requested, days, api, e);
  }

  /** A record a search found comes from its last request, and every earlier request got a 404. */
  lemma SearchProvenance(code: string, date: Date, days: int, api: Api, e: RateRecord)
    requires Valid(date)
    requires SearchCurrency(code, date, days, api).outcome == Ok(Some(e))
    ensures exists i: nat :: Provenance(e, date, days, api, i)
  {
    var s := SearchCurrency(code, date, days, api);
    SearchDecided(code, date, days, api);
    var i := |s.tried| - 1;
    var reply := api(code, s.tried[i]);
    assert reply.Rate? && e == MakeRecord(code, reply.mid, s.tried[i]);
    assert e.code == code && e.nbpRate == reply.mid && e.date == s.tried[i];
    EarlierDaysNotFound(code, date, days, api, i);
    assert Provenance(e, date, days, api, i);
  }

  /** A currency is missing from `rates` exactly when every day tried for it answered 404. */
  lemma AbsentIffAllNotFound(requested: Date, maxDaysToCheck: Option<int>, api: Api, c: string)
    requires Valid(requested)
    requires GetExchangeRates(requested, maxDaysToCheck, api).Ok?
    requires c in Currencies
    ensures c !in CodesOf(GetExchangeRates(requested, maxDaysToCheck, api).value.rates) <==>
      forall i :: 0 <= i < DaysToCheck(maxDaysToCheck) ==> IsNotFound(api(c, PredN(requested, i)))
  {
    var days := DaysToCheck(maxDaysToCheck);
    var rates := GetExchangeRates(requested, maxDaysToCheck, api).value.rates;
    SearchAbsentIff(c, requested, days, api);
    var fetched := FetchAll(Currencies, requested, days, api);
    assert fetched.Ok? && fetched.value == rates;
    var n :| 0 <= n < |Currencies| && Currencies[n] == c;
    if c in CodesOf(rates) {
      var k :| 0 <= k < |rates| && CodesOf(rates)[k] == c;
      assert SearchCurrency(rates[k].code, requested, days, api).outcome == Ok(Some(rates[k]));
    }
  }
}
