/**
  The ExchangeRatesTable component's display logic: which date is selected,
  how each row's cells are filled, and which change arrow each cell shows.
  Rates arrive as the service's per-currency records; the JavaScript values a
  cell can hold (a number, null, or undefined for a missing row) are made
  explicit.
*/
module ExchangeRatesTable {
  import opened Results
  import Calendar
  import Currency
  import CurrencyService

  type RateRecord = CurrencyService.RateRecord

  // ------------------------------------------------------------ selected date

  /** `urlDate || today`: an absent or empty route parameter falls back to today. */
  function InitialSelectedDate(urlDate: Option<string>, today: string): (d: string)
    ensures d == today || (urlDate.Some? && d == urlDate.value)
    ensures d == today <==> urlDate == None || urlDate == Some("") || urlDate == Some(today)
  {
    match urlDate
      case Some(u) => if u != "" then u else today
      case None => today
  }

  /** One run of the effect: adopt the route's date when it differs, and fetch the date selected before this run. */
  datatype EffectRun = EffectRun(selected: string, fetched: string)

  function SyncWithUrl(urlDate: Option<string>, selected: string): (r: EffectRun)
    ensures r.fetched == selected
    ensures urlDate.Some? && urlDate.value != "" ==> r.selected == urlDate.value
    ensures (urlDate == None || urlDate == Some("")) ==> r.selected == selected
  {
    match urlDate
      case Some(u) => if u != "" && u != selected then EffectRun(u, selected) else EffectRun(selected, selected)
      case None => EffectRun(selected, selected)
  }

  /**
    The effect settles: after at most one rerun the selected date no longer
    changes, and the date fetched last is the route's date when it has one.
  */
  lemma EffectSettles(urlDate: Option<string>, selected: string)
    ensures var first := SyncWithUrl(urlDate, selected);
      SyncWithUrl(urlDate, first.selected).selected == first.selected &&
      SyncWithUrl(urlDate, first.selected).fetched == first.selected
    ensures urlDate.Some? && urlDate.value != "" ==>
      SyncWithUrl(urlDate, SyncWithUrl(urlDate, selected).selected).fetched == urlDate.value
  {
  }

  /** On first render the selected date already agrees with the route, so the first fetch is for it. */
  lemma InitialDateInSync(urlDate: Option<string>, today: string)
    ensures SyncWithUrl(urlDate, InitialSelectedDate(urlDate, today)).selected == InitialSelectedDate(urlDate, today)
    ensures urlDate.Some? && urlDate.value != "" ==>
      SyncWithUrl(urlDate, InitialSelectedDate(urlDate, today)).fetched == urlDate.value
  {
  }

  /**
    handleDateChange sets both the selected date and the route to the picked
    date, so the next effect run keeps that date and fetches it.
  */
  lemma DateChangeFetchesPick(newDate: string)
    ensures SyncWithUrl(Some(newDate), newDate) == EffectRun(newDate, newDate)
  {
  }

  // -------------------------------------------------------- JavaScript values

  /** A cell's value: a number, null (a rate the service left out), or undefined (no row for today). */
  datatype JsValue = Undefined | Null | Num(x: real)

  /** JavaScript's numeric conversion in `a - b`; None is NaN. */
  function ToNumber(v: JsValue): Option<real> {
    match v
      case Undefined => None
      case Null => Some(0.0)
      case Num(x) => Some(x)
  }

  predicate Truthy(v: JsValue) {
    v.Num? && v.x != 0.0
  }

  function JsOf(o: Option<real>): JsValue {
    match o
      case Some(x) => Num(x)
      case None => Null
  }

  // ------------------------------------------------------------- change arrow

  datatype Arrow = NoArrow | Down | Up

  /** renderChangeArrow: none on today's page; otherwise the sign of selected minus today. */
  function ChangeArrow(selectedDate: string, today: string, current: JsValue, todayRate: JsValue): (a: Arrow)
    ensures selectedDate == today ==> a == NoArrow
    ensures ToNumber(current) == None || ToNumber(todayRate) == None ==> a == NoArrow
    ensures selectedDate != today && ToNumber(current).Some? && ToNumber(todayRate).Some? ==>
      (a == Down <==> ToNumber(current).value < ToNumber(todayRate).value) &&
      (a == Up <==> ToNumber(current).value > ToNumber(todayRate).value) &&
      (a == NoArrow <==> ToNumber(current).value == ToNumber(todayRate).value)
  {
    if selectedDate == today then NoArrow
    else match (ToNumber(current), ToNumber(todayRate))
      case (Some(c), Some(t)) =>
        var change := c - t;
        if change < 0.0 then Down else if change > 0.0 then Up else NoArrow
      case _ => NoArrow
  }

  /** Exchanging the two rates turns a falling arrow into a rising one and back. */
  lemma ChangeArrowAntisymmetric(selectedDate: string, today: string, a: JsValue, b: JsValue)
    ensures ChangeArrow(selectedDate, today, a, b) == Down <==> ChangeArrow(selectedDate, today, b, a) == Up
    ensures ChangeArrow(selectedDate, today, a, b) == NoArrow <==> ChangeArrow(selectedDate, today, b, a) == NoArrow
  {
  }

  // -------------------------------------------------------------------- cells

  /** What a cell shows: nothing, a dash, or a number. */
  datatype Cell = Blank | Dash | Shown(x: real)

  /** `{value}`: null and undefined render as nothing. */
  function Plain(v: JsValue): Cell {
    if v.Num? then Shown(v.x) else Blank
  }

  /** `value ? value : '-'`: the buy-rate cells show a dash for any falsy value. */
  function OrDash(v: JsValue): (c: Cell)
    ensures c == Dash <==> !Truthy(v)
    ensures c.Shown? ==> v == Num(c.x)
  {
    if Truthy(v) then Shown(v.x) else Dash
  }

  datatype Field = NbpField | BuyField | SellField

  function FieldOf(r: RateRecord, f: Field): JsValue {
    match f
      case NbpField => Num(r.nbpRate)
      case BuyField => JsOf(r.buyRate)
      case SellField => Num(r.sellRate)
  }

  /** `todayRates[index]?.field`: undefined when today has no row at that position. */
  function TodayField(todayRates: seq<RateRecord>, index: int, f: Field): (v: JsValue)
    ensures v == Undefined <==> !(0 <= index < |todayRates|)
  {
    if 0 <= index < |todayRates| then FieldOf(todayRates[index], f) else Undefined
  }

  // --------------------------------------------------------------------- rows

  datatype Row = Row(
    name: string,
    code: string,
    nbp: Cell, buy: Cell, sell: Cell,
    nbpArrow: Arrow, todayNbp: Cell,
    buyArrow: Arrow, todayBuy: Cell,
    sellArrow: Arrow, todaySell: Cell)

  /** One row, given the JavaScript values found for today's rates. */
  function RowOf(selectedDate: string, today: string, rate: RateRecord,
                 todayNbp: JsValue, todayBuy: JsValue, todaySell: JsValue): Row
  {
    var buy := JsOf(rate.buyRate);
    Row(rate.name, rate.code,
        Plain(Num(rate.nbpRate)), OrDash(buy), Plain(Num(rate.sellRate)),
        ChangeArrow(selectedDate, today, Num(rate.nbpRate), todayNbp), Plain(todayNbp),
        if Truthy(buy) then ChangeArrow(selectedDate, today, buy, todayBuy) else NoArrow, OrDash(todayBuy),
        ChangeArrow(selectedDate, today, Num(rate.sellRate), todaySell), Plain(todaySell))
  }

  /** The table body as written: row `index` is compared with today's row at the same position. */
  function Rows(selectedDate: string, today: string, rates: seq<RateRecord>, todayRates: seq<RateRecord>): (rows: seq<Row>)
    ensures |rows| == |rates|
    ensures forall i :: 0 <= i < |rates| ==> rows[i].code == rates[i].code && rows[i].name == rates[i].name
  {
    seq(|rates|, i requires 0 <= i < |rates| =>
      RowOf(selectedDate, today, rates[i],
            TodayField(todayRates, i, NbpField), TodayField(todayRates, i, BuyField), TodayField(todayRates, i, SellField)))
  }

  /** The buy cell shows a dash exactly for currencies without a buy rate (or a zero one), and then no arrow. */
  lemma BuyCellDash(selectedDate: string, today: string, rates: seq<RateRecord>, todayRates: seq<RateRecord>, i: int)
    requires 0 <= i < |rates|
    ensures var row := Rows(selectedDate, today, rates, todayRates)[i];
      (row.buy == Dash <==> rates[i].buyRate == None || rates[i].buyRate == Some(0.0)) &&
      (row.buy == Dash ==> row.buyArrow == NoArrow)
  {
  }

  /** For records built by the service, the dash marks exactly the currencies the bank does not trade. */
  lemma DashMarksUntraded(selectedDate: string, today: string, code: string, mid: real, date: Calendar.Date,
                          todayRates: seq<RateRecord>)
    requires mid != 0.05
    ensures Rows(selectedDate, today, [CurrencyService.MakeRecord(code, mid, date)], todayRates)[0].buy == Dash <==>
      !CurrencyService.IsTraded(code)
  {
    BuyCellDash(selectedDate, today, [CurrencyService.MakeRecord(code, mid, date)], todayRates, 0);
  }

  /** On today's page, or where today has no row, no arrow is drawn. */
  lemma NoArrowWithoutComparison(selectedDate: string, today: string, rates: seq<RateRecord>, todayRates: seq<RateRecord>, i: int)
    requires 0 <= i < |rates|
    requires selectedDate == today || i >= |todayRates|
    ensures var row := Rows(selectedDate, today, rates, todayRates)[i];
      row.nbpArrow == NoArrow && row.buyArrow == NoArrow && row.sellArrow == NoArrow
  {
  }

  /** Where today has a row, the mid-rate arrow falls exactly when the selected day's rate is below today's. */
  lemma NbpArrowCompares(selectedDate: string, today: string, rates: seq<RateRecord>, todayRates: seq<RateRecord>, i: int)
    requires 0 <= i < |rates| && i < |todayRates| && selectedDate != today
    ensures var row := Rows(selectedDate, today, rates, todayRates)[i];
      (row.nbpArrow == Down <==> rates[i].nbpRate < todayRates[i].nbpRate) &&
      (row.nbpArrow == Up <==> rates[i].nbpRate > todayRates[i].nbpRate)
  {
  }

  /**
    The cells show the record's rates; today's cells show today's row at the
    same position, and are empty (a dash for the buy rate) when there is none.
  */
  lemma CellsShowRates(selectedDate: string, today: string, rates: seq<RateRecord>, todayRates: seq<RateRecord>, i: int)
    requires 0 <= i < |rates|
    ensures var row := Rows(selectedDate, today, rates, todayRates)[i];
      row.nbp == Shown(rates[i].nbpRate) && row.sell == Shown(rates[i].sellRate) &&
      (rates[i].buyRate.Some? && rates[i].buyRate.value != 0.0 ==> row.buy == Shown(rates[i].buyRate.value)) &&
      (i < |todayRates| ==>
        row.todayNbp == Shown(todayRates[i].nbpRate) && row.todaySell == Shown(todayRates[i].sellRate) &&
        (todayRates[i].buyRate.Some? && todayRates[i].buyRate.value != 0.0 ==>
          row.todayBuy == Shown(todayRates[i].buyRate.value)) &&
        (todayRates[i].buyRate.None? ==> row.todayBuy == Dash)) &&
      (i >= |todayRates| ==> row.todayNbp == Blank && row.todaySell == Blank && row.todayBuy == Dash)
  {
  }

  /**
    Where today has a row, the sell arrow compares the two sell rates, and a
    buy rate is compared with today's, a missing one of today's counting as 0.
  */
  lemma SellAndBuyArrowsCompare(selectedDate: string, today: string, rates: seq<RateRecord>, todayRates: seq<RateRecord>, i: int)
    requires 0 <= i < |rates| && i < |todayRates| && selectedDate != today
    ensures var row := Rows(selectedDate, today, rates, todayRates)[i];
      (row.sellArrow == Down <==> rates[i].sellRate < todayRates[i].sellRate) &&
      (row.sellArrow == Up <==> rates[i].sellRate > todayRates[i].sellRate)
    ensures var row := Rows(selectedDate, today, rates, todayRates)[i];
      rates[i].buyRate.Some? && rates[i].buyRate.value != 0.0 ==>
        var b := rates[i].buyRate.value;
        var t := if todayRates[i].buyRate.Some? then todayRates[i].buyRate.value else 0.0;
        (row.buyArrow == Down <==> b < t) && (row.buyArrow == Up <==> b > t)
  {
  }

  /**
    Rows are paired by position, so one currency missing on the selected day
    shifts every later comparison: with EUR absent that day, USD's row is
    compared with today's EUR rate.
  */
  lemma PositionalPairingMismatch()
    ensures var usd := CurrencyService.RateRecord("USD", "US Dollar", 3.9, Some(3.85), 3.97, Calendar.Date(2024, 8, 5));
      var eurToday := CurrencyService.RateRecord("EUR", "Euro", 4.3, Some(4.25), 4.37, Calendar.Date(2024, 8, 6));
      var usdToday := usd.(nbpRate := 3.95, date := Calendar.Date(2024, 8, 6));
      var row := Rows("2024-08-05", "2024-08-06", [usd], [eurToday, usdToday])[0];
      row.code == "USD" && row.nbpArrow == Down && row.todayNbp == Shown(4.3)
  {
  }

  /** The comparison the header promises: each row against today's record of the same currency. */
  function FindByCode(todayRates: seq<RateRecord>, code: string): (r: Option<RateRecord>)
    ensures r.Some? ==> r.value in todayRates && r.value.code == code
    ensures r.None? <==> forall j :: 0 <= j < |todayRates| ==> todayRates[j].code != code
  {
    if todayRates == [] then None
    else if todayRates[0].code == code then Some(todayRates[0])
    else
      var r := FindByCode(todayRates[1..], code);
      assert forall j :: 0 < j < |todayRates| ==> todayRates[j] == todayRates[1..][j - 1];
      r
  }

  function TodayFieldByCode(todayRates: seq<RateRecord>, code: string, f: Field): JsValue {
    match FindByCode(todayRates, code)
      case Some(r) => FieldOf(r, f)
      case None => Undefined
  }

  /** The table body with today's rates matched by currency code. */
  function RowsByCode(selectedDate: string, today: string, rates: seq<RateRecord>, todayRates: seq<RateRecord>): (rows: seq<Row>)
    ensures |rows| == |rates|
    ensures forall i :: 0 <= i < |rates| ==> rows[i].code == rates[i].code && rows[i].name == rates[i].name
  {
    seq(|rates|, i requires 0 <= i < |rates| =>
      RowOf(selectedDate, today, rates[i],
            TodayFieldByCode(todayRates, rates[i].code, NbpField),
            TodayFieldByCode(todayRates, rates[i].code, BuyField),
            TodayFieldByCode(todayRates, rates[i].code, SellField)))
  }

  /** Matched by code, every mid-rate comparison is between two records of the same currency. */
  lemma RowsByCodeCompareSameCurrency(selectedDate: string, today: string, rates: seq<RateRecord>, todayRates: seq<RateRecord>, i: int)
    requires 0 <= i < |rates| && selectedDate != today
    ensures var row := RowsByCode(selectedDate, today, rates, todayRates)[i];
      (row.nbpArrow != NoArrow ==>
        exists j :: 0 <= j < |todayRates| && todayRates[j].code == rates[i].code &&
          (row.nbpArrow == Down <==> rates[i].nbpRate < todayRates[j].nbpRate)) &&
      ((forall j :: 0 <= j < |todayRates| ==> todayRates[j].code != rates[i].code) ==> row.nbpArrow == NoArrow)
  {
    var r := FindByCode(todayRates, rates[i].code);
    if r.Some? {
      var j :| 0 <= j < |todayRates| && todayRates[j] == r.value;
      assert todayRates[j].code == rates[i].code;
    }
  }

  /** When both days list the same currencies in the same order, the two pairings agree. */
  lemma PairingsAgreeWhenAligned(selectedDate: string, today: string, rates: seq<RateRecord>, todayRates: seq<RateRecord>)
    requires |todayRates| == |rates|
    requires forall i :: 0 <= i < |rates| ==> todayRates[i].code == rates[i].code
    requires Currency.NoDuplicates(CurrencyService.CodesOf(todayRates))
    ensures RowsByCode(selectedDate, today, rates, todayRates) == Rows(selectedDate, today, rates, todayRates)
  {
    forall i | 0 <= i < |rates|
      ensures FindByCode(todayRates, rates[i].code) == Some(todayRates[i])
    {
      FindByCodeAt(todayRates, i);
    }
  }

  /** In a list without repeated codes, the record found for the code at position i is the one at i. */
  lemma {:induction false} FindByCodeAt(todayRates: seq<RateRecord>, i: int)
    requires 0 <= i < |todayRates|
    requires Currency.NoDuplicates(CurrencyService.CodesOf(todayRates))
    ensures FindByCode(todayRates, todayRates[i].code) == Some(todayRates[i])
    decreases i
  {
    if i > 0 {
      assert CurrencyService.CodesOf(todayRates)[0] != CurrencyService.CodesOf(todayRates)[i];
      var tail := todayRates[1..];
      assert tail[i - 1] == todayRates[i];
      assert Currency.NoDuplicates(CurrencyService.CodesOf(tail)) by {
        forall a, b | 0 <= a < b < |tail|
          ensures CurrencyService.CodesOf(tail)[a] != CurrencyService.CodesOf(tail)[b]
        {
          assert tail[a] == todayRates[a + 1] && tail[b] == todayRates[b + 1];
        }
      }
      FindByCodeAt(tail, i - 1);
    }
  }
}
