/**
  The Calculator component's logic, with React state updates read as
  synchronous transitions: the amount input filter, the rate lookup, the
  conversion, and the from/to currency pair.
*/
module Calculator {
  import opened Results
  import opened Decimal
  import opened Sequences

  /** One entry of the calculator's rate list. */
  datatype CalcRate = CalcRate(code: string, name: string, nbpRate: real)

  const Pln := CalcRate("PLN", "Polish Zloty", 1.0)

  /** The rate list: the server-provided rates followed by PLN at rate 1. */
  function RatesOf(initial: seq<CalcRate>): seq<CalcRate> {
    initial + [Pln]
  }

  function Codes(rates: seq<CalcRate>): (codes: seq<string>)
    ensures |codes| == |rates|
    ensures forall i :: 0 <= i < |rates| ==> codes[i] == rates[i].code
  {
    if rates == [] then [] else [rates[0].code] + Codes(rates[1..])
  }

  // -------------------------------------------------------------- amount input

  /** JavaScript's `value.replace(',', '.')`: only the first comma becomes a dot. */
  function ReplaceFirstComma(s: string): (r: string)
    ensures |r| == |s|
  {
    if s == [] then []
    else if s[0] == ',' then "." + s[1..]
    else [s[0]] + ReplaceFirstComma(s[1..])
  }

  predicate NoComma(s: string) {
    forall i :: 0 <= i < |s| ==> s[i] != ','
  }

  /** Without a comma the text is unchanged; otherwise exactly the first comma becomes '.'. */
  lemma {:induction false} ReplaceFirstCommaSpec(s: string)
    ensures NoComma(s) ==> ReplaceFirstComma(s) == s
    ensures forall i :: 0 <= i < |s| && s[i] == ',' && NoComma(s[..i]) ==>
      ReplaceFirstComma(s) == s[..i] + "." + s[i + 1..]
  {
    if s != [] && s[0] != ',' {
      var t := s[1..];
      ReplaceFirstCommaSpec(t);
      if NoComma(s) {
        assert NoComma(t) by {
          forall j | 0 <= j < |t|
            ensures t[j] != ','
          {
            assert t[j] == s[j + 1];
          }
        }
        assert [s[0]] + t == s;
      }
      forall i | 0 <= i < |s| && s[i] == ',' && NoComma(s[..i])
        ensures ReplaceFirstComma(s) == s[..i] + "." + s[i + 1..]
      {
        FirstCommaInTail(s, i);
      }
    }
  }

  lemma FirstCommaInTail(s: string, i: int)
    requires 0 <= i < |s| && s[i] == ',' && NoComma(s[..i]) && s[0] != ','
    requires forall k :: 0 <= k < |s[1..]| && s[1..][k] == ',' && NoComma(s[1..][..k]) ==>
      ReplaceFirstComma(s[1..]) == s[1..][..k] + "." + s[1..][k + 1..]
    ensures ReplaceFirstComma(s) == s[..i] + "." + s[i + 1..]
  {
    var t := s[1..];
    assert i > 0;
    assert t[i - 1] == ',';
    assert NoComma(t[..i - 1]) by {
      forall j | 0 <= j < i - 1
        ensures t[j] != ','
      {
        assert t[j] == s[..i][j + 1];
      }
    }
    assert ReplaceFirstComma(t) == t[..i - 1] + "." + t[i..];
    assert s[..i] == [s[0]] + t[..i - 1];
    assert t[i..] == s[i + 1..];
  }

  /** The strings the pattern `^\d*\.?\d*$` describes: digits, at most one '.', digits. */
  predicate IsAmount(s: string) {
    AllDigits(s) ||
    exists i :: 0 <= i < |s| && s[i] == '.' && AllDigits(s[..i]) && AllDigits(s[i + 1..])
  }

  /** The regular expression as a left-to-right scan with one bit of state: has the '.' been seen. */
  function Scan(s: string, seenDot: bool): bool
    decreases |s|
  {
    if s == [] then true
    else if IsDigit(s[0]) then Scan(s[1..], seenDot)
    else if s[0] == '.' && !seenDot then Scan(s[1..], true)
    else false
  }

  function MatchesAmount(s: string): bool {
    Scan(s, false)
  }

  lemma {:induction false} ScanAfterDot(s: string)
    ensures Scan(s, true) <==> AllDigits(s)
    decreases |s|
  {
    if s != [] {
      ScanAfterDot(s[1..]);
      assert AllDigits(s) <==> IsDigit(s[0]) && AllDigits(s[1..]);
    }
  }

  /** The scan accepts exactly the strings of the pattern. */
  lemma {:induction false} MatchesAmountIff(s: string)
    ensures MatchesAmount(s) <==> IsAmount(s)
    decreases |s|
  {
    if s != [] {
      if IsDigit(s[0]) {
        MatchesAmountIff(s[1..]);
        AmountAfterDigit(s);
      } else if s[0] == '.' {
        ScanAfterDot(s[1..]);
        AmountAfterDot(s);
      } else {
        AmountStartsWell(s);
      }
    }
  }

  /** A leading digit leaves the rest to be an amount of its own. */
  lemma AmountAfterDigit(s: string)
    requires s != [] && IsDigit(s[0])
    ensures IsAmount(s) <==> IsAmount(s[1..])
  {
    if IsAmount(s[1..]) {
      AmountConsDigit(s);
    }
    if IsAmount(s) {
      AmountTailOfDigit(s);
    }
  }

  lemma AmountConsDigit(s: string)
    requires s != [] && IsDigit(s[0]) && IsAmount(s[1..])
    ensures IsAmount(s)
  {
    var t := s[1..];
    if AllDigits(t) {
      assert forall j :: 0 < j < |s| ==> s[j] == t[j - 1];
      assert AllDigits(s);
    } else {
      var i :| 0 <= i < |t| && t[i] == '.' && AllDigits(t[..i]) && AllDigits(t[i + 1..]);
      assert s[..i + 1] == [s[0]] + t[..i];
      assert AllDigits(s[..i + 1]) by {
        forall j | 0 < j < i + 1
          ensures IsDigit(s[j])
        {
          assert s[j] == t[..i][j - 1];
        }
      }
      assert s[i + 2..] == t[i + 1..];
      assert s[i + 1] == '.';
    }
  }

  lemma AmountTailOfDigit(s: string)
    requires s != [] && IsDigit(s[0]) && IsAmount(s)
    ensures IsAmount(s[1..])
  {
    var t := s[1..];
    if AllDigits(s) {
      assert forall j :: 0 <= j < |t| ==> t[j] == s[j + 1];
      assert AllDigits(t);
    } else {
      var i :| 0 <= i < |s| && s[i] == '.' && AllDigits(s[..i]) && AllDigits(s[i + 1..]);
      assert i > 0;
      assert t[..i - 1] == s[1..i];
      assert AllDigits(t[..i - 1]) by {
        forall j | 0 <= j < i - 1
          ensures IsDigit(t[j])
        {
          assert t[j] == s[..i][j + 1];
        }
      }
      assert t[i..] == s[i + 1..];
      assert t[i - 1] == '.';
    }
  }

  /** A leading '.' leaves only digits to follow. */
  lemma AmountAfterDot(s: string)
    requires s != [] && s[0] == '.'
    ensures IsAmount(s) <==> AllDigits(s[1..])
  {
    assert s[..0] == [];
    if IsAmount(s) && !AllDigits(s) {
      var i :| 0 <= i < |s| && s[i] == '.' && AllDigits(s[..i]) && AllDigits(s[i + 1..]);
    }
  }

  /** An amount starts with a digit or the '.'. */
  lemma AmountStartsWell(s: string)
    requires s != [] && !IsDigit(s[0]) && s[0] != '.'
    ensures !IsAmount(s)
  {
  }

  /** handleAmountChange: the new amount, or the old one when the edited text does not match. */
  function HandleAmountChange(amount: string, input: string): (next: string)
    ensures next == amount || next == ReplaceFirstComma(input)
    ensures next == ReplaceFirstComma(input) <==> MatchesAmount(ReplaceFirstComma(input)) || amount == ReplaceFirstComma(input)
  {
    var value := ReplaceFirstComma(input);
    if MatchesAmount(value) then value else amount
  }

  /** Every amount the calculator holds is digits with at most one '.', and never contains a ','. */
  lemma AmountStaysNumeric(amount: string, input: string)
    requires IsAmount(amount)
    ensures IsAmount(HandleAmountChange(amount, input))
    ensures forall i :: 0 <= i < |HandleAmountChange(amount, input)| ==>
      HandleAmountChange(amount, input)[i] != ','
  {
    MatchesAmountIff(ReplaceFirstComma(input));
    NoCommaInAmount(HandleAmountChange(amount, input));
  }

  lemma NoCommaInAmount(s: string)
    requires IsAmount(s)
    ensures forall i :: 0 <= i < |s| ==> s[i] != ','
  {
    if !AllDigits(s) {
      var d :| 0 <= d < |s| && s[d] == '.' && AllDigits(s[..d]) && AllDigits(s[d + 1..]);
      forall i | 0 <= i < |s|
        ensures s[i] != ','
      {
        if i < d {
          assert s[i] == s[..d][i];
        } else if i > d {
          assert s[i] == s[d + 1..][i - d - 1];
        }
      }
    }
  }

  /** A decimal comma becomes a dot. */
  lemma CommaBecomesDot()
    ensures HandleAmountChange("", "12,5") == "12.5"
  {
    assert ReplaceFirstComma("12,5") == "12.5" by {
      assert "12,5"[1..] == "2,5" && "2,5"[1..] == ",5";
    }
    assert MatchesAmount("12.5") by {
      assert "12.5"[1..] == "2.5" && "2.5"[1..] == ".5" && ".5"[1..] == "5" && "5"[1..] == "";
    }
  }

  /** Only the first comma is replaced, so a second one leaves the amount unchanged. */
  lemma SecondCommaRefused()
    ensures HandleAmountChange("12.5", "12,5,") == "12.5"
  {
    ReplaceSecondComma();
    TrailingCommaRefused();
  }

  lemma ReplaceSecondComma()
    ensures ReplaceFirstComma("12,5,") == "12.5,"
  {
    assert "12,5,"[1..] == "2,5," && "2,5,"[1..] == ",5,";
  }

  lemma TrailingCommaRefused()
    ensures !MatchesAmount("12.5,")
  {
    assert "12.5,"[1..] == "2.5," && "2.5,"[1..] == ".5," && ".5,"[1..] == "5," && "5,"[1..] == ",";
  }

  /** A letter is refused. */
  lemma LetterRefused()
    ensures HandleAmountChange("7", "7a") == "7"
  {
    assert ReplaceFirstComma("7a") == "7a" by {
      assert "7a"[1..] == "a" && "a"[1..] == [];
    }
    assert !MatchesAmount("7a") by {
      assert "7a"[1..] == "a";
    }
  }

  // ---------------------------------------------------------------- conversion

  /** `rates.find(rate => rate.code === code)?.nbpRate || 1`: the first match's rate, or 1 when absent or zero. */
  function LookupRate(rates: seq<CalcRate>, code: string): (r: real)
    ensures r != 0.0
  {
    if rates == [] then 1.0
    else if rates[0].code == code then (if rates[0].nbpRate != 0.0 then rates[0].nbpRate else 1.0)
    else LookupRate(rates[1..], code)
  }

  /** The lookup answers with the first entry of the code, falling back to 1 for a missing code or a zero rate. */
  lemma {:induction false} LookupRateFirstMatch(rates: seq<CalcRate>, code: string)
    ensures (forall i :: 0 <= i < |rates| ==> rates[i].code != code) ==> LookupRate(rates, code) == 1.0
    ensures forall i :: 0 <= i < |rates| && rates[i].code == code && (forall j :: 0 <= j < i ==> rates[j].code != code) ==>
      LookupRate(rates, code) == (if rates[i].nbpRate != 0.0 then rates[i].nbpRate else 1.0)
  {
    if rates != [] && rates[0].code != code {
      LookupRateFirstMatch(rates[1..], code);
      assert forall i :: 0 < i < |rates| ==> rates[i] == rates[1..][i - 1];
    }
  }

  /** PLN is always listed, and converts at 1 unless the server already sent a PLN entry. */
  lemma PlnAlwaysListed(initial: seq<CalcRate>)
    ensures Pln.code in Codes(RatesOf(initial))
    ensures (forall i :: 0 <= i < |initial| ==> initial[i].code != Pln.code) ==>
      LookupRate(RatesOf(initial), Pln.code) == 1.0
  {
    var rates := RatesOf(initial);
    assert Codes(rates)[|initial|] == Pln.code;
    if forall i :: 0 <= i < |initial| ==> initial[i].code != Pln.code {
      assert forall j :: 0 <= j < |initial| ==> rates[j].code != Pln.code;
      LookupRateFirstMatch(rates, Pln.code);
    }
  }

  /** The decimal value of an amount: its leading digits, plus the digits after its '.' as a fraction. */
  function DecimalValue(s: string): real
    requires IsAmount(s)
  {
    var k := LeadingDigits(s, |s|);
    var whole := ValueOf(s[..k]) as real;
    if k == |s| then whole
    else
      AmountSplit(s);
      whole + (ValueOf(s[k + 1..]) as real) / (Pow10(|s| - k - 1) as real)
  }

  /** The digits of a non-integral amount stop at its '.', and digits follow it. */
  lemma AmountSplit(s: string)
    requires IsAmount(s)
    requires LeadingDigits(s, |s|) < |s|
    ensures s[LeadingDigits(s, |s|)] == '.'
    ensures AllDigits(s[LeadingDigits(s, |s|) + 1..])
  {
    var k := LeadingDigits(s, |s|);
    assert !IsDigit(s[k]);
    if AllDigits(s) {
      assert false;
    } else {
      var d :| 0 <= d < |s| && s[d] == '.' && AllDigits(s[..d]) && AllDigits(s[d + 1..]);
      FirstNonDigit(s, k, d);
    }
  }

  /** Two positions that each end a run of leading digits are the same position. */
  lemma FirstNonDigit(s: string, k: nat, d: nat)
    requires k < |s| && d < |s|
    requires AllDigits(s[..k]) && AllDigits(s[..d])
    requires !IsDigit(s[k]) && !IsDigit(s[d])
    ensures k == d
  {
  }

  /**
    `Number(amount)` on strings of the amount pattern: a string of digits with
    at most one '.' reads as its decimal value, except the lone "." which is
    NaN (None). Other strings, which JavaScript may still read as a number
    ("1e3", " 5", "-5"), are None here; the amount filter never stores them.
  */
  function NumberValue(s: string): Option<real> {
    if IsAmount(s) && s != "." then Some(DecimalValue(s)) else None
  }

  /** The converted amount, before `toFixed(2)`. */
  datatype Converted = Cleared | NotANumber | Value(x: real)

  datatype Pair = Pair(from: string, to: string)

  /** handleConversion: amount times the source rate over the target rate; nothing for an empty amount. */
  function Convert(rates: seq<CalcRate>, amount: string, p: Pair): (c: Converted)
    ensures c == Cleared <==> amount == ""
    ensures c.Value? <==> amount != "" && NumberValue(amount).Some?
    ensures c == NotANumber <==> amount != "" && NumberValue(amount).None?
    ensures c.Value? ==>
      (NumberValue(amount).Some? &&
       c.x * LookupRate(rates, p.to) == NumberValue(amount).value * LookupRate(rates, p.from))
  {
    if amount == "" then Cleared
    else match NumberValue(amount)
      case None => NotANumber
      case Some(a) => Value(Scaled(a, LookupRate(rates, p.from), LookupRate(rates, p.to)))
  }

  /** `(amount * fromRate) / toRate`. */
  function Scaled(a: real, from: real, to: real): (r: real)
    requires to != 0.0
    ensures r * to == a * from
  {
    Cancel(a * from, to);
    a * from / to
  }

  lemma Cancel(x: real, y: real)
    requires y != 0.0
    ensures x / y * y == x
  {
  }

  /** Converting a currency into itself gives the amount back. */
  lemma ConvertSameCurrency(rates: seq<CalcRate>, amount: string, code: string)
    requires Convert(rates, amount, Pair(code, code)).Value?
    ensures Convert(rates, amount, Pair(code, code)).x == NumberValue(amount).value
  {
    var r := LookupRate(rates, code);
    var x := Convert(rates, amount, Pair(code, code)).x;
    var a := NumberValue(amount).value;
    CancelFactor(x, a, r);
  }

  lemma CancelFactor(x: real, a: real, r: real)
    requires r != 0.0 && x * r == a * r
    ensures x == a
  {
  }

  /** getExchangeRateInfo: the quoted rate (before `toFixed(4)`) and its reverse, which multiply to one. */
  function ExchangeRateInfo(rates: seq<CalcRate>, p: Pair): (info: (real, real))
    ensures info.0 * info.1 == 1.0
    ensures info.0 * LookupRate(rates, p.to) == LookupRate(rates, p.from)
    ensures info.1 * LookupRate(rates, p.from) == LookupRate(rates, p.to)
  {
    var from, to := LookupRate(rates, p.from), LookupRate(rates, p.to);
    Reciprocal(from, to);
    Cancel(from, to);
    Cancel(to, from);
    (from / to, to / from)
  }

  lemma Reciprocal(x: real, y: real)
    requires x != 0.0 && y != 0.0
    ensures (x / y) * (y / x) == 1.0
  {
  }

  // ------------------------------------------------------------- currency pair

  const InitialPair := Pair("EUR", "PLN")

  predicate Distinct(p: Pair) {
    p.from != p.to
  }

  /** handleSwapCurrencies. */
  function Swap(p: Pair): Pair {
    Pair(p.to, p.from)
  }

  lemma SwapInvolutive(p: Pair)
    ensures Swap(Swap(p)) == p
    ensures Distinct(Swap(p)) <==> Distinct(p)
    ensures Swap(p).from == p.to && Swap(p).to == p.from
  {
  }

  /** Entry `i` is the first whose code differs from `code`. */
  predicate FirstOtherAt(rates: seq<CalcRate>, code: string, i: int) {
    0 <= i < |rates| && rates[i].code != code && forall j :: 0 <= j < i ==> rates[j].code == code
  }

  /** `rates.find(rate => rate.code !== code).code`; None where the find yields undefined and the handler throws. */
  function FirstOtherCode(rates: seq<CalcRate>, code: string): (r: Option<string>)
    ensures r.None? <==> forall i :: 0 <= i < |rates| ==> rates[i].code == code
    ensures r.Some? ==> r.value != code && r.value in Codes(rates)
    ensures r.Some? ==> exists i :: FirstOtherAt(rates, code, i) && rates[i].code == r.value
  {
    if rates == [] then None
    else if rates[0].code != code then
      assert FirstOtherAt(rates, code, 0);
      Some(rates[0].code)
    else
      var r := FirstOtherCode(rates[1..], code);
      assert forall i :: 0 < i < |rates| ==> rates[i] == rates[1..][i - 1];
      assert r.Some? ==> Codes(rates) == [rates[0].code] + Codes(rates[1..]);
      if r.Some? then
        FirstOtherShift(rates, code, r.value);
        r
      else r
  }

  /** A first differing entry of the tail is the first differing entry of a list whose head matches. */
  lemma FirstOtherShift(rates: seq<CalcRate>, code: string, v: string)
    requires rates != [] && rates[0].code == code
    requires exists i :: FirstOtherAt(rates[1..], code, i) && rates[1..][i].code == v
    ensures exists i :: FirstOtherAt(rates, code, i) && rates[i].code == v
  {
    var i :| FirstOtherAt(rates[1..], code, i) && rates[1..][i].code == v;
    forall j | 0 < j < i + 1
      ensures rates[j].code == code
    {
      assert rates[j] == rates[1..][j - 1];
    }
    assert FirstOtherAt(rates, code, i + 1);
  }

  /** The 'from' select's onChange: choosing the 'to' code moves 'to' to the first other code. */
  function SelectFrom(rates: seq<CalcRate>, p: Pair, code: string): (r: Option<Pair>)
    ensures r.Some? ==> r.value.from == code && Distinct(r.value)
    ensures code != p.to ==> r == Some(Pair(code, p.to))
    ensures r.None? <==> code == p.to && forall i :: 0 <= i < |rates| ==> rates[i].code == code
    ensures r.Some? && code == p.to ==> r.value.to in Codes(rates)
    ensures r.Some? && code == p.to ==> exists i :: FirstOtherAt(rates, code, i) && rates[i].code == r.value.to
  {
    if code != p.to then Some(Pair(code, p.to))
    else match FirstOtherCode(rates, code)
      case None => None
      case Some(other) => Some(Pair(code, other))
  }

  /** The 'to' select's onChange, symmetrically. */
  function SelectTo(rates: seq<CalcRate>, p: Pair, code: string): (r: Option<Pair>)
    ensures r.Some? ==> r.value.to == code && Distinct(r.value)
    ensures code != p.from ==> r == Some(Pair(p.from, code))
    ensures r.None? <==> code == p.from && forall i :: 0 <= i < |rates| ==> rates[i].code == code
    ensures r.Some? && code == p.from ==> r.value.from in Codes(rates)
    ensures r.Some? && code == p.from ==> exists i :: FirstOtherAt(rates, code, i) && rates[i].code == r.value.from
  {
    if code != p.from then Some(Pair(p.from, code))
    else match FirstOtherCode(rates, code)
      case None => None
      case Some(other) => Some(Pair(other, code))
  }

  /** With PLN always listed, a selection throws only when PLN is picked and the server sent no other code. */
  lemma SelectionSucceeds(initial: seq<CalcRate>, p: Pair, code: string)
    requires code != Pln.code || exists i :: 0 <= i < |initial| && initial[i].code != code
    ensures SelectFrom(RatesOf(initial), p, code).Some?
    ensures SelectTo(RatesOf(initial), p, code).Some?
  {
    var rates := RatesOf(initial);
    if code != Pln.code {
      assert rates[|initial|].code != code;
    } else {
      var i :| 0 <= i < |initial| && initial[i].code != code;
      assert rates[i].code != code;
    }
  }

  /** from ≠ to holds initially and after every transition. */
  lemma PairStaysDistinct(rates: seq<CalcRate>, p: Pair, code: string)
    requires Distinct(p)
    ensures Distinct(InitialPair)
    ensures Distinct(Swap(p))
    ensures SelectFrom(rates, p, code).Some? ==> Distinct(SelectFrom(rates, p, code).value)
    ensures SelectTo(rates, p, code).Some? ==> Distinct(SelectTo(rates, p, code).value)
  {
  }

  /** The options of a select: every listed code except the one chosen on the other side. */
  function OptionsExcept(rates: seq<CalcRate>, hidden: string): (opts: seq<string>)
    ensures forall x :: x in opts <==> x in Codes(rates) && x != hidden
    ensures |opts| <= |rates|
  {
    if rates == [] then []
    else
      var rest := OptionsExcept(rates[1..], hidden);
      assert Codes(rates) == [rates[0].code] + Codes(rates[1..]);
      if rates[0].code != hidden then [rates[0].code] + rest else rest
  }

  /**
    As `filter` does, the options keep the list's order and its repeats: they
    are the listed codes, in order, with every occurrence of the hidden one
    taken out.
  */
  lemma {:induction false} OptionsExceptFilters(rates: seq<CalcRate>, hidden: string)
    ensures IsSubsequence(OptionsExcept(rates, hidden), Codes(rates))
    ensures multiset(OptionsExcept(rates, hidden)) == multiset(Codes(rates))[hidden := 0]
  {
    if rates != [] {
      var c := rates[0].code;
      var tail := Codes(rates[1..]);
      var rest := OptionsExcept(rates[1..], hidden);
      OptionsExceptFilters(rates[1..], hidden);
      assert Codes(rates) == [c] + tail;
      assert Codes(rates)[1..] == tail;
      assert multiset(Codes(rates)) == multiset{c} + multiset(tail);
      if c != hidden {
        assert OptionsExcept(rates, hidden) == [c] + rest;
        assert ([c] + rest)[1..] == rest;
        assert multiset([c] + rest) == multiset{c} + multiset(rest);
        assert (multiset{c} + multiset(tail))[hidden := 0] == multiset{c} + multiset(tail)[hidden := 0];
      } else {
        assert OptionsExcept(rates, hidden) == rest;
        if rest != [] {
          assert rest[0] in rest;
        }
        assert (multiset{c} + multiset(tail))[hidden := 0] == multiset(tail)[hidden := 0];
      }
    }
  }

  /** The 'from' dropdown hides the 'to' code and the 'to' dropdown hides the 'from' code. */
  function FromOptions(rates: seq<CalcRate>, p: Pair): seq<string> {
    OptionsExcept(rates, p.to)
  }

  function ToOptions(rates: seq<CalcRate>, p: Pair): seq<string> {
    OptionsExcept(rates, p.from)
  }

  lemma OptionsOfPair(rates: seq<CalcRate>, p: Pair)
    requires Distinct(p)
    ensures p.to !in FromOptions(rates, p) && p.from !in ToOptions(rates, p)
    ensures p.from in Codes(rates) ==> p.from in FromOptions(rates, p)
    ensures p.to in Codes(rates) ==> p.to in ToOptions(rates, p)
  {
  }

  // ------------------------------------------------------------ whole component

  /** The user's actions on the calculator. */
  datatype Event = AmountInput(text: string) | SwapCurrencies | ChooseFrom(fromCode: string) | ChooseTo(toCode: string)

  datatype State = State(amount: string, pair: Pair)

  const InitialState := State("", InitialPair)

  predicate Consistent(st: State) {
    IsAmount(st.amount) && Distinct(st.pair)
  }

  /** One event; None where the handler throws because no other code exists. */
  function Step(rates: seq<CalcRate>, st: State, e: Event): (r: Option<State>)
    ensures e.AmountInput? || e.SwapCurrencies? ==> r.Some?
    ensures r.Some? && !e.AmountInput? ==> r.value.amount == st.amount
    ensures r.Some? && e.AmountInput? ==> r.value.pair == st.pair
  {
    match e
      case AmountInput(text) => Some(State(HandleAmountChange(st.amount, text), st.pair))
      case SwapCurrencies => Some(State(st.amount, Swap(st.pair)))
      case ChooseFrom(code) =>
        (match SelectFrom(rates, st.pair, code)
           case None => None
           case Some(q) => Some(State(st.amount, q)))
      case ChooseTo(code) =>
        (match SelectTo(rates, st.pair, code)
           case None => None
           case Some(q) => Some(State(st.amount, q)))
  }

  function Run(rates: seq<CalcRate>, st: State, events: seq<Event>): Option<State>
    decreases |events|
  {
    if events == [] then Some(st)
    else match Step(rates, st, events[0])
      case None => None
      case Some(next) => Run(rates, next, events[1..])
  }

  /** Whatever the user does, the amount stays numeric and the two currencies stay different. */
  lemma {:induction false} RunStaysConsistent(rates: seq<CalcRate>, st: State, events: seq<Event>)
    requires Consistent(st)
    ensures Consistent(InitialState)
    ensures Run(rates, st, events).Some? ==> Consistent(Run(rates, st, events).value)
    decreases |events|
  {
    if events != [] {
      var e := events[0];
      if e.AmountInput? {
        AmountStaysNumeric(st.amount, e.text);
      }
      match Step(rates, st, e)
        case None =>
        case Some(next) => RunStaysConsistent(rates, next, events[1..]);
    }
  }
}
