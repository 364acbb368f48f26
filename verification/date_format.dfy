/**
  The date validator of ValidationHelper: a string is a valid date under a
  format when PHP's DateTime::createFromFormat parses it and formatting the
  resulting DateTime with the same format gives the string back.

  A format is a sequence of tokens: the letters `Y` (year), `m` (month) and
  `d` (day), and literal characters that must appear as written. Parsing reads
  each numeric field greedily (up to 4 digits for `Y`, 2 for `m` and `d`),
  then normalises out-of-range months and days the way DateTime does
  (2024-02-30 becomes 2024-03-01). Formatting writes `Y` as at least four
  digits (with a leading '-' before year 0) and `m`, `d` as two.
*/
module DateFormat {
  import opened Results
  import opened Calendar
  import opened Decimal

  datatype Token = Year | Month | Day | Literal(c: char)

  /** The two formats the application uses: 'Y-m-d' (the default) and 'd-m-Y'. */
  datatype Format = Ymd | Dmy

  function Tokens(f: Format): seq<Token> {
    match f
    case Ymd => [Year, Literal('-'), Month, Literal('-'), Day]
    case Dmy => [Day, Literal('-'), Month, Literal('-'), Year]
  }

  /** The most characters a token consumes when parsing. */
  function Width(t: Token): nat {
    match t
    case Year => 4
    case Month => 2
    case Day => 2
    case Literal(_) => 1
  }

  function MaxLength(fmt: seq<Token>): nat {
    if fmt == [] then 0 else Width(fmt[0]) + MaxLength(fmt[1..])
  }

  /** Dates whose year the `Y` format letter writes in exactly four digits. */
  predicate FourDigitYear(d: Date) {
    0 <= d.year <= 9999
  }

  // ---------------------------------------------------------------- formatting

  function RenderYear(y: int): string {
    if y < 0 then "-" + Pad(-y, 4) else Pad(y, 4)
  }

  function RenderToken(t: Token, d: Date): string
    requires Valid(d)
  {
    match t
    case Year => RenderYear(d.year)
    case Month => Pad(d.month, 2)
    case Day => Pad(d.day, 2)
    case Literal(c) => [c]
  }

  /** DateTime::format. */
  function Render(fmt: seq<Token>, d: Date): string
    requires Valid(d)
  {
    if fmt == [] then [] else RenderToken(fmt[0], d) + Render(fmt[1..], d)
  }

  /** The Y-m-d rendering the service and the controller use for dates. */
  function FormatYmd(d: Date): string
    requires Valid(d)
  {
    Render(Tokens(Ymd), d)
  }

  // ------------------------------------------------------------------- parsing

  /** The raw numbers a parse collects, before normalisation. */
  datatype Fields = Fields(year: int, month: int, day: int)

  /** The fields before any token has been read; both formats overwrite all three. */
  const Unset := Fields(0, 0, 0)

  function Store(acc: Fields, t: Token, v: int): Fields {
    match t
    case Year => acc.(year := v)
    case Month => acc.(month := v)
    case Day => acc.(day := v)
    case Literal(_) => acc
  }

  /**
    The parsing half of DateTime::createFromFormat: None when a field has no
    digit, a literal is missing, or characters are left over.
  */
  function ParseTokens(fmt: seq<Token>, s: string, acc: Fields): Option<Fields>
    decreases fmt
  {
    if fmt == [] then
      (if s == [] then Some(acc) else None)
    else match fmt[0]
      case Literal(c) =>
        if s != [] && s[0] == c then ParseTokens(fmt[1..], s[1..], acc) else None
      case _ =>
        var k := LeadingDigits(s, Width(fmt[0]));
        if k == 0 then None
        else ParseTokens(fmt[1..], s[k..], Store(acc, fmt[0], ValueOf(s[..k])))
  }

  // ------------------------------------------------------------- normalisation

  /** Carries a day past the end of its month into the following months. */
  function Forward(y: int, m: int, d: int): (r: Date)
    requires 1 <= m <= 12 && 1 <= d
    ensures Valid(r)
    decreases d
  {
    if d <= DaysInMonth(y, m) then Date(y, m, d)
    else if m == 12 then Forward(y + 1, 1, d - 31)
    else Forward(y, m + 1, d - DaysInMonth(y, m))
  }

  /** Borrows a day at or before 0 from the preceding months. */
  function Backward(y: int, m: int, d: int): (r: Date)
    requires 1 <= m <= 12 && d < 1
    ensures Valid(r)
    decreases -d
  {
    var py := if m == 1 then y - 1 else y;
    var pm := if m == 1 then 12 else m - 1;
    var d' := d + DaysInMonth(py, pm);
    if 1 <= d' then Date(py, pm, d') else Backward(py, pm, d')
  }

  /**
    DateTime's normalisation of parsed fields: a month outside 1..12 moves the
    year, then a day outside its month moves the month.
  */
  function Normalise(f: Fields): (r: Date)
    ensures Valid(r)
    ensures Valid(Date(f.year, f.month, f.day)) ==> r == Date(f.year, f.month, f.day)
  {
    var y := f.year + (f.month - 1) / 12;
    var m := (f.month - 1) % 12 + 1;
    if 1 <= f.day then Forward(y, m, f.day) else Backward(y, m, f.day)
  }

  /** DateTime::createFromFormat: false (None) on a parse error, else the normalised date. */
  function CreateFromFormat(f: Format, s: string): Option<Date> {
    match ParseTokens(Tokens(f), s, Unset)
    case None => None
    case Some(fields) => Some(Normalise(fields))
  }

  /** ValidationHelper::validateDate. */
  predicate ValidateDate(s: string, f: Format) {
    match CreateFromFormat(f, s)
    case None => false
    case Some(d) => Render(Tokens(f), d) == s
  }

  /** `$date->modify('-1 day')`: subtract one from the day and normalise. */
  lemma ModifyMinusOneDay(d: Date)
    requires Valid(d)
    ensures Normalise(Fields(d.year, d.month, d.day - 1)) == Pred(d)
  {
  }

  // ------------------------------------------------------------------- lemmas

  lemma RenderTokenLength(t: Token, d: Date)
    requires Valid(d)
    ensures Width(t) <= |RenderToken(t, d)|
    ensures t == Year && !FourDigitYear(d) ==> Width(t) < |RenderToken(t, d)|
  {
    match t
    case Year =>
      if d.year < 0 {
        PadLength(-d.year, 4);
      } else {
        PadLength(d.year, 4);
      }
    case Month => PadLength(d.month, 2);
    case Day => PadLength(d.day, 2);
    case Literal(_) =>
  }

  /** A rendering is never shorter than the longest parsable input, and longer when the year overflows. */
  lemma {:induction false} RenderLength(fmt: seq<Token>, d: Date)
    requires Valid(d)
    ensures MaxLength(fmt) <= |Render(fmt, d)|
    ensures Year in fmt && !FourDigitYear(d) ==> MaxLength(fmt) < |Render(fmt, d)|
  {
    if fmt != [] {
      RenderTokenLength(fmt[0], d);
      RenderLength(fmt[1..], d);
      assert Year in fmt ==> fmt[0] == Year || Year in fmt[1..];
    }
  }

  /** Whatever parses is no longer than the format's widest input. */
  lemma {:induction false} ParsedLength(fmt: seq<Token>, s: string, acc: Fields)
    requires ParseTokens(fmt, s, acc).Some?
    ensures |s| <= MaxLength(fmt)
    decreases fmt
  {
    if fmt != [] {
      match fmt[0]
      case Literal(c) =>
        ParsedLength(fmt[1..], s[1..], acc);
      case _ =>
        var k := LeadingDigits(s, Width(fmt[0]));
        ParsedLength(fmt[1..], s[k..], Store(acc, fmt[0], ValueOf(s[..k])));
    }
  }

  /** The parser reads every field of a rendered four-digit-year date back exactly. */
  lemma {:induction false} ParseRendered(fmt: seq<Token>, d: Date, acc: Fields)
    requires Valid(d) && FourDigitYear(d)
    ensures ParseTokens(fmt, Render(fmt, d), acc) == Some(Fields(
      if Year in fmt then d.year else acc.year,
      if Month in fmt then d.month else acc.month,
      if Day in fmt then d.day else acc.day))
    decreases fmt
  {
    if fmt != [] {
      var t := fmt[0];
      var s := Render(fmt, d);
      var rest := Render(fmt[1..], d);
      assert s == RenderToken(t, d) + rest;
      assert fmt == [t] + fmt[1..];
      match t
      case Literal(c) =>
        assert s[1..] == rest;
        ParseRendered(fmt[1..], d, acc);
      case _ =>
        var v := match t case Year => d.year case Month => d.month case Day => d.day case _ => 0;
        assert 0 <= v < Pow10(Width(t)) by {
          assert Pow10(2) == 100;
          assert Pow10(4) == 10000;
        }
        var a := RenderToken(t, d);
        assert a == Pad(v, Width(t));
        PadRoundTrip(v, Width(t));
        LeadingDigitsOfField(a, rest, Width(t));
        assert s[..Width(t)] == a;
        assert s[Width(t)..] == rest;
        ParseRendered(fmt[1..], d, Store(acc, t, v));
    }
  }

  lemma RenderedParsesBack(f: Format, d: Date)
    requires Valid(d) && FourDigitYear(d)
    ensures ParseTokens(Tokens(f), Render(Tokens(f), d), Unset) == Some(Fields(d.year, d.month, d.day))
  {
    ParseRendered(Tokens(f), d, Unset);
  }

  /** Round trip, first half: every real date with a four-digit year renders to a valid string. */
  lemma RenderedDateIsValid(f: Format, d: Date)
    requires Valid(d) && FourDigitYear(d)
    ensures ValidateDate(Render(Tokens(f), d), f)
    ensures CreateFromFormat(f, Render(Tokens(f), d)) == Some(d)
  {
    RenderedParsesBack(f, d);
  }

  /** Round trip, second half: the date a valid string parses to is real, has a four-digit year, and renders back to that string. */
  lemma ValidStringRoundTrip(s: string, f: Format)
    requires ValidateDate(s, f)
    ensures CreateFromFormat(f, s).Some?
    ensures Valid(CreateFromFormat(f, s).value) && FourDigitYear(CreateFromFormat(f, s).value)
    ensures Render(Tokens(f), CreateFromFormat(f, s).value) == s
  {
    var d := CreateFromFormat(f, s).value;
    ParsedLength(Tokens(f), s, Unset);
    RenderLength(Tokens(f), d);
    assert Year in Tokens(f) by {
      assert Tokens(f)[if f == Ymd then 0 else 4] == Year;
    }
  }

  /** Two real dates with four-digit years never render to the same string. */
  lemma RenderInjective(f: Format, a: Date, b: Date)
    requires Valid(a) && FourDigitYear(a)
    requires Valid(b) && FourDigitYear(b)
    requires Render(Tokens(f), a) == Render(Tokens(f), b)
    ensures a == b
  {
    RenderedParsesBack(f, a);
    RenderedParsesBack(f, b);
  }

  /**
    validateDate accepts exactly the renderings of real dates with four-digit
    years, and each accepted string renders exactly one such date.
  */
  lemma ValidateDateIff(s: string, f: Format)
    ensures ValidateDate(s, f) <==>
      exists d :: Valid(d) && FourDigitYear(d) && s == Render(Tokens(f), d)
    ensures forall a, b ::
      (Valid(a) && FourDigitYear(a) && s == Render(Tokens(f), a) &&
       Valid(b) && FourDigitYear(b) && s == Render(Tokens(f), b)) ==> a == b
  {
    if ValidateDate(s, f) {
      ValidStringRoundTrip(s, f);
      var d := CreateFromFormat(f, s).value;
      assert Valid(d) && FourDigitYear(d) && s == Render(Tokens(f), d);
    }
    forall d | Valid(d) && FourDigitYear(d) && s == Render(Tokens(f), d)
      ensures ValidateDate(s, f)
    {
      RenderedDateIsValid(f, d);
    }
    forall a, b |
      Valid(a) && FourDigitYear(a) && s == Render(Tokens(f), a) &&
      Valid(b) && FourDigitYear(b) && s == Render(Tokens(f), b)
      ensures a == b
    {
      RenderInjective(f, a, b);
    }
  }

  // ---------------------------------------------------------- worked examples

  /** Both formats are three fields separated by '-'. */
  lemma RenderShape(f: Format, d: Date)
    requires Valid(d)
    ensures Render(Tokens(f), d) ==
      RenderToken(Tokens(f)[0], d) + "-" + RenderToken(Tokens(f)[2], d) + "-" + RenderToken(Tokens(f)[4], d)
  {
    var t := Tokens(f);
    var a, b, c := RenderToken(t[0], d), RenderToken(t[2], d), RenderToken(t[4], d);
    assert Render(t[4..], d) == c by {
      assert t[4..][1..] == [];
    }
    assert Render(t[3..], d) == "-" + c by {
      assert t[3..][1..] == t[4..];
    }
    assert Render(t[2..], d) == b + ("-" + c) by {
      assert t[2..][1..] == t[3..];
    }
    assert Render(t[1..], d) == "-" + (b + ("-" + c)) by {
      assert t[1..][1..] == t[2..];
    }
    assert a + ("-" + (b + ("-" + c))) == a + "-" + b + "-" + c;
  }

  /** A Y-m-d rendering of a four-digit year, character by character. */
  lemma RenderYmdChars(d: Date)
    requires Valid(d) && FourDigitYear(d)
    ensures Render(Tokens(Ymd), d) ==
      [DigitChar(d.year / 1000), DigitChar(d.year / 100 % 10), DigitChar(d.year / 10 % 10), DigitChar(d.year % 10), '-',
       DigitChar(d.month / 10), DigitChar(d.month % 10), '-', DigitChar(d.day / 10), DigitChar(d.day % 10)]
  {
    RenderShape(Ymd, d);
    PadFour(d.year);
    PadTwo(d.month);
    PadTwo(d.day);
  }

  /** A d-m-Y rendering of a four-digit year, character by character. */
  lemma RenderDmyChars(d: Date)
    requires Valid(d) && FourDigitYear(d)
    ensures Render(Tokens(Dmy), d) ==
      [DigitChar(d.day / 10), DigitChar(d.day % 10), '-', DigitChar(d.month / 10), DigitChar(d.month % 10), '-',
       DigitChar(d.year / 1000), DigitChar(d.year / 100 % 10), DigitChar(d.year / 10 % 10), DigitChar(d.year % 10)]
  {
    RenderShape(Dmy, d);
    PadFour(d.year);
    PadTwo(d.month);
    PadTwo(d.day);
  }

  /** Two digits, tens first. */
  lemma PadTwo(n: nat)
    requires n < 100
    ensures Pad(n, 2) == [DigitChar(n / 10), DigitChar(n % 10)]
  {
    assert Pow10(2) == 100;
    assert FixedDigits(n / 10, 1) == [DigitChar(n / 10)] by {
      assert FixedDigits(n / 10 / 10, 0) == [];
    }
  }

  /** Four digits, thousands first. */
  lemma PadFour(n: nat)
    requires n < 10000
    ensures Pad(n, 4) == [DigitChar(n / 1000), DigitChar(n / 100 % 10), DigitChar(n / 10 % 10), DigitChar(n % 10)]
  {
    assert Pow10(4) == 10000 by {
      assert Pow10(2) == 100;
    }
    var h := n / 100;
    assert FixedDigits(h, 2) == [DigitChar(h / 10), DigitChar(h % 10)] by {
      assert FixedDigits(h / 10 / 10, 0) == [];
    }
    assert FixedDigits(n / 10, 3) == FixedDigits(h, 2) + [DigitChar(n / 10 % 10)];
    assert h / 10 == n / 1000 && h % 10 == n / 100 % 10;
  }

  lemma ParseFieldStep(fmt: seq<Token>, a: string, rest: string, acc: Fields)
    requires fmt != [] && !fmt[0].Literal?
    requires AllDigits(a) && |a| == Width(fmt[0])
    ensures ParseTokens(fmt, a + rest, acc) == ParseTokens(fmt[1..], rest, Store(acc, fmt[0], ValueOf(a)))
  {
    LeadingDigitsOfField(a, rest, |a|);
    assert (a + rest)[..|a|] == a && (a + rest)[|a|..] == rest;
  }

  lemma ParseLiteralStep(fmt: seq<Token>, c: char, rest: string, acc: Fields)
    requires fmt != [] && fmt[0] == Literal(c)
    ensures ParseTokens(fmt, [c] + rest, acc) == ParseTokens(fmt[1..], rest, acc)
  {
    assert ([c] + rest)[1..] == rest;
  }

  /** The last three tokens: month, '-', and a final field. */
  lemma ParseTail(t: seq<Token>, b: string, c: string, acc: Fields)
    requires |t| == 3 && t[0] == Month && t[1] == Literal('-') && !t[2].Literal?
    requires AllDigits(b) && |b| == 2
    requires AllDigits(c) && |c| == Width(t[2])
    ensures ParseTokens(t, b + ("-" + c), acc) == Some(Store(Store(acc, Month, ValueOf(b)), t[2], ValueOf(c)))
  {
    var t1, t2 := t[1..], t[2..];
    assert t[1..] == t1 && t1[1..] == t2 && t2[1..] == [];
    var B := Store(acc, Month, ValueOf(b));
    ParseFieldStep(t2, c, [], B);
    assert c + [] == c;
    ParseLiteralStep(t1, '-', c, B);
    ParseFieldStep(t, b, "-" + c, acc);
  }

  /** Three full-width digit fields separated by '-' parse to their values. */
  lemma ParseShape(f: Format, a: string, b: string, c: string)
    requires AllDigits(a) && |a| == Width(Tokens(f)[0])
    requires AllDigits(b) && |b| == 2
    requires AllDigits(c) && |c| == Width(Tokens(f)[4])
    ensures ParseTokens(Tokens(f), a + "-" + b + "-" + c, Unset) ==
      Some(Store(Store(Store(Unset, Tokens(f)[0], ValueOf(a)), Month, ValueOf(b)), Tokens(f)[4], ValueOf(c)))
  {
    var t := Tokens(f);
    var t1, t2 := t[1..], t[2..];
    assert t[1..] == t1 && t1[1..] == t2 && t2[2] == t[4];
    var A := Store(Unset, t[0], ValueOf(a));
    ParseTail(t2, b, c, A);
    ParseLiteralStep(t1, '-', b + ("-" + c), A);
    ParseFieldStep(t, a, "-" + (b + ("-" + c)), Unset);
    assert a + "-" + b + "-" + c == a + ("-" + (b + ("-" + c)));
  }

  lemma RenderAugustSixth(d: Date)
    requires d == Date(2024, 8, 6)
    ensures Valid(d) && Render(Tokens(Ymd), d) == "2024-08-06"
  {
    RenderYmdChars(d);
    assert d.year / 1000 == 2 && d.year / 100 % 10 == 0 && d.year / 10 % 10 == 2 && d.year % 10 == 4;
    assert d.month / 10 == 0 && d.month % 10 == 8 && d.day / 10 == 0 && d.day % 10 == 6;
    CharsOfAugustSixth();
  }

  lemma CharsOfAugustSixth()
    ensures [DigitChar(2), DigitChar(0), DigitChar(2), DigitChar(4), '-', DigitChar(0), DigitChar(8), '-',
             DigitChar(0), DigitChar(6)] == "2024-08-06"
    ensures [DigitChar(0), DigitChar(6), '-', DigitChar(0), DigitChar(8), '-',
             DigitChar(2), DigitChar(0), DigitChar(2), DigitChar(4)] == "06-08-2024"
  {
    DigitChars();
  }

  lemma RenderAugustSixthDayFirst(d: Date)
    requires d == Date(2024, 8, 6)
    ensures Valid(d) && Render(Tokens(Dmy), d) == "06-08-2024"
  {
    RenderDmyChars(d);
    assert d.year / 1000 == 2 && d.year / 100 % 10 == 0 && d.year / 10 % 10 == 2 && d.year % 10 == 4;
    assert d.month / 10 == 0 && d.month % 10 == 8 && d.day / 10 == 0 && d.day % 10 == 6;
    CharsOfAugustSixth();
  }

  lemma DigitChars()
    ensures DigitChar(0) == '0' && DigitChar(1) == '1' && DigitChar(2) == '2' && DigitChar(3) == '3' && DigitChar(4) == '4'
    ensures DigitChar(5) == '5' && DigitChar(6) == '6' && DigitChar(7) == '7' && DigitChar(8) == '8' && DigitChar(9) == '9'
  {
  }

  lemma RenderNewYear()
    ensures Render(Tokens(Ymd), Date(2023, 1, 1)) == "2023-01-01"
  {
    RenderYmdChars(Date(2023, 1, 1));
  }

  /** The dates the validator's test suite accepts, in both formats. */
  lemma AcceptsAugustSixth()
    ensures ValidateDate("2024-08-06", Ymd)
  {
    RenderAugustSixth(Date(2024, 8, 6));
    RenderedDateIsValid(Ymd, Date(2024, 8, 6));
  }

  lemma AcceptsNewYear()
    ensures ValidateDate("2023-01-01", Ymd)
  {
    RenderNewYear();
    RenderedDateIsValid(Ymd, Date(2023, 1, 1));
  }

  lemma AcceptsDayFirst()
    ensures ValidateDate("06-08-2024", Dmy)
  {
    RenderAugustSixthDayFirst(Date(2024, 8, 6));
    RenderedDateIsValid(Dmy, Date(2024, 8, 6));
  }

  lemma ParseImpossibleDay()
    ensures ParseTokens(Tokens(Ymd), "2024-02-30", Unset) == Some(Fields(2024, 2, 30))
  {
    DigitValues();
    ParseShape(Ymd, "2024", "02", "30");
    assert "2024" + "-" + "02" + "-" + "30" == "2024-02-30";
  }

  lemma RenderMarchFirst()
    ensures Render(Tokens(Ymd), Date(2024, 3, 1)) == "2024-03-01"
  {
    RenderYmdChars(Date(2024, 3, 1));
  }

  lemma NormaliseFebruaryThirtieth()
    ensures Normalise(Fields(2024, 2, 30)) == Date(2024, 3, 1)
  {
  }

  /** February 30th parses, normalises to March 1st, and so fails the round trip. */
  lemma RejectsImpossibleDay()
    ensures CreateFromFormat(Ymd, "2024-02-30") == Some(Date(2024, 3, 1))
    ensures !ValidateDate("2024-02-30", Ymd)
  {
    ParseImpossibleDay();
    NormaliseFebruaryThirtieth();
    RenderMarchFirst();
  }

  /** Month 13 rolls over into January of the next year. */
  lemma RejectsMonthThirteen()
    ensures CreateFromFormat(Ymd, "2024-13-01") == Some(Date(2025, 1, 1))
    ensures !ValidateDate("2024-13-01", Ymd)
  {
    ParseMonthThirteen();
    NormaliseMonthThirteen();
    RenderNextNewYear();
  }

  lemma ParseMonthThirteen()
    ensures ParseTokens(Tokens(Ymd), "2024-13-01", Unset) == Some(Fields(2024, 13, 1))
  {
    DigitValues();
    ParseShape(Ymd, "2024", "13", "01");
    assert "2024" + "-" + "13" + "-" + "01" == "2024-13-01";
  }

  lemma NormaliseMonthThirteen()
    ensures Normalise(Fields(2024, 13, 1)) == Date(2025, 1, 1)
  {
  }

  lemma RenderNextNewYear()
    ensures Render(Tokens(Ymd), Date(2025, 1, 1)) == "2025-01-01"
  {
    RenderYmdChars(Date(2025, 1, 1));
  }

  lemma DigitValues()
    ensures ValueOf("2024") == 2024
    ensures ValueOf("02") == 2 && ValueOf("30") == 30
    ensures ValueOf("13") == 13 && ValueOf("01") == 1
  {
    assert "2024"[..3] == "202" && "202"[..2] == "20" && "20"[..1] == "2" && "2"[..0] == "";
    assert "02"[..1] == "0" && "0"[..0] == "";
    assert "30"[..1] == "3" && "3"[..0] == "";
    assert "13"[..1] == "1" && "1"[..0] == "";
    assert "01"[..1] == "0";
  }

  lemma RejectsText()
    ensures CreateFromFormat(Ymd, "not-a-date") == None
    ensures !ValidateDate("not-a-date", Ymd)
  {
    assert LeadingDigits("not-a-date", 4) == 0;
  }

  /** Under 'd-m-Y' the day field takes "20" and the '-' it then expects is missing. */
  lemma RejectsWrongOrder()
    ensures CreateFromFormat(Dmy, "2024-08-06") == None
    ensures !ValidateDate("2024-08-06", Dmy)
  {
    ParseWrongOrder();
  }

  lemma ParseWrongOrder()
    ensures ParseTokens(Tokens(Dmy), "2024-08-06", Unset) == None
  {
    var t := Tokens(Dmy);
    assert "2024-08-06" == "20" + "24-08-06";
    ParseFieldStep(t, "20", "24-08-06", Unset);
    assert t[1..][0] == Literal('-');
  }
}
