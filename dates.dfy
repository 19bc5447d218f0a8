/** Gregorian calendar dates as `datetime` handles them in `delay_date`:
    `strptime(s, '%Y-%m-%d')`, `- timedelta(days=1)`, `strftime('%Y-%m-%d')`.
    Dates are the calendar-date extended format of ISO 8601 (YYYY-MM-DD),
    years 1 to 9999 as Python's `datetime.MINYEAR`/`MAXYEAR`. */
module Dates {
  import opened Text
  import opened Wrappers

  datatype Date = Date(year: int, month: int, day: int)

  /** Why a date string cannot be moved back one day. */
  datatype DateError =
    | Unparsable      // `strptime` raises ValueError
    | OutOfRange      // `date - timedelta` raises OverflowError before year 1

  datatype DateResult = Shifted(text: string) | Failed(error: DateError)

  const MinYear: int := 1
  const MaxYear: int := 9999

  predicate IsLeap(y: int) {
    y % 4 == 0 && (y % 100 != 0 || y % 400 == 0)
  }

  function DaysInMonth(y: int, m: int): (n: int)
    requires 1 <= m <= 12
    ensures 28 <= n <= 31
  {
    if m == 2 then (if IsLeap(y) then 29 else 28)
    else if m == 4 || m == 6 || m == 9 || m == 11 then 30
    else 31
  }

  function DaysInYear(y: int): int {
    if IsLeap(y) then 366 else 365
  }

  predicate Valid(d: Date) {
    MinYear <= d.year <= MaxYear && 1 <= d.month <= 12 && 1 <= d.day <= DaysInMonth(d.year, d.month)
  }

  /** Chronological order: year, then month, then day. */
  predicate Before(a: Date, b: Date) {
    a.year < b.year
    || (a.year == b.year && a.month < b.month)
    || (a.year == b.year && a.month == b.month && a.day < b.day)
  }

  // ---------------------------------------------------------------------------
  // Day numbers: the proleptic Gregorian ordinal, 0001-01-01 being day 1, as
  // Python's date.toordinal(); subtracting a timedelta is defined on it.

  function DaysBeforeYear(y: int): nat
    requires y >= MinYear
  {
    if y == MinYear then 0 else DaysBeforeYear(y - 1) + DaysInYear(y - 1)
  }

  function DaysBeforeMonth(y: int, m: int): nat
    requires 1 <= m <= 13
  {
    if m == 1 then 0 else DaysBeforeMonth(y, m - 1) + DaysInMonth(y, m - 1)
  }

  function Ordinal(d: Date): int
    requires Valid(d)
  {
    DaysBeforeYear(d.year) + DaysBeforeMonth(d.year, d.month) + d.day
  }

  lemma MonthsFillYear(y: int)
    ensures DaysBeforeMonth(y, 13) == DaysInYear(y)
  {
    assert DaysBeforeMonth(y, 2) == DaysBeforeMonth(y, 1) + DaysInMonth(y, 1);
    assert DaysBeforeMonth(y, 3) == DaysBeforeMonth(y, 2) + DaysInMonth(y, 2);
    assert DaysBeforeMonth(y, 4) == DaysBeforeMonth(y, 3) + DaysInMonth(y, 3);
    assert DaysBeforeMonth(y, 5) == DaysBeforeMonth(y, 4) + DaysInMonth(y, 4);
    assert DaysBeforeMonth(y, 6) == DaysBeforeMonth(y, 5) + DaysInMonth(y, 5);
    assert DaysBeforeMonth(y, 7) == DaysBeforeMonth(y, 6) + DaysInMonth(y, 6);
    assert DaysBeforeMonth(y, 8) == DaysBeforeMonth(y, 7) + DaysInMonth(y, 7);
    assert DaysBeforeMonth(y, 9) == DaysBeforeMonth(y, 8) + DaysInMonth(y, 8);
    assert DaysBeforeMonth(y, 10) == DaysBeforeMonth(y, 9) + DaysInMonth(y, 9);
    assert DaysBeforeMonth(y, 11) == DaysBeforeMonth(y, 10) + DaysInMonth(y, 10);
    assert DaysBeforeMonth(y, 12) == DaysBeforeMonth(y, 11) + DaysInMonth(y, 11);
    assert DaysBeforeMonth(y, 13) == DaysBeforeMonth(y, 12) + DaysInMonth(y, 12);
  }

  lemma {:induction false} DaysBeforeMonthGrows(y: int, m: int, n: int)
    requires 1 <= m <= n <= 13
    ensures DaysBeforeMonth(y, m) <= DaysBeforeMonth(y, n)
    ensures m < n ==> DaysBeforeMonth(y, m) + DaysInMonth(y, m) <= DaysBeforeMonth(y, n)
    decreases n - m
  {
    if m < n {
      DaysBeforeMonthGrows(y, m, n - 1);
    }
  }

  lemma {:induction false} DaysBeforeYearGrows(y: int, z: int)
    requires MinYear <= y < z
    ensures DaysBeforeYear(y) + DaysInYear(y) <= DaysBeforeYear(z)
    decreases z - y
  {
    if y + 1 < z {
      DaysBeforeYearGrows(y, z - 1);
    }
  }

  /** A valid date's day lies inside its year's block of day numbers. */
  lemma OrdinalWithinYear(d: Date)
    requires Valid(d)
    ensures DaysBeforeYear(d.year) < Ordinal(d) <= DaysBeforeYear(d.year) + DaysInYear(d.year)
  {
    DaysBeforeMonthGrows(d.year, d.month, 13);
    MonthsFillYear(d.year);
  }

  /** Day numbers follow chronological order, so distinct valid dates have
      distinct day numbers. */
  lemma OrdinalOrder(a: Date, b: Date)
    requires Valid(a) && Valid(b)
    ensures Before(a, b) <==> Ordinal(a) < Ordinal(b)
    ensures a == b <==> Ordinal(a) == Ordinal(b)
  {
    OrdinalWithinYear(a);
    OrdinalWithinYear(b);
    if a.year < b.year {
      DaysBeforeYearGrows(a.year, b.year);
    } else if b.year < a.year {
      DaysBeforeYearGrows(b.year, a.year);
    } else if a.month < b.month {
      DaysBeforeMonthGrows(a.year, a.month, b.month);
    } else if b.month < a.month {
      DaysBeforeMonthGrows(a.year, b.month, a.month);
    }
  }

  // ---------------------------------------------------------------------------
  // The day before.

  /** `d - timedelta(days=1)`; None where Python raises OverflowError. */
  function PrevDay(d: Date): (r: Option<Date>)
    requires Valid(d)
    ensures r.Some? <==> d != Date(MinYear, 1, 1)
  {
    if d.day > 1 then Some(Date(d.year, d.month, d.day - 1))
    else if d.month > 1 then Some(Date(d.year, d.month - 1, DaysInMonth(d.year, d.month - 1)))
    else if d.year > MinYear then Some(Date(d.year - 1, 12, 31))
    else None
  }

  /** PrevDay is the calendar predecessor: a valid date whose day number is one
      less, across month ends, year ends and 29 February. */
  lemma {:induction false} PrevDayIsPredecessor(d: Date)
    requires Valid(d) && d != Date(MinYear, 1, 1)
    ensures Valid(PrevDay(d).value)
    ensures Ordinal(PrevDay(d).value) == Ordinal(d) - 1
  {
    var p := PrevDay(d).value;
    if d.day == 1 && d.month == 1 {
      MonthsFillYear(p.year);
      assert DaysBeforeMonth(p.year, 12) + 31 == DaysInYear(p.year);
    }
  }

  /** ... and the only one: any valid date one day number earlier is PrevDay(d). */
  lemma PrevDayUnique(d: Date, e: Date)
    requires Valid(d) && Valid(e) && Ordinal(e) == Ordinal(d) - 1
    ensures PrevDay(d) == Some(e)
  {
    OrdinalWithinYear(d);
    if d == Date(MinYear, 1, 1) {
      OrdinalWithinYear(e);
      assert false;
    }
    PrevDayIsPredecessor(d);
    OrdinalOrder(e, PrevDay(d).value);
  }

  // ---------------------------------------------------------------------------
  // Text form YYYY-MM-DD.

  function Render(d: Date): (s: string)
    requires Valid(d)
    ensures |s| == 10
  {
    Pad(d.year, 4) + "-" + Pad(d.month, 2) + "-" + Pad(d.day, 2)
  }

  predicate WellShaped(s: string) {
    |s| == 10 && s[4] == '-' && s[7] == '-'
    && AllDigits(s[..4]) && AllDigits(s[5..7]) && AllDigits(s[8..])
  }

  /** `strptime(s, '%Y-%m-%d')` on the zero-padded form; None where it raises
      ValueError (wrong shape, month outside 1..12, day outside the month, year 0). */
  function Parse(s: string): (r: Option<Date>)
    ensures r.Some? ==> Valid(r.value)
  {
    if !WellShaped(s) then None
    else
      var d := Date(DigitsValue(s[..4]), DigitsValue(s[5..7]), DigitsValue(s[8..]));
      if Valid(d) then Some(d) else None
  }

  lemma RenderParts(d: Date)
    requires Valid(d)
    ensures Render(d)[..4] == Pad(d.year, 4) && Render(d)[4] == '-'
    ensures Render(d)[5..7] == Pad(d.month, 2) && Render(d)[7] == '-'
    ensures Render(d)[8..] == Pad(d.day, 2)
  {
  }

  /** Parsing what was rendered gives the date back. */
  lemma RenderThenParse(d: Date)
    requires Valid(d)
    ensures Parse(Render(d)) == Some(d)
  {
    RenderParts(d);
    PadValue(d.year, 4);
    PadValue(d.month, 2);
    PadValue(d.day, 2);
  }

  /** Rendering what was parsed gives the string back: the accepted strings are
      exactly the canonical renderings. */
  lemma ParseThenRender(s: string)
    requires Parse(s).Some?
    ensures Render(Parse(s).value) == s
  {
    var d := Parse(s).value;
    ValuePad(s[..4]);
    ValuePad(s[5..7]);
    ValuePad(s[8..]);
    assert s == s[..4] + "-" + s[5..7] + "-" + s[8..];
  }

  /** Three fixed-width fields joined by '-' compare field by field. */
  lemma FieldsOrder(y1: string, m1: string, d1: string, y2: string, m2: string, d2: string)
    requires |y1| == |y2| && |m1| == |m2|
    ensures Less(y1 + "-" + m1 + "-" + d1, y2 + "-" + m2 + "-" + d2) <==>
      Less(y1, y2) || (y1 == y2 && (Less(m1, m2) || (m1 == m2 && Less(d1, d2))))
  {
    var r1, r2 := "-" + m1 + "-" + d1, "-" + m2 + "-" + d2;
    assert y1 + "-" + m1 + "-" + d1 == y1 + r1;
    assert y2 + "-" + m2 + "-" + d2 == y2 + r2;
    LessConcat(y1, r1, y2, r2);
    assert r1 == "-" + (m1 + ("-" + d1)) && r2 == "-" + (m2 + ("-" + d2));
    LessConcat("-", m1 + ("-" + d1), "-", m2 + ("-" + d2));
    LessConcat(m1, "-" + d1, m2, "-" + d2);
    LessConcat("-", d1, "-", d2);
  }

  /** The string order of rendered dates is their chronological order. */
  lemma RenderOrder(a: Date, b: Date)
    requires Valid(a) && Valid(b)
    ensures Less(Render(a), Render(b)) <==> Before(a, b)
  {
    PadOrder(a.year, b.year, 4);
    PadOrder(a.month, b.month, 2);
    PadOrder(a.day, b.day, 2);
    FieldsOrder(Pad(a.year, 4), Pad(a.month, 2), Pad(a.day, 2), Pad(b.year, 4), Pad(b.month, 2), Pad(b.day, 2));
  }

  /** The string form of one day before: `delay_date`'s per-row step. */
  function DelayText(s: string): (r: DateResult)
    ensures r.Shifted? ==> Parse(r.text).Some?
  {
    match Parse(s)
    case None => Failed(Unparsable)
    case Some(d) =>
      match PrevDay(d)
      case None => Failed(OutOfRange)
      case Some(p) =>
        PrevDayIsPredecessor(d);
        RenderThenParse(p);
        Shifted(Render(p))
  }

  /** DelayText fails exactly on unparsable text and on 0001-01-01; otherwise its
      result names the calendar day before, and sorts before its input. */
  lemma DelayTextMeaning(s: string)
    ensures DelayText(s).Failed? <==> Parse(s).None? || Parse(s) == Some(Date(MinYear, 1, 1))
    ensures DelayText(s).Shifted? ==>
      Ordinal(Parse(DelayText(s).text).value) == Ordinal(Parse(s).value) - 1
    ensures DelayText(s).Shifted? ==> Less(DelayText(s).text, s)
  {
    if DelayText(s).Shifted? {
      var d := Parse(s).value;
      var p := PrevDay(d).value;
      PrevDayIsPredecessor(d);
      RenderThenParse(p);
      ParseThenRender(s);
      OrdinalOrder(p, d);
      RenderOrder(p, d);
    }
  }

  /** `strftime('%m')` and `%d`: two digits. */
  lemma Pad2(n: nat)
    requires n < 100
    ensures Pad(n, 2) == [DigitChar(n / 10), DigitChar(n % 10)]
  {
    var h := n / 10;
    assert h < 10 && h % 10 == h;
    assert Pad(h, 1) == Pad(h / 10, 0) + [DigitChar(h % 10)];
    assert Pad(n, 2) == Pad(h, 1) + [DigitChar(n % 10)];
  }

  lemma DivFacts(n: nat)
    requires n < 10000
    ensures n / 10 / 10 == n / 100 && n / 10 % 10 == n % 100 / 10 && n % 10 == n % 100 % 10
  {
  }

  /** `strftime('%Y')`: four digits, as two pairs. */
  lemma Pad4(n: nat)
    requires n < 10000
    ensures Pad(n, 4) == Pad(n / 100, 2) + Pad(n % 100, 2)
  {
    DivFacts(n);
    Pad2(n / 100);
    Pad2(n % 100);
    assert Pad(n, 4) == Pad(n / 10, 3) + [DigitChar(n % 10)];
    assert Pad(n / 10, 3) == Pad(n / 100, 2) + [DigitChar(n / 10 % 10)];
  }

  lemma RenderFields(d: Date)
    requires Valid(d)
    ensures Render(d) == Pad(d.year / 100, 2) + Pad(d.year % 100, 2) + "-" + Pad(d.month, 2) + "-" + Pad(d.day, 2)
  {
    Pad4(d.year);
  }

  lemma Pad2Is(n: nat, hi: char, lo: char)
    requires n < 100 && hi == DigitChar(n / 10) && lo == DigitChar(n % 10)
    ensures Pad(n, 2) == [hi, lo]
  {
    Pad2(n);
  }

  lemma RenderChars(d: Date, y1: char, y2: char, y3: char, y4: char, m1: char, m2: char, d1: char, d2: char)
    requires Valid(d)
    requires Pad(d.year / 100, 2) == [y1, y2] && Pad(d.year % 100, 2) == [y3, y4]
    requires Pad(d.month, 2) == [m1, m2] && Pad(d.day, 2) == [d1, d2]
    ensures Render(d) == [y1, y2, y3, y4, '-', m1, m2, '-', d1, d2]
  {
    RenderFields(d);
  }

  // Worked cases of `delay_date`'s step, one per calendar boundary.

  lemma Rendered20200301()
    ensures Render(Date(2020, 3, 1)) == "2020-03-01"
  {
    Pad2Is(20, '2', '0');
    Pad2Is(3, '0', '3');
    Pad2Is(1, '0', '1');
    RenderChars(Date(2020, 3, 1), '2', '0', '2', '0', '0', '3', '0', '1');
  }

  lemma Rendered20200229()
    ensures Render(Date(2020, 2, 29)) == "2020-02-29"
  {
    Pad2Is(20, '2', '0');
    Pad2Is(2, '0', '2');
    Pad2Is(29, '2', '9');
    RenderChars(Date(2020, 2, 29), '2', '0', '2', '0', '0', '2', '2', '9');
  }

  lemma DelayLeapFebruary()  // the end of February in a leap year
    ensures DelayText("2020-03-01") == Shifted("2020-02-29")
  {
    Rendered20200301();
    Rendered20200229();
    DelayCase("2020-03-01", Date(2020, 3, 1), Date(2020, 2, 29), "2020-02-29");
  }

  lemma Rendered20190301()
    ensures Render(Date(2019, 3, 1)) == "2019-03-01"
  {
    Pad2Is(20, '2', '0');
    Pad2Is(19, '1', '9');
    Pad2Is(3, '0', '3');
    Pad2Is(1, '0', '1');
    RenderChars(Date(2019, 3, 1), '2', '0', '1', '9', '0', '3', '0', '1');
  }

  lemma Rendered20190228()
    ensures Render(Date(2019, 2, 28)) == "2019-02-28"
  {
    Pad2Is(20, '2', '0');
    Pad2Is(19, '1', '9');
    Pad2Is(2, '0', '2');
    Pad2Is(28, '2', '8');
    RenderChars(Date(2019, 2, 28), '2', '0', '1', '9', '0', '2', '2', '8');
  }

  lemma DelayCommonFebruary()  // the end of February in a common year
    ensures DelayText("2019-03-01") == Shifted("2019-02-28")
  {
    Rendered20190301();
    Rendered20190228();
    DelayCase("2019-03-01", Date(2019, 3, 1), Date(2019, 2, 28), "2019-02-28");
  }

  lemma Rendered19000301()
    ensures Render(Date(1900, 3, 1)) == "1900-03-01"
  {
    Pad2Is(19, '1', '9');
    Pad2Is(0, '0', '0');
    Pad2Is(3, '0', '3');
    Pad2Is(1, '0', '1');
    RenderChars(Date(1900, 3, 1), '1', '9', '0', '0', '0', '3', '0', '1');
  }

  lemma Rendered19000228()
    ensures Render(Date(1900, 2, 28)) == "1900-02-28"
  {
    Pad2Is(19, '1', '9');
    Pad2Is(0, '0', '0');
    Pad2Is(2, '0', '2');
    Pad2Is(28, '2', '8');
    RenderChars(Date(1900, 2, 28), '1', '9', '0', '0', '0', '2', '2', '8');
  }

  lemma DelayCenturyFebruary()  // 1900: divisible by 100, not by 400, not leap
    ensures DelayText("1900-03-01") == Shifted("1900-02-28")
  {
    Rendered19000301();
    Rendered19000228();
    DelayCase("1900-03-01", Date(1900, 3, 1), Date(1900, 2, 28), "1900-02-28");
  }

  lemma Rendered20000301()
    ensures Render(Date(2000, 3, 1)) == "2000-03-01"
  {
    Pad2Is(20, '2', '0');
    Pad2Is(0, '0', '0');
    Pad2Is(3, '0', '3');
    Pad2Is(1, '0', '1');
    RenderChars(Date(2000, 3, 1), '2', '0', '0', '0', '0', '3', '0', '1');
  }

  lemma Rendered20000229()
    ensures Render(Date(2000, 2, 29)) == "2000-02-29"
  {
    Pad2Is(20, '2', '0');
    Pad2Is(0, '0', '0');
    Pad2Is(2, '0', '2');
    Pad2Is(29, '2', '9');
    RenderChars(Date(2000, 2, 29), '2', '0', '0', '0', '0', '2', '2', '9');
  }

  lemma DelayQuadCenturyFebruary()  // 2000: divisible by 400, leap
    ensures DelayText("2000-03-01") == Shifted("2000-02-29")
  {
    Rendered20000301();
    Rendered20000229();
    DelayCase("2000-03-01", Date(2000, 3, 1), Date(2000, 2, 29), "2000-02-29");
  }

  lemma Rendered20200101()
    ensures Render(Date(2020, 1, 1)) == "2020-01-01"
  {
    Pad2Is(20, '2', '0');
    Pad2Is(1, '0', '1');
    RenderChars(Date(2020, 1, 1), '2', '0', '2', '0', '0', '1', '0', '1');
  }

  lemma Rendered20191231()
    ensures Render(Date(2019, 12, 31)) == "2019-12-31"
  {
    Pad2Is(20, '2', '0');
    Pad2Is(19, '1', '9');
    Pad2Is(12, '1', '2');
    Pad2Is(31, '3', '1');
    RenderChars(Date(2019, 12, 31), '2', '0', '1', '9', '1', '2', '3', '1');
  }

  lemma DelayYearEnd()  // the year boundary
    ensures DelayText("2020-01-01") == Shifted("2019-12-31")
  {
    Rendered20200101();
    Rendered20191231();
    DelayCase("2020-01-01", Date(2020, 1, 1), Date(2019, 12, 31), "2019-12-31");
  }

  lemma Rendered20200501()
    ensures Render(Date(2020, 5, 1)) == "2020-05-01"
  {
    Pad2Is(20, '2', '0');
    Pad2Is(5, '0', '5');
    Pad2Is(1, '0', '1');
    RenderChars(Date(2020, 5, 1), '2', '0', '2', '0', '0', '5', '0', '1');
  }

  lemma Rendered20200430()
    ensures Render(Date(2020, 4, 30)) == "2020-04-30"
  {
    Pad2Is(20, '2', '0');
    Pad2Is(4, '0', '4');
    Pad2Is(30, '3', '0');
    RenderChars(Date(2020, 4, 30), '2', '0', '2', '0', '0', '4', '3', '0');
  }

  lemma DelayThirtyDayMonth()  // the end of a 30-day month
    ensures DelayText("2020-05-01") == Shifted("2020-04-30")
  {
    Rendered20200501();
    Rendered20200430();
    DelayCase("2020-05-01", Date(2020, 5, 1), Date(2020, 4, 30), "2020-04-30");
  }

  lemma FirstDayText()
    ensures Render(Date(MinYear, 1, 1)) == "0001-01-01"
  {
    Pad2Is(0, '0', '0');
    Pad2Is(1, '0', '1');
    RenderChars(Date(MinYear, 1, 1), '0', '0', '0', '1', '0', '1', '0', '1');
  }

  /** The first representable day has no day before it. */
  lemma DelayFirstDay()
    ensures DelayText("0001-01-01") == Failed(OutOfRange)
  {
    FirstDayText();
    RenderThenParse(Date(MinYear, 1, 1));
  }

  lemma DelayCase(s: string, d: Date, p: Date, t: string)
    requires Valid(d) && Valid(p) && PrevDay(d) == Some(p)
    requires s == Render(d) && t == Render(p)
    ensures DelayText(s) == Shifted(t)
  {
    RenderThenParse(d);
  }
}
