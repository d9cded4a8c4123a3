/** Calendar dates as Python's `datetime.date` keeps them: the expiry date
    (`today + timedelta(days=90)`), the `strptime(text, '%d/%m/%Y')` parse of
    an application deadline, and the `strftime('%Y-%m-%d')` rendering. */
module Dates {
  import opened Wrappers
  import opened Text

  datatype Date = Date(year: int, month: int, day: int)

  /** Proleptic Gregorian leap years. */
  predicate IsLeapYear(y: int) {
    y % 4 == 0 && (y % 100 != 0 || y % 400 == 0)
  }

  function DaysInMonth(y: int, m: int): int
    requires 1 <= m <= 12
  {
    if m == 2 then (if IsLeapYear(y) then 29 else 28)
    else if m == 4 || m == 6 || m == 9 || m == 11 then 30
    else 31
  }

  function DaysInYear(y: int): int {
    if IsLeapYear(y) then 366 else 365
  }

  /** A date Python can represent: year 1 or later, a real month, a day
      inside that month. */
  predicate Valid(d: Date) {
    1 <= d.year && 1 <= d.month <= 12 && 1 <= d.day <= DaysInMonth(d.year, d.month)
  }

  /* ----------------------------------------------------------- day numbers */

  /** Days in the years before `y`, counted from 0001-01-01. */
  function DaysBeforeYear(y: int): int
    requires y >= 1
  {
    var p := y - 1;
    365 * p + p / 4 - p / 100 + p / 400
  }

  /** Days in the months of year `y` before month `m`. */
  function DaysBeforeMonth(y: int, m: int): int
    requires 1 <= m <= 12
  {
    [0, 31, 59, 90, 120, 151, 181, 212, 243, 273, 304, 334][m - 1]
      + (if m > 2 && IsLeapYear(y) then 1 else 0)
  }

  /** The day number of `date.toordinal()`: 0001-01-01 is day 1, and each
      next day is one more. It is the reference the date arithmetic below
      is checked against. */
  function Ordinal(d: Date): int
    requires Valid(d)
  {
    DaysBeforeYear(d.year) + DaysBeforeMonth(d.year, d.month) + d.day
  }

  lemma DaysBeforeNextYear(y: int)
    requires y >= 1
    ensures DaysBeforeYear(y + 1) == DaysBeforeYear(y) + DaysInYear(y)
  {
    var p := y - 1;
    assert (p + 1) / 4 == p / 4 + (if y % 4 == 0 then 1 else 0);
    assert (p + 1) / 100 == p / 100 + (if y % 100 == 0 then 1 else 0);
    assert (p + 1) / 400 == p / 400 + (if y % 400 == 0 then 1 else 0);
  }

  lemma DaysBeforeNextMonth(y: int, m: int)
    requires 1 <= m < 12
    ensures DaysBeforeMonth(y, m + 1) == DaysBeforeMonth(y, m) + DaysInMonth(y, m)
  {
  }

  lemma DaysBeforeEndOfYear(y: int)
    ensures DaysBeforeMonth(y, 12) + DaysInMonth(y, 12) == DaysInYear(y)
  {
  }

  /** The calendar successor of a date. */
  function NextDay(d: Date): (r: Date)
    requires Valid(d)
    ensures Valid(r)
    ensures Ordinal(r) == Ordinal(d) + 1
  {
    if d.day < DaysInMonth(d.year, d.month) then Date(d.year, d.month, d.day + 1)
    else if d.month < 12 then
      DaysBeforeNextMonth(d.year, d.month);
      Date(d.year, d.month + 1, 1)
    else
      DaysBeforeNextYear(d.year);
      DaysBeforeEndOfYear(d.year);
      Date(d.year + 1, 1, 1)
  }

  /** `d + timedelta(days=n)`, stepped one day at a time. */
  function AddDays(d: Date, n: nat): (r: Date)
    requires Valid(d)
    ensures Valid(r)
    ensures Ordinal(r) == Ordinal(d) + n
    decreases n
  {
    if n == 0 then d else AddDays(NextDay(d), n - 1)
  }

  /* Day numbers tell valid dates apart, so the date `AddDays` finds is the
     only valid date `n` days later. */

  lemma {:induction false} DaysBeforeYearMonotone(a: int, b: int)
    requires 1 <= a < b
    ensures DaysBeforeYear(a) + DaysInYear(a) <= DaysBeforeYear(b)
    decreases b - a
  {
    DaysBeforeNextYear(a);
    if a + 1 < b {
      DaysBeforeYearMonotone(a + 1, b);
    }
  }

  lemma OrdinalWithinYear(d: Date)
    requires Valid(d)
    ensures DaysBeforeYear(d.year) < Ordinal(d) <= DaysBeforeYear(d.year) + DaysInYear(d.year)
  {
  }

  lemma OrdinalWithinMonth(d: Date)
    requires Valid(d)
    ensures d.month < 12 ==> Ordinal(d) <= DaysBeforeYear(d.year) + DaysBeforeMonth(d.year, d.month + 1)
  {
  }

  lemma DaysBeforeMonthMonotone(y: int, a: int, b: int)
    requires 1 <= a < b <= 12
    ensures DaysBeforeMonth(y, a + 1) <= DaysBeforeMonth(y, b)
  {
  }

  lemma OrdinalInjective(a: Date, b: Date)
    requires Valid(a) && Valid(b)
    requires Ordinal(a) == Ordinal(b)
    ensures a == b
  {
    OrdinalWithinYear(a);
    OrdinalWithinYear(b);
    if a.year < b.year {
      DaysBeforeYearMonotone(a.year, b.year);
    } else if b.year < a.year {
      DaysBeforeYearMonotone(b.year, a.year);
    }
    assert a.year == b.year;
    OrdinalWithinMonth(a);
    OrdinalWithinMonth(b);
    if a.month < b.month {
      DaysBeforeMonthMonotone(a.year, a.month, b.month);
    } else if b.month < a.month {
      DaysBeforeMonthMonotone(a.year, b.month, a.month);
    }
  }

  /** `datetime.now() + timedelta(days=90)`, with "now" given as `today`. */
  function ExpiryDate(today: Date): (r: Date)
    requires Valid(today)
    ensures Valid(r)
    ensures Ordinal(r) == Ordinal(today) + 90
    ensures forall d :: Valid(d) && Ordinal(d) == Ordinal(today) + 90 ==> d == r
  {
    var r := AddDays(today, 90);
    assert forall d :: Valid(d) && Ordinal(d) == Ordinal(today) + 90 ==> d == r by {
      forall d | Valid(d) && Ordinal(d) == Ordinal(today) + 90 {
        OrdinalInjective(d, r);
      }
    }
    r
  }

  /* ----------------------------------------------------------- rendering */

  function Pow10(k: nat): nat {
    if k == 0 then 1 else 10 * Pow10(k - 1)
  }

  lemma {:induction false} DecimalLength(n: nat, k: nat)
    requires k >= 1 && n < Pow10(k)
    ensures |Decimal(n)| <= k
  {
    if n >= 10 {
      assert Pow10(1) == 10;
      DecimalLength(n / 10, k - 1);
    }
  }

  /** `strftime('%Y-%m-%d')`: year to four digits, month and day to two,
      zero-padded. For years up to 9999 (all Python allows) the text is ten
      characters and its fields read back as the date. */
  function FormatIso(d: Date): (r: string)
    requires Valid(d)
    ensures d.year <= 9999 ==>
      && |r| == 10 && r[4] == '-' && r[7] == '-'
      && AllDigits(r[..4]) && DigitsValue(r[..4]) == d.year
      && AllDigits(r[5..7]) && DigitsValue(r[5..7]) == d.month
      && AllDigits(r[8..]) && DigitsValue(r[8..]) == d.day
  {
    var y := ZeroPad(d.year, 4);
    var m := ZeroPad(d.month, 2);
    var dd := ZeroPad(d.day, 2);
    DecimalLength(d.month, 2);
    DecimalLength(d.day, 2);
    assert d.year <= 9999 ==> |Decimal(d.year)| <= 4 by {
      if d.year <= 9999 {
        DecimalLength(d.year, 4);
      }
    }
    var r := y + "-" + m + "-" + dd;
    assert d.year <= 9999 ==> r[..4] == y && r[5..7] == m && r[8..] == dd;
    r
  }

  /* ----------------------------------------------------------- parsing */

  lemma {:induction false} DigitsValueBound(t: string)
    requires AllDigits(t)
    ensures DigitsValue(t) < Pow10(|t|)
  {
    if |t| > 0 {
      DigitsValueBound(t[..|t| - 1]);
    }
  }

  /** The value of two digits, as `int()` reads them. */
  lemma TwoDigitValue(t: string)
    requires |t| == 2 && AllDigits(t)
    ensures DigitsValue(t) == 10 * DigitValue(t[0]) + DigitValue(t[1])
  {
    var p := t[..1];
    assert |p| == 1 && p[0] == t[0];
    assert p[..0] == [];
    assert t[..|t| - 1] == p;
    assert DigitsValue(p) == 10 * DigitsValue(p[..0]) + DigitValue(p[0]);
  }

  /** strptime's `%d`: one of `3[01]`, `[12]\d`, `0[1-9]`, `[1-9]`, or a
      space and `[1-9]`. */
  function ParseDayField(t: string): (r: Option<int>)
    ensures r.Some? ==> 1 <= r.value <= 31
  {
    if |t| == 2 && t[0] == '3' && (t[1] == '0' || t[1] == '1') then Some(30 + DigitValue(t[1]))
    else if |t| == 2 && (t[0] == '1' || t[0] == '2') && IsDigit(t[1]) then Some(10 * DigitValue(t[0]) + DigitValue(t[1]))
    else if |t| == 2 && t[0] == '0' && IsDigit(t[1]) && t[1] != '0' then Some(DigitValue(t[1]))
    else if |t| == 1 && IsDigit(t[0]) && t[0] != '0' then Some(DigitValue(t[0]))
    else if |t| == 2 && t[0] == ' ' && IsDigit(t[1]) && t[1] != '0' then Some(DigitValue(t[1]))
    else None
  }

  /** strptime's `%m`: one of `1[0-2]`, `0[1-9]`, `[1-9]`. */
  function ParseMonthField(t: string): (r: Option<int>)
    ensures r.Some? ==> 1 <= r.value <= 12
  {
    if |t| == 2 && t[0] == '1' && '0' <= t[1] <= '2' then Some(10 + DigitValue(t[1]))
    else if |t| == 2 && t[0] == '0' && IsDigit(t[1]) && t[1] != '0' then Some(DigitValue(t[1]))
    else if |t| == 1 && IsDigit(t[0]) && t[0] != '0' then Some(DigitValue(t[0]))
    else None
  }

  /** strptime's `%Y`: exactly four digits. */
  function ParseYearField(t: string): (r: Option<int>)
    ensures r.Some? ==> 0 <= r.value <= 9999
  {
    if |t| == 4 && AllDigits(t) then
      DigitsValueBound(t);
      assert Pow10(4) == 10000;
      Some(DigitsValue(t))
    else None
  }

  /** `datetime.strptime(text, '%d/%m/%Y')`, with the `ValueError` it raises
      as `None`. The pattern must cover all of `text`; since no field holds a
      '/', the text splits at its slashes into exactly three fields. Year 0
      and a day past the end of its month are rejected, as the `date`
      constructor rejects them. */
  function ParseDmy(text: string): (r: Option<Date>)
    ensures r.Some? ==> Valid(r.value) && r.value.year <= 9999
  {
    var fields := Split(text, '/');
    if |fields| != 3 then None
    else
      match (ParseDayField(fields[0]), ParseMonthField(fields[1]), ParseYearField(fields[2]))
      case (Some(day), Some(month), Some(year)) =>
        if 1 <= year && day <= DaysInMonth(year, month) then Some(Date(year, month, day)) else None
      case _ => None
  }

  /** The application deadline of a record: the parsed value text when it
      reads as a date, otherwise (no label found, or text that does not
      parse) the expiry date. */
  function DeadlineDate(valueText: Option<string>, today: Date): (r: Date)
    requires Valid(today)
    ensures Valid(r)
    ensures valueText.None? ==> r == ExpiryDate(today)
    ensures valueText.Some? && ParseDmy(valueText.value).None? ==> r == ExpiryDate(today)
    ensures valueText.Some? && ParseDmy(valueText.value).Some? ==> r == ParseDmy(valueText.value).value
  {
    match valueText
    case None => ExpiryDate(today)
    case Some(t) =>
      match ParseDmy(t)
      case Some(d) => d
      case None => ExpiryDate(today)
  }

  /* ----------------------------------------------------------- round trips */

  /** A date as the job board prints it: `dd/mm/yyyy`, zero-padded. */
  function FormatDmy(d: Date): string
    requires Valid(d)
  {
    ZeroPad(d.day, 2) + "/" + ZeroPad(d.month, 2) + "/" + ZeroPad(d.year, 4)
  }

  /** The same date without zero padding on day and month: `d/m/yyyy`. */
  function FormatDmyShort(d: Date): string
    requires Valid(d)
  {
    Decimal(d.day) + "/" + Decimal(d.month) + "/" + ZeroPad(d.year, 4)
  }

  lemma SplitThree(a: string, b: string, c: string)
    requires '/' !in a && '/' !in b && '/' !in c
    ensures Split(a + "/" + b + "/" + c, '/') == [a, b, c]
  {
    SplitAtSep(a, b + "/" + c, '/');
    assert a + "/" + b + "/" + c == a + ['/'] + (b + "/" + c);
    SplitAtSep(b, c, '/');
    assert b + "/" + c == b + ['/'] + c;
    SplitNoSep(c, '/');
  }

  lemma DigitsHaveNoSlash(s: string)
    requires AllDigits(s)
    ensures '/' !in s
  {
  }

  lemma ParsePaddedDay(n: int)
    requires 1 <= n <= 31
    ensures ParseDayField(ZeroPad(n, 2)) == Some(n)
  {
    DecimalLength(n, 2);
    TwoDigitValue(ZeroPad(n, 2));
  }

  lemma ParsePaddedMonth(n: int)
    requires 1 <= n <= 12
    ensures ParseMonthField(ZeroPad(n, 2)) == Some(n)
  {
    DecimalLength(n, 2);
    TwoDigitValue(ZeroPad(n, 2));
  }

  lemma ParseShortDay(n: int)
    requires 1 <= n <= 31
    ensures ParseDayField(Decimal(n)) == Some(n)
  {
    DecimalLength(n, 2);
    var t := Decimal(n);
    if |t| == 2 {
      TwoDigitValue(t);
    } else {
      assert t[..0] == [];
    }
  }

  lemma ParseShortMonth(n: int)
    requires 1 <= n <= 12
    ensures ParseMonthField(Decimal(n)) == Some(n)
  {
    DecimalLength(n, 2);
    var t := Decimal(n);
    if |t| == 2 {
      TwoDigitValue(t);
    } else {
      assert t[..0] == [];
    }
  }

  lemma ParsePaddedYear(n: int)
    requires 1 <= n <= 9999
    ensures ParseYearField(ZeroPad(n, 4)) == Some(n)
  {
    DecimalLength(n, 4);
  }

  /** Every representable date printed as `dd/mm/yyyy` parses back to itself. */
  lemma ParseFormatDmy(d: Date)
    requires Valid(d) && d.year <= 9999
    ensures ParseDmy(FormatDmy(d)) == Some(d)
  {
    var a, b, c := ZeroPad(d.day, 2), ZeroPad(d.month, 2), ZeroPad(d.year, 4);
    DigitsHaveNoSlash(a);
    DigitsHaveNoSlash(b);
    DigitsHaveNoSlash(c);
    SplitThree(a, b, c);
    ParsePaddedDay(d.day);
    ParsePaddedMonth(d.month);
    ParsePaddedYear(d.year);
  }

  /** ... and so does the unpadded `d/m/yyyy` spelling. */
  lemma ParseFormatDmyShort(d: Date)
    requires Valid(d) && d.year <= 9999
    ensures ParseDmy(FormatDmyShort(d)) == Some(d)
  {
    var a, b, c := Decimal(d.day), Decimal(d.month), ZeroPad(d.year, 4);
    DigitsHaveNoSlash(a);
    DigitsHaveNoSlash(b);
    DigitsHaveNoSlash(c);
    SplitThree(a, b, c);
    ParseShortDay(d.day);
    ParseShortMonth(d.month);
    ParsePaddedYear(d.year);
  }

  /** Text without a slash is never a date, so the deadline falls back to
      the expiry date: "March 15" is such a text. */
  lemma DeadlineWithoutSlashIsExpiry(t: string, today: Date)
    requires Valid(today) && '/' !in t
    ensures DeadlineDate(Some(t), today) == ExpiryDate(today)
  {
    SplitNoSep(t, '/');
  }

  /** A date whose day lies past the end of its month is rejected:
      "31/02/2025" falls back to the expiry date. */
  lemma DeadlineRejectsFebruary31(t: string, today: Date)
    requires Valid(today) && t == "31/02/2025"
    ensures DeadlineDate(Some(t), today) == ExpiryDate(today)
  {
    SplitThree("31", "02", "2025");
    assert t == "31" + "/" + "02" + "/" + "2025";
    assert ParseDayField("31") == Some(31);
    assert ParseMonthField("02") == Some(2);
    assert ParseYearField("2025").Some?;
    assert DaysInMonth(ParseYearField("2025").value, 2) <= 29;
  }

  lemma PadYear2025()
    ensures ZeroPad(2025, 4) == "2025"
  {
    assert Decimal(20) == "20";
    assert Decimal(202) == "202";
    assert Decimal(2025) == "2025";
  }

  lemma PadMonth3()
    ensures ZeroPad(3, 2) == "03"
  {
    assert Decimal(3) == "3";
  }

  lemma PadDay15()
    ensures ZeroPad(15, 2) == "15"
  {
    assert Decimal(15) == "15";
  }

  /** "15/03/2025" is read as 15 March 2025, which renders as "2025-03-15". */
  lemma DeadlineOfMarch15(t: string, today: Date)
    requires Valid(today) && t == "15/03/2025"
    ensures DeadlineDate(Some(t), today) == Date(2025, 3, 15)
    ensures FormatIso(Date(2025, 3, 15)) == "2025-03-15"
  {
    PadYear2025();
    PadMonth3();
    PadDay15();
    assert t == FormatDmy(Date(2025, 3, 15));
    ParseFormatDmy(Date(2025, 3, 15));
  }
}
