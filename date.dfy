/**
 * The calendar helpers of the front end: the length of a month, the weekday
 * of its first day and the `YYYY-MM-DD` rendering of a date. Months are
 * 0-based. The month lengths and weekdays are those the JavaScript `Date`
 * constructor produces: a two-digit year 0..99 means 1900..1999, and a month
 * outside 0..11 rolls over into the neighbouring years. The calendar is the
 * proleptic Gregorian one.
 */
module Date {
  import opened Wrappers
  import opened Text
  import opened Arith

  // ---------------------------------------------------------------------------
  // formatDateISO
  // ---------------------------------------------------------------------------

  /** `String(n).padStart(2, "0")`: one leading zero on a one-character rendering, nothing cut off. */
  function Pad2(n: int): (s: string)
    ensures |s| >= 2
    ensures 0 <= n < 10 ==> s == ['0', DigitChar(n)]
    ensures n >= 10 ==> s == NatToString(n)
    ensures n < 0 ==> s == IntToString(n)
  {
    var t := IntToString(n);
    if |t| < 2 then "0" + t else t
  }

  /** `formatDateISO(year, month, day)`: the year unpadded, the 1-based month and the day on two digits. */
  function FormatDateISO(year: int, month: int, day: int): (s: string)
    ensures var y := IntToString(year);
      && |s| >= |y| + 6 && s[..|y|] == y && s[|y|] == '-'
  {
    IntToString(year) + "-" + Pad2(month + 1) + "-" + Pad2(day)
  }

  /** Two-digit values read back. */
  lemma Pad2Reads(n: int)
    requires 0 <= n < 100
    ensures |Pad2(n)| == 2 && AllDigits(Pad2(n)) && DigitsValue(Pad2(n)) == n
  {
    if n < 10 {
      assert DigitsValue(Pad2(n)[..1]) == 0;
    } else {
      DigitsValueOfNatToString(n);
      assert NatToString(n) == NatToString(n / 10) + [DigitChar(n % 10)];
    }
  }

  datatype CalendarDate = CalendarDate(year: int, month: int, day: int)

  /** Reads `Y-MM-DD` back, with a year of one or more digits and the 1-based month. */
  function ParseDateISO(s: string): Option<CalendarDate> {
    if |s| >= 7 && s[|s| - 3] == '-' && s[|s| - 6] == '-'
       && AllDigits(s[..|s| - 6]) && AllDigits(s[|s| - 5..|s| - 3]) && AllDigits(s[|s| - 2..])
    then Some(CalendarDate(DigitsValue(s[..|s| - 6]), DigitsValue(s[|s| - 5..|s| - 3]) - 1, DigitsValue(s[|s| - 2..])))
    else None
  }

  /** Where the three parts of `y-mm-dd` sit, counted from the end. */
  lemma JoinedShape(y: string, mm: string, dd: string)
    requires |mm| == 2 && |dd| == 2
    ensures var s := y + "-" + mm + "-" + dd;
      && |s| == |y| + 6
      && s[..|s| - 6] == y && s[|s| - 5..|s| - 3] == mm && s[|s| - 2..] == dd
      && s[|s| - 3] == '-' && s[|s| - 6] == '-'
  {
    var tail := ['-', mm[0], mm[1], '-', dd[0], dd[1]];
    var s := y + tail;
    var joined := y + "-" + mm + "-" + dd;
    forall i | 0 <= i < |s|
      ensures joined[i] == s[i]
    {
      if i >= |y| {
        assert s[i] == tail[i - |y|];
      }
    }
    assert joined == s;
    assert s[|s| - 5..|s| - 3] == tail[1..3] == mm;
    assert s[|s| - 2..] == tail[4..] == dd;
  }

  /** A string whose last six characters are `-MM-DD`, digits elsewhere, reads back as its three parts. */
  lemma ParseParts(s: string, y: string, mm: string, dd: string)
    requires |y| >= 1 && |s| == |y| + 6
    requires s[..|s| - 6] == y && s[|s| - 5..|s| - 3] == mm && s[|s| - 2..] == dd
    requires s[|s| - 3] == '-' && s[|s| - 6] == '-'
    requires AllDigits(y) && AllDigits(mm) && AllDigits(dd)
    ensures ParseDateISO(s) == Some(CalendarDate(DigitsValue(y), DigitsValue(mm) - 1, DigitsValue(dd)))
  {
  }

  /** Three digit runs joined by dashes, the last two of length two, read back as their values. */
  lemma ParseJoined(y: string, mm: string, dd: string)
    requires |y| >= 1 && |mm| == 2 && |dd| == 2
    requires AllDigits(y) && AllDigits(mm) && AllDigits(dd)
    ensures ParseDateISO(y + "-" + mm + "-" + dd) == Some(CalendarDate(DigitsValue(y), DigitsValue(mm) - 1, DigitsValue(dd)))
  {
    JoinedShape(y, mm, dd);
    ParseParts(y + "-" + mm + "-" + dd, y, mm, dd);
  }

  /** For a year from 0 on, a month 0..11 and a day 0..99 the rendering reads back as the same date. */
  lemma FormatThenParse(year: int, month: int, day: int)
    requires year >= 0 && 0 <= month < 12 && 0 <= day < 100
    ensures ParseDateISO(FormatDateISO(year, month, day)) == Some(CalendarDate(year, month, day))
  {
    Pad2Reads(month + 1);
    Pad2Reads(day);
    DigitsValueOfNatToString(year);
    ParseJoined(IntToString(year), Pad2(month + 1), Pad2(day));
  }

  /** A worked rendering: January is month 0 and prints as "01". */
  lemma FormatExample()
    ensures FormatDateISO(2024, 0, 5) == "2024-01-05"
  {
    assert IntToString(2024) == "2024" by {
      assert NatToString(2024) == NatToString(202) + ['4'];
      assert NatToString(202) == NatToString(20) + ['2'];
      assert NatToString(20) == NatToString(2) + ['0'];
    }
  }

  // ---------------------------------------------------------------------------
  // getDaysInMonth and getFirstDayOfMonth
  // ---------------------------------------------------------------------------

  /** The year the `Date` constructor uses: 0..99 means 1900..1999. */
  function ConstructorYear(year: int): int {
    if 0 <= year <= 99 then 1900 + year else year
  }

  predicate IsLeap(y: int) {
    y % 4 == 0 && (y % 100 != 0 || y % 400 == 0)
  }

  function MonthLength(y: int, m: int): (d: int)
    requires 0 <= m < 12
    ensures 28 <= d <= 31
  {
    if m == 1 then (if IsLeap(y) then 29 else 28)
    else if m == 3 || m == 5 || m == 8 || m == 10 then 30
    else 31
  }

  /** `getDaysInMonth(year, month)`: day 0 of the next month is the last day of this one. */
  function DaysInMonth(year: int, month: int): (d: int)
    ensures 28 <= d <= 31
    ensures d == 29 <==> month % 12 == 1 && IsLeap(ConstructorYear(year) + month / 12)
    ensures d == 28 <==> month % 12 == 1 && !IsLeap(ConstructorYear(year) + month / 12)
    ensures d == 30 <==> month % 12 in {3, 5, 8, 10}
    ensures d == 31 <==> month % 12 in {0, 2, 4, 6, 7, 9, 11}
  {
    MonthLength(ConstructorYear(year) + month / 12, month % 12)
  }

  /** Days from 1 January of year 1 to 1 January of year `y`. */
  function DaysBeforeYear(y: int): int {
    365 * (y - 1) + (y - 1) / 4 - (y - 1) / 100 + (y - 1) / 400
  }

  /** Days from 1 January to the first of month `m` of year `y`. */
  function DaysBeforeMonth(y: int, m: int): int
    requires 0 <= m <= 12
  {
    if m == 0 then 0 else DaysBeforeMonth(y, m - 1) + MonthLength(y, m - 1)
  }

  /** Days from 1 January of year 1, a Monday, to the first of month `m` of year `y`. */
  function MonthStart(y: int, m: int): int
    requires 0 <= m < 12
  {
    DaysBeforeYear(y) + DaysBeforeMonth(y, m)
  }

  /** `getFirstDayOfMonth(year, month)`: 0 for Sunday up to 6 for Saturday. */
  function FirstDayOfMonth(year: int, month: int): (w: int)
    ensures 0 <= w <= 6
  {
    (MonthStart(ConstructorYear(year) + month / 12, month % 12) + 1) % 7
  }

  /** The twelve months of a year add up to its length. */
  lemma YearOfMonths(y: int)
    ensures DaysBeforeMonth(y, 12) == if IsLeap(y) then 366 else 365
  {
    var feb := MonthLength(y, 1);
    assert DaysBeforeMonth(y, 1) == 31;
    assert DaysBeforeMonth(y, 2) == 31 + feb;
    assert DaysBeforeMonth(y, 3) == 62 + feb;
    assert DaysBeforeMonth(y, 4) == 92 + feb;
    assert DaysBeforeMonth(y, 5) == 123 + feb;
    assert DaysBeforeMonth(y, 6) == 153 + feb;
    assert DaysBeforeMonth(y, 7) == 184 + feb;
    assert DaysBeforeMonth(y, 8) == 215 + feb;
    assert DaysBeforeMonth(y, 9) == 245 + feb;
    assert DaysBeforeMonth(y, 10) == 276 + feb;
    assert DaysBeforeMonth(y, 11) == 306 + feb;
  }

  /** A year has 366 days exactly when it is a leap year. */
  lemma YearLength(y: int)
    ensures DaysBeforeYear(y + 1) == DaysBeforeYear(y) + (if IsLeap(y) then 366 else 365)
  {
    StepDiv(y - 1, 4);
    StepDiv(y - 1, 100);
    StepDiv(y - 1, 400);
  }

  /** The first of a month is the first of the month before plus its length, within a year. */
  lemma MonthStartStep(y: int, m: int)
    requires 0 <= m < 11
    ensures MonthStart(y, m + 1) == MonthStart(y, m) + MonthLength(y, m)
  {
  }

  /** 1 January is 31 December's month start plus 31 days. */
  lemma YearStartStep(y: int)
    ensures MonthStart(y + 1, 0) == MonthStart(y, 11) + MonthLength(y, 11)
  {
    YearOfMonths(y);
    YearLength(y);
  }

  /** Each month starts the weekday after the last day of the month before, across year ends too. */
  lemma NextMonthWeekday(year: int, month: int)
    ensures FirstDayOfMonth(year, month + 1) == (FirstDayOfMonth(year, month) + DaysInMonth(year, month)) % 7
  {
    var q, m := month / 12, month % 12;
    var y := ConstructorYear(year) + q;
    var start, len := MonthStart(y, m), MonthLength(y, m);
    var next: int;
    if m < 11 {
      DivModUnique(month + 1, 12, q, m + 1);
      MonthStartStep(y, m);
      next := MonthStart(y, m + 1);
    } else {
      DivModUnique(month + 1, 12, q + 1, 0);
      YearStartStep(y);
      next := MonthStart(y + 1, 0);
    }
    assert next == start + len;
    assert FirstDayOfMonth(year, month + 1) == (next + 1) % 7;
    assert FirstDayOfMonth(year, month) == (start + 1) % 7;
    assert DaysInMonth(year, month) == len;
    ModAdd(start + 1, len, 7);
  }

  /** Anchor: 1 January 2024 was a Monday. */
  lemma WeekdayAnchor2024()
    ensures FirstDayOfMonth(2024, 0) == 1
  {
    assert DaysBeforeYear(2024) == 365 * 2023 + 505 - 20 + 5;
    assert MonthStart(2024, 0) == 738885;
  }

  /** Anchor: the two-digit year 70 is 1970, whose 1 January was a Thursday. */
  lemma WeekdayAnchor1970()
    ensures FirstDayOfMonth(70, 0) == 4
  {
    assert ConstructorYear(70) == 1970;
    assert DaysBeforeYear(1970) == 365 * 1969 + 492 - 19 + 4;
    assert MonthStart(1970, 0) == 719162;
  }

  /** The two-digit year 0 is 1900, not a leap year, while the year 2000 is one. */
  lemma CenturyYears()
    ensures DaysInMonth(0, 1) == 28
    ensures DaysInMonth(2000, 1) == 29
    ensures DaysInMonth(2100, 1) == 28
    ensures DaysInMonth(2023, 12) == 31 && DaysInMonth(2025, -11) == 29
  {
  }
}
