/** Proleptic Gregorian calendar dates as Python's `datetime.date` has them:
    parsing the `%Y-%m-%d` form, comparison, the day count (`toordinal`) and
    the weekday with Monday as 0. Dates follow the calendar-date form of
    ISO 8601 (YYYY-MM-DD), with years 1 to 9999. */
module Calendar {
  import opened Digits

  datatype Option<T> = None | Some(value: T)

  datatype Date = Date(year: int, month: int, day: int)

  predicate IsLeapYear(y: int) {
    y % 4 == 0 && (y % 100 != 0 || y % 400 == 0)
  }

  function DaysInMonth(y: int, m: int): (n: int)
    requires 1 <= m <= 12
    ensures 28 <= n <= 31
    ensures n == 29 <==> m == 2 && IsLeapYear(y)
  {
    if m == 2 then (if IsLeapYear(y) then 29 else 28)
    else if m == 4 || m == 6 || m == 9 || m == 11 then 30
    else 31
  }

  function DaysInYear(y: int): int {
    if IsLeapYear(y) then 366 else 365
  }

  /** The dates `datetime.date` can represent. */
  predicate ValidDate(d: Date) {
    && 1 <= d.year <= 9999
    && 1 <= d.month <= 12
    && 1 <= d.day <= DaysInMonth(d.year, d.month)
  }

  // ---------------------------------------------------------------------
  // The external form YYYY-MM-DD

  /** Strict reading of `YYYY-MM-DD`: four, two and two digits separated by
      hyphens, naming a date that exists. Anything else is `None`, the
      case in which `strptime` raises `ValueError`. */
  function ParseDate(s: string): (r: Option<Date>)
    ensures r.Some? ==> ValidDate(r.value)
    ensures r.Some? ==> |s| == 10 && s[4] == '-' && s[7] == '-'
  {
    if |s| == 10 && s[4] == '-' && s[7] == '-'
       && AllDigits(s[..4]) && AllDigits(s[5..7]) && AllDigits(s[8..])
    then
      var d := Date(Value(s[..4]), Value(s[5..7]), Value(s[8..]));
      if ValidDate(d) then Some(d) else None
    else None
  }

  /** The canonical `YYYY-MM-DD` spelling of a date (`date.isoformat()`). */
  function FormatDate(d: Date): (s: string)
    requires ValidDate(d)
    ensures |s| == 10
  {
    Padded(d.year, 4) + "-" + Padded(d.month, 2) + "-" + Padded(d.day, 2)
  }

  lemma FormatDateParts(d: Date)
    requires ValidDate(d)
    ensures FormatDate(d)[..4] == Padded(d.year, 4)
    ensures FormatDate(d)[5..7] == Padded(d.month, 2)
    ensures FormatDate(d)[8..] == Padded(d.day, 2)
    ensures FormatDate(d)[4] == '-' && FormatDate(d)[7] == '-'
  {
  }

  /** Every date is read back from its canonical spelling. */
  lemma ParseFormat(d: Date)
    requires ValidDate(d)
    ensures ParseDate(FormatDate(d)) == Some(d)
  {
    FormatDateParts(d);
  }

  /** The only spelling the strict reader accepts for a date is the
      canonical one. */
  lemma FormatParse(s: string)
    requires ParseDate(s).Some?
    ensures FormatDate(ParseDate(s).value) == s
  {
    var d := ParseDate(s).value;
    PaddedValue(s[..4]);
    PaddedValue(s[5..7]);
    PaddedValue(s[8..]);
    FormatDateParts(d);
    var f := FormatDate(d);
    assert forall i | 0 <= i < 10 :: f[i] == s[i] by {
      forall i | 0 <= i < 10 ensures f[i] == s[i] {
        if i < 4 { assert f[i] == f[..4][i] && s[i] == s[..4][i]; }
        else if 5 <= i < 7 { assert f[i] == f[5..7][i - 5] && s[i] == s[5..7][i - 5]; }
        else if 8 <= i { assert f[i] == f[8..][i - 8] && s[i] == s[8..][i - 8]; }
      }
    }
  }

  /** Hence two accepted date strings are equal exactly when they name the
      same date. */
  lemma ParseInjective(s: string, t: string)
    requires ParseDate(s).Some? && ParseDate(t).Some?
    ensures s == t <==> ParseDate(s).value == ParseDate(t).value
  {
    FormatParse(s);
    FormatParse(t);
  }

  // ---------------------------------------------------------------------
  // Comparison and day count

  /** `a < b` on `datetime.date`: by year, then month, then day. */
  predicate Before(a: Date, b: Date) {
    || a.year < b.year
    || (a.year == b.year && a.month < b.month)
    || (a.year == b.year && a.month == b.month && a.day < b.day)
  }

  /** Days in the years before year `y`. */
  function DaysBeforeYear(y: int): int
    requires y >= 1
  {
    var p := y - 1;
    p * 365 + p / 4 - p / 100 + p / 400
  }

  /** Days in the months of year `y` before month `m`; `m == 13` gives the
      whole year. */
  function DaysBeforeMonth(y: int, m: int): (n: int)
    requires 1 <= m <= 13
    ensures n >= 0
  {
    if m == 1 then 0 else DaysBeforeMonth(y, m - 1) + DaysInMonth(y, m - 1)
  }

  /** `date.toordinal()`: 0001-01-01 is day 1. */
  function Ordinal(d: Date): (n: int)
    requires ValidDate(d)
  {
    DaysBeforeYear(d.year) + DaysBeforeMonth(d.year, d.month) + d.day
  }

  /** `date.weekday()`: Monday is 0 and Sunday is 6. */
  function Weekday(d: Date): (w: int)
    requires ValidDate(d)
    ensures 0 <= w < 7
  {
    (Ordinal(d) + 6) % 7
  }

  lemma {:induction false} DaysBeforeFullYear(y: int)
    ensures DaysBeforeMonth(y, 13) == DaysInYear(y)
  {
    var feb := DaysInMonth(y, 2);
    assert DaysBeforeMonth(y, 2) == 31;
    assert DaysBeforeMonth(y, 3) == 31 + feb;
    assert DaysBeforeMonth(y, 4) == 62 + feb;
    assert DaysBeforeMonth(y, 5) == 92 + feb;
    assert DaysBeforeMonth(y, 6) == 123 + feb;
    assert DaysBeforeMonth(y, 7) == 153 + feb;
    assert DaysBeforeMonth(y, 8) == 184 + feb;
    assert DaysBeforeMonth(y, 9) == 215 + feb;
    assert DaysBeforeMonth(y, 10) == 245 + feb;
    assert DaysBeforeMonth(y, 11) == 276 + feb;
    assert DaysBeforeMonth(y, 12) == 306 + feb;
    assert DaysBeforeMonth(y, 13) == 337 + feb;
  }

  lemma YearStep(y: int)
    requires y >= 1
    ensures DaysBeforeYear(y + 1) == DaysBeforeYear(y) + DaysInYear(y)
  {
    QuotientStep4(y);
    QuotientStep100(y);
    QuotientStep400(y);
    LeapDivisors(y);
  }

  lemma QuotientStep4(y: int)
    ensures y / 4 == (y - 1) / 4 + (if y % 4 == 0 then 1 else 0)
  {
    var q, r := (y - 1) / 4, (y - 1) % 4;
    assert y == 4 * q + r + 1;
  }

  lemma QuotientStep100(y: int)
    ensures y / 100 == (y - 1) / 100 + (if y % 100 == 0 then 1 else 0)
  {
    var q, r := (y - 1) / 100, (y - 1) % 100;
    assert y == 100 * q + r + 1;
  }

  lemma QuotientStep400(y: int)
    ensures y / 400 == (y - 1) / 400 + (if y % 400 == 0 then 1 else 0)
  {
    var q, r := (y - 1) / 400, (y - 1) % 400;
    assert y == 400 * q + r + 1;
  }

  lemma LeapDivisors(y: int)
    ensures y % 400 == 0 ==> y % 100 == 0
    ensures y % 100 == 0 ==> y % 4 == 0
  {
    var q4, r4 := y / 400, y % 400;
    assert y == 100 * (4 * q4) + r4;
    var q1, r1 := y / 100, y % 100;
    assert y == 4 * (25 * q1) + r1;
  }

  lemma {:induction false} DaysBeforeYearMonotone(y: int, z: int)
    requires 1 <= y < z
    ensures DaysBeforeYear(y) + DaysInYear(y) <= DaysBeforeYear(z)
    decreases z - y
  {
    YearStep(y);
    if y + 1 < z {
      DaysBeforeYearMonotone(y + 1, z);
    }
  }

  lemma {:induction false} DaysBeforeMonthMonotone(y: int, m: int, n: int)
    requires 1 <= m < n <= 13
    ensures DaysBeforeMonth(y, m) + DaysInMonth(y, m) <= DaysBeforeMonth(y, n)
    decreases n - m
  {
    if m + 1 < n {
      DaysBeforeMonthMonotone(y, m + 1, n);
    }
  }

  /** A valid date's ordinal lies within its year. */
  lemma OrdinalInYear(d: Date)
    requires ValidDate(d)
    ensures DaysBeforeYear(d.year) < Ordinal(d) <= DaysBeforeYear(d.year) + DaysInYear(d.year)
  {
    DaysBeforeMonthMonotone(d.year, d.month, 13);
    DaysBeforeFullYear(d.year);
  }

  /** Comparing dates is comparing their day counts, so the day count is a
      faithful (strictly increasing) numbering of the calendar. */
  lemma BeforeIffOrdinal(a: Date, b: Date)
    requires ValidDate(a) && ValidDate(b)
    ensures Before(a, b) <==> Ordinal(a) < Ordinal(b)
    ensures a == b <==> Ordinal(a) == Ordinal(b)
  {
    if Before(a, b) {
      OrdinalLess(a, b);
    } else if a != b {
      OrdinalLess(b, a);
    }
  }

  lemma OrdinalLess(a: Date, b: Date)
    requires ValidDate(a) && ValidDate(b) && Before(a, b)
    ensures Ordinal(a) < Ordinal(b)
  {
    if a.year < b.year {
      OrdinalInYear(a);
      OrdinalInYear(b);
      DaysBeforeYearMonotone(a.year, b.year);
    } else if a.month < b.month {
      DaysBeforeMonthMonotone(a.year, a.month, b.month);
    }
  }

  // ---------------------------------------------------------------------
  // Successive days

  /** The day after `d` in the calendar. */
  function NextDay(d: Date): (e: Date)
    requires ValidDate(d) && d != Date(9999, 12, 31)
    ensures ValidDate(e) && Before(d, e)
  {
    if d.day < DaysInMonth(d.year, d.month) then Date(d.year, d.month, d.day + 1)
    else if d.month < 12 then Date(d.year, d.month + 1, 1)
    else Date(d.year + 1, 1, 1)
  }

  /** Consecutive calendar days have consecutive day counts. */
  lemma OrdinalNextDay(d: Date)
    requires ValidDate(d) && d != Date(9999, 12, 31)
    ensures Ordinal(NextDay(d)) == Ordinal(d) + 1
  {
    if d.day == DaysInMonth(d.year, d.month) && d.month == 12 {
      YearStep(d.year);
      DaysBeforeFullYear(d.year);
    }
  }

  /** The weekday advances by one, cyclically, from each day to the next. */
  lemma WeekdayNextDay(d: Date)
    requires ValidDate(d) && d != Date(9999, 12, 31)
    ensures Weekday(NextDay(d)) == (Weekday(d) + 1) % 7
  {
    OrdinalNextDay(d);
    var o := Ordinal(d);
    assert Weekday(NextDay(d)) == (o + 7) % 7;
    ModSevenStep(o);
  }

  lemma ModSevenStep(o: int)
    ensures (o + 7) % 7 == ((o + 6) % 7 + 1) % 7
  {
  }

  // ---------------------------------------------------------------------
  // Examples

  lemma ValueOfFour(s: string)
    requires |s| == 4 && AllDigits(s)
    ensures Value(s) == 1000 * DigitValue(s[0]) + 100 * DigitValue(s[1]) + 10 * DigitValue(s[2]) + DigitValue(s[3])
  {
    ValueOfTwo(s[..2]);
    assert s[..3][..2] == s[..2];
  }

  lemma ParseExample(s: string, d: Date)
    requires |s| == 10 && AllDigits(s[..4]) && AllDigits(s[5..7]) && AllDigits(s[8..]) && s[4] == '-' && s[7] == '-'
    requires d.year == 1000 * DigitValue(s[0]) + 100 * DigitValue(s[1]) + 10 * DigitValue(s[2]) + DigitValue(s[3])
    requires d.month == 10 * DigitValue(s[5]) + DigitValue(s[6])
    requires d.day == 10 * DigitValue(s[8]) + DigitValue(s[9])
    requires ValidDate(d)
    ensures ParseDate(s) == Some(d)
  {
    ValueOfFour(s[..4]);
    ValueOfTwo(s[5..7]);
    ValueOfTwo(s[8..]);
  }

  lemma ParseExamples()
    ensures ParseDate("2025-06-02") == Some(Date(2025, 6, 2))
    ensures ParseDate("2025-06-07") == Some(Date(2025, 6, 7))
  {
    ParseExample("2025-06-02", Date(2025, 6, 2));
    ParseExample("2025-06-07", Date(2025, 6, 7));
  }

  /** 0001-01-01 and 2025-06-02 are Mondays, 2025-06-07 a Saturday. */
  lemma WeekdayExamples()
    ensures Weekday(Date(1, 1, 1)) == 0
    ensures Weekday(Date(2025, 6, 2)) == 0
    ensures Weekday(Date(2025, 6, 7)) == 5
  {
  }
}
