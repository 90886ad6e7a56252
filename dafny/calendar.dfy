/**
  * Proleptic Gregorian calendar dates as Python's `datetime.date` treats them:
  * years 1 through 9999, comparisons in calendar order, day differences as
  * differences of ordinals (`date.toordinal`), `relativedelta(years=1)` and
  * `timedelta(days=n)` arithmetic that fails past the last representable day.
  */
module Calendar {
  import opened Wrappers

  datatype Date = Date(year: int, month: int, day: int)

  predicate IsLeap(y: int) {
    y % 4 == 0 && (y % 100 != 0 || y % 400 == 0)
  }

  function DaysInMonth(y: int, m: int): (n: int)
    requires 1 <= m <= 12
    ensures 28 <= n <= 31
  {
    if m == 2 then (if IsLeap(y) then 29 else 28)
    else if m == 4 || m == 6 || m == 9 || m == 11 then 30
    else 31
  }

  function DaysInYear(y: int): int {
    if IsLeap(y) then 366 else 365
  }

  /** A date Python can represent. */
  predicate Valid(d: Date) {
    1 <= d.year <= 9999 && 1 <= d.month <= 12 && 1 <= d.day <= DaysInMonth(d.year, d.month)
  }

  /** The last representable day, `date.max`. */
  const Last := Date(9999, 12, 31)

  /** Strict calendar order (Python's `<` on dates). */
  predicate Before(a: Date, b: Date) {
    a.year < b.year ||
    (a.year == b.year && (a.month < b.month || (a.month == b.month && a.day < b.day)))
  }

  /** Python's `<=` on dates. */
  predicate AtOrBefore(a: Date, b: Date) {
    Before(a, b) || a == b
  }

  /** Days in the years before `y`, Python's `_days_before_year`. */
  function DaysBeforeYear(y: int): int
    requires y >= 1
  {
    var p := y - 1;
    365 * p + p / 4 - p / 100 + p / 400
  }

  /** Days in the months of year `y` before month `m`, Python's `_days_before_month`. */
  function DaysBeforeMonth(y: int, m: int): int
    requires 1 <= m <= 12
  {
    var common :=
      if m == 1 then 0 else if m == 2 then 31 else if m == 3 then 59
      else if m == 4 then 90 else if m == 5 then 120 else if m == 6 then 151
      else if m == 7 then 181 else if m == 8 then 212 else if m == 9 then 243
      else if m == 10 then 273 else if m == 11 then 304 else 334;
    common + (if m > 2 && IsLeap(y) then 1 else 0)
  }

  /** `date.toordinal`: 0001-01-01 is day 1. */
  function Ordinal(d: Date): int
    requires Valid(d)
  {
    DaysBeforeYear(d.year) + DaysBeforeMonth(d.year, d.month) + d.day
  }

  /** `(b - a).days` for two dates. */
  function DaysBetween(a: Date, b: Date): int
    requires Valid(a) && Valid(b)
  {
    Ordinal(b) - Ordinal(a)
  }

  /** Stepping from `y - 1` to `y` adds one leap day of each kind exactly
      when its divisor divides `y`. */
  lemma QuadStep(y: int)
    requires y >= 1
    ensures y / 4 - (y - 1) / 4 == if y % 4 == 0 then 1 else 0
  {
    var q, r := (y - 1) / 4, (y - 1) % 4;
    if r == 3 {
      assert y == 4 * (q + 1);
    } else {
      assert y == 4 * q + (r + 1);
    }
  }

  lemma CenturyStep(y: int)
    requires y >= 1
    ensures y / 100 - (y - 1) / 100 == if y % 100 == 0 then 1 else 0
    ensures y % 100 == 0 ==> y % 4 == 0
  {
    var q, r := (y - 1) / 100, (y - 1) % 100;
    if r == 99 {
      assert y == 100 * (q + 1);
      assert y == 4 * (25 * (q + 1));
    } else {
      assert y == 100 * q + (r + 1);
    }
  }

  lemma QuadCenturyStep(y: int)
    requires y >= 1
    ensures y / 400 - (y - 1) / 400 == if y % 400 == 0 then 1 else 0
    ensures y % 400 == 0 ==> y % 100 == 0
  {
    var q, r := (y - 1) / 400, (y - 1) % 400;
    if r == 399 {
      assert y == 400 * (q + 1);
      assert y == 100 * (4 * (q + 1));
    } else {
      assert y == 400 * q + (r + 1);
    }
  }

  lemma YearStep(y: int)
    requires y >= 1
    ensures DaysBeforeYear(y + 1) == DaysBeforeYear(y) + DaysInYear(y)
  {
    QuadStep(y);
    CenturyStep(y);
    QuadCenturyStep(y);
  }

  lemma MonthStep(y: int, m: int)
    requires 1 <= m < 12
    ensures DaysBeforeMonth(y, m + 1) == DaysBeforeMonth(y, m) + DaysInMonth(y, m)
  {
  }

  lemma YearFull(y: int)
    ensures DaysBeforeMonth(y, 12) + DaysInMonth(y, 12) == DaysInYear(y)
  {
  }

  /** Every day of year `y` has an ordinal inside that year's block of days. */
  lemma OrdinalWithinYear(d: Date)
    requires Valid(d)
    ensures DaysBeforeYear(d.year) < Ordinal(d) <= DaysBeforeYear(d.year) + DaysInYear(d.year)
  {
    var m := d.month;
    assert DaysBeforeMonth(d.year, m) + DaysInMonth(d.year, m) <= DaysInYear(d.year) by {
      var k := m;
      while k < 12
        invariant m <= k <= 12
        invariant DaysBeforeMonth(d.year, m) + DaysInMonth(d.year, m) <= DaysBeforeMonth(d.year, k) + DaysInMonth(d.year, k)
      {
        MonthStep(d.year, k);
        k := k + 1;
      }
      YearFull(d.year);
    }
  }

  lemma {:induction false} YearsIncrease(y1: int, y2: int)
    requires 1 <= y1 < y2
    ensures DaysBeforeYear(y1) + DaysInYear(y1) <= DaysBeforeYear(y2)
    decreases y2 - y1
  {
    YearStep(y1);
    if y1 + 1 < y2 {
      YearsIncrease(y1 + 1, y2);
    }
  }

  lemma {:induction false} MonthsIncrease(y: int, m1: int, m2: int)
    requires 1 <= m1 < m2 <= 12
    ensures DaysBeforeMonth(y, m1) + DaysInMonth(y, m1) <= DaysBeforeMonth(y, m2)
    decreases m2 - m1
  {
    MonthStep(y, m1);
    if m1 + 1 < m2 {
      MonthsIncrease(y, m1 + 1, m2);
    }
  }

  /** Calendar order and ordinal order agree: one date is before another
      exactly when its ordinal is smaller. */
  lemma BeforeIffSmallerOrdinal(a: Date, b: Date)
    requires Valid(a) && Valid(b)
    ensures Before(a, b) <==> Ordinal(a) < Ordinal(b)
    ensures a == b <==> Ordinal(a) == Ordinal(b)
  {
    if Before(a, b) {
      OrdinalIncreases(a, b);
    } else if a != b {
      assert Before(b, a);
      OrdinalIncreases(b, a);
    }
  }

  lemma OrdinalIncreases(a: Date, b: Date)
    requires Valid(a) && Valid(b) && Before(a, b)
    ensures Ordinal(a) < Ordinal(b)
  {
    if a.year < b.year {
      OrdinalWithinYear(a);
      OrdinalWithinYear(b);
      YearsIncrease(a.year, b.year);
    } else if a.month < b.month {
      MonthsIncrease(a.year, a.month, b.month);
    }
  }

  lemma AtOrBeforeIffOrdinal(a: Date, b: Date)
    requires Valid(a) && Valid(b)
    ensures AtOrBefore(a, b) <==> Ordinal(a) <= Ordinal(b)
  {
    BeforeIffSmallerOrdinal(a, b);
  }

  /** No representable day lies after `date.max`. */
  lemma AtOrBeforeLast(d: Date)
    requires Valid(d)
    ensures AtOrBefore(d, Last) && Ordinal(d) <= Ordinal(Last)
  {
    AtOrBeforeIffOrdinal(d, Last);
  }

  /**
    * `d + relativedelta(years=1)`: same month and day one year later, the day
    * clamped to the length of that month; Python raises past year 9999.
    */
  function AddOneYear(d: Date): (r: Option<Date>)
    requires Valid(d)
    ensures r.Some? <==> d.year < 9999
    ensures r.Some? ==> Valid(r.value) && Before(d, r.value)
    ensures r.Some? ==> r.value == if d.month == 2 && d.day == 29 then Date(d.year + 1, 2, 28)
                                   else Date(d.year + 1, d.month, d.day)
  {
    if d.year >= 9999 then None
    else
      var days := DaysInMonth(d.year + 1, d.month);
      assert d.month == 2 && d.day == 29 ==> IsLeap(d.year) && !IsLeap(d.year + 1);
      Some(Date(d.year + 1, d.month, if d.day <= days then d.day else days))
  }

  /** A year added with `relativedelta` is 365 or 366 days long. */
  lemma OneYearLength(d: Date)
    requires Valid(d) && d.year < 9999
    ensures 365 <= DaysBetween(d, AddOneYear(d).value) <= 366
  {
    YearStep(d.year);
  }

  /** The following calendar day (which may fall past `date.max`). */
  function NextDay(d: Date): (r: Date)
    requires Valid(d)
    ensures d != Last <==> r.year <= 9999
    ensures d != Last ==> Valid(r) && Ordinal(r) == Ordinal(d) + 1
  {
    if d.day < DaysInMonth(d.year, d.month) then Date(d.year, d.month, d.day + 1)
    else if d.month < 12 then
      MonthStep(d.year, d.month);
      Date(d.year, d.month + 1, 1)
    else
      YearFull(d.year);
      YearStep(d.year);
      Date(d.year + 1, 1, 1)
  }

  /** `d + timedelta(days=n)`; `None` where Python raises OverflowError. */
  function AddDays(d: Date, n: nat): (r: Option<Date>)
    requires Valid(d)
    ensures r.Some? <==> Ordinal(d) + n <= Ordinal(Last)
    ensures r.Some? ==> Valid(r.value) && Ordinal(r.value) == Ordinal(d) + n
    decreases n
  {
    AtOrBeforeLast(d);
    if n == 0 then Some(d)
    else if d == Last then None
    else AddDays(NextDay(d), n - 1)
  }
}
