/**
 Proleptic Gregorian civil dates as Python's `datetime.date` handles them:
 year 1 to 9999, the leap-year rule, the day count of each month, the
 ordinal day number (`date.toordinal()`) and the one-day step that
 `+ timedelta(days=1)` performs on a date.
 */
module Calendar {

  /** A calendar date with no time of day and no time zone. */
  datatype Date = Date(year: int, month: int, day: int)

  /** Python's MINYEAR and MAXYEAR. */
  const MinYear := 1
  const MaxYear := 9999

  /** The last representable day; one more day raises OverflowError. */
  const MaxDate := Date(MaxYear, 12, 31)

  predicate IsLeap(y: int) {
    y % 4 == 0 && (y % 100 != 0 || y % 400 == 0)
  }

  function DaysInYear(y: int): int {
    if IsLeap(y) then 366 else 365
  }

  function DaysInMonth(y: int, m: int): (n: int)
    requires 1 <= m <= 12
    ensures 28 <= n <= 31
    ensures n == 29 <==> m == 2 && IsLeap(y)
    ensures n == 28 <==> m == 2 && !IsLeap(y)
  {
    if m == 2 then (if IsLeap(y) then 29 else 28)
    else if m == 4 || m == 6 || m == 9 || m == 11 then 30
    else 31
  }

  /** The dates `datetime.date(year, month, day)` accepts. */
  predicate ValidDate(d: Date) {
    MinYear <= d.year <= MaxYear && 1 <= d.month <= 12 && 1 <= d.day <= DaysInMonth(d.year, d.month)
  }

  /** Python compares dates as (year, month, day) tuples. */
  predicate DateLess(a: Date, b: Date) {
    a.year < b.year || (a.year == b.year && (a.month < b.month || (a.month == b.month && a.day < b.day)))
  }

  /** Days in the years 1 to `y - 1`. */
  function DaysBeforeYear(y: int): (n: int)
    requires y >= 1
    ensures 365 * (y - 1) <= n <= 366 * (y - 1)
  {
    if y == 1 then 0 else DaysBeforeYear(y - 1) + DaysInYear(y - 1)
  }

  /** Days in the months of year `y` before month `m`. */
  function DaysBeforeMonth(y: int, m: int): int
    requires 1 <= m <= 12
  {
    var common :=
      if m == 1 then 0 else if m == 2 then 31 else if m == 3 then 59
      else if m == 4 then 90 else if m == 5 then 120 else if m == 6 then 151
      else if m == 7 then 181 else if m == 8 then 212 else if m == 9 then 243
      else if m == 10 then 273 else if m == 11 then 304 else 334;
    common + (if m > 2 && IsLeap(y) then 1 else 0)
  }

  /** `date.toordinal()`: 0001-01-01 is day 1. */
  function Ordinal(d: Date): (n: int)
    requires ValidDate(d)
    ensures 1 <= n
    ensures DaysBeforeYear(d.year) < n
  {
    DaysBeforeYear(d.year) + DaysBeforeMonth(d.year, d.month) + d.day
  }

  /** Going from `y - 1` to `y` adds one to `y / 4`, `y / 100`, `y / 400` exactly when the divisor divides `y`. */
  lemma QuotientSteps(y: int)
    requires y >= 1
    ensures y / 4 == (y - 1) / 4 + (if y % 4 == 0 then 1 else 0)
    ensures y / 100 == (y - 1) / 100 + (if y % 100 == 0 then 1 else 0)
    ensures y / 400 == (y - 1) / 400 + (if y % 400 == 0 then 1 else 0)
  {
  }

  lemma DaysBeforeYearStep(y: int)
    requires y >= 1
    ensures DaysBeforeYear(y + 1) == DaysBeforeYear(y) + DaysInYear(y)
  {
  }

  /** The three divisibility tests of the closed form net out to the leap-year rule. */
  lemma LeapCount(z: int)
    ensures (if z % 4 == 0 then 1 else 0) - (if z % 100 == 0 then 1 else 0) + (if z % 400 == 0 then 1 else 0)
            == (if IsLeap(z) then 1 else 0)
  {
    if z % 400 == 0 {
      var q := z / 400;
      assert z / 100 == 4 * q && z % 100 == 0;
      assert z / 4 == 100 * q && z % 4 == 0;
    } else if z % 100 == 0 {
      var q := z / 100;
      assert z / 4 == 25 * q && z % 4 == 0;
    }
  }

  /** The recursive count agrees with the closed form Python's `_days_before_year` uses. */
  lemma {:induction false} DaysBeforeYearClosedForm(y: int)
    requires y >= 1
    ensures DaysBeforeYear(y) == (y - 1) * 365 + (y - 1) / 4 - (y - 1) / 100 + (y - 1) / 400
  {
    if y > 1 {
      var z := y - 1;
      DaysBeforeYearClosedForm(z);
      QuotientSteps(z);
      LeapCount(z);
      assert DaysBeforeYear(y) == DaysBeforeYear(z) + DaysInYear(z);
    }
  }

  lemma DaysBeforeMonthStep(y: int, m: int)
    requires 1 <= m < 12
    ensures DaysBeforeMonth(y, m + 1) == DaysBeforeMonth(y, m) + DaysInMonth(y, m)
  {
  }

  lemma LastMonthEndsYear(y: int)
    ensures DaysBeforeMonth(y, 12) + DaysInMonth(y, 12) == DaysInYear(y)
  {
  }

  /** The date that `d + timedelta(days=1)` yields: the day with the next ordinal. */
  function NextDay(d: Date): (r: Date)
    requires ValidDate(d) && d != MaxDate
    ensures ValidDate(r) && Ordinal(r) == Ordinal(d) + 1
    ensures DateLess(d, r)
  {
    if d.day < DaysInMonth(d.year, d.month) then
      Date(d.year, d.month, d.day + 1)
    else if d.month < 12 then
      DaysBeforeMonthStep(d.year, d.month);
      Date(d.year, d.month + 1, 1)
    else
      LastMonthEndsYear(d.year);
      DaysBeforeYearStep(d.year);
      Date(d.year + 1, 1, 1)
  }

  lemma {:induction false} DaysBeforeYearGrows(y1: int, y2: int)
    requires 1 <= y1 < y2
    ensures DaysBeforeYear(y1) + DaysInYear(y1) <= DaysBeforeYear(y2)
    decreases y2 - y1
  {
    DaysBeforeYearStep(y1);
    if y1 + 1 < y2 {
      DaysBeforeYearGrows(y1 + 1, y2);
    }
  }

  lemma DaysBeforeMonthGrows(y: int, m1: int, m2: int)
    requires 1 <= m1 < m2 <= 12
    ensures DaysBeforeMonth(y, m1) + DaysInMonth(y, m1) <= DaysBeforeMonth(y, m2)
  {
  }

  lemma MonthFitsInYear(y: int, m: int)
    requires 1 <= m <= 12
    ensures DaysBeforeMonth(y, m) + DaysInMonth(y, m) <= DaysInYear(y)
  {
  }

  /** The ordinal is strictly monotone: Python's tuple order on dates and its day numbering agree. */
  lemma OrdinalOrder(a: Date, b: Date)
    requires ValidDate(a) && ValidDate(b)
    ensures DateLess(a, b) <==> Ordinal(a) < Ordinal(b)
    ensures a == b <==> Ordinal(a) == Ordinal(b)
  {
    if DateLess(a, b) {
      OrdinalBelow(a, b);
    } else if DateLess(b, a) {
      OrdinalBelow(b, a);
    }
  }

  lemma OrdinalBelow(a: Date, b: Date)
    requires ValidDate(a) && ValidDate(b) && DateLess(a, b)
    ensures Ordinal(a) < Ordinal(b)
  {
    if a.year < b.year {
      MonthFitsInYear(a.year, a.month);
      DaysBeforeYearGrows(a.year, b.year);
    } else if a.month < b.month {
      DaysBeforeMonthGrows(a.year, a.month, b.month);
    }
  }

  /** No valid date lies strictly between `d` and `NextDay(d)`, so stepping visits every day once. */
  lemma NextDayIsSuccessor(d: Date, x: Date)
    requires ValidDate(d) && d != MaxDate && ValidDate(x)
    ensures DateLess(x, NextDay(d)) <==> DateLess(x, d) || x == d
  {
    OrdinalOrder(x, NextDay(d));
    OrdinalOrder(x, d);
  }

  /** Python's MAXORDINAL, the ordinal of 9999-12-31. */
  const MaxOrdinal := 3652059

  lemma MaxOrdinalIsLastDay()
    ensures Ordinal(MaxDate) == MaxOrdinal && Ordinal(Date(MinYear, 1, 1)) == 1
  {
    DaysBeforeYearClosedForm(MaxYear);
  }

  /** Every valid date lies in 0001-01-01 .. 9999-12-31, so its ordinal is at most MAXORDINAL. */
  lemma MaxDateIsLast(d: Date)
    requires ValidDate(d)
    ensures d == MaxDate || DateLess(d, MaxDate)
    ensures Ordinal(d) <= MaxOrdinal
  {
    MonthFitsInYear(d.year, d.month);
    DaysBeforeYearStep(d.year);
    DaysBeforeYearClosedForm(d.year + 1);
  }
}
