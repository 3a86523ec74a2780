/** Proleptic Gregorian dates as Python's `datetime.date` computes them:
    a date is (year, month, day) in 0001-01-01..9999-12-31, its ordinal
    counts days from 0001-01-01 (ordinal 1), and `weekday()` and
    `date + timedelta` are integer arithmetic on that ordinal. */
module Dates {

  const MinYear := 1
  const MaxYear := 9999
  /** `date.max.toordinal()`, the ordinal of 9999-12-31. */
  const MaxOrdinal := 3652059

  datatype Date = Date(year: int, month: int, day: int)

  const MinDate := Date(1, 1, 1)
  const MaxDate := Date(9999, 12, 31)

  predicate IsLeap(y: int) {
    y % 4 == 0 && (y % 100 != 0 || y % 400 == 0)
  }

  /** The Gregorian rule: every fourth year, except centuries not divisible
      by 400. */
  lemma LeapYears()
    ensures IsLeap(2024) && !IsLeap(2023) && !IsLeap(1900) && IsLeap(2000)
  {
  }

  function DaysInYear(y: int): int {
    if IsLeap(y) then 366 else 365
  }

  /** The second half of `calendar.monthrange(year, month)`. */
  function DaysInMonth(y: int, m: int): (n: int)
    requires 1 <= m <= 12
    ensures 28 <= n <= 31
    ensures m == 2 ==> (n == 29 <==> IsLeap(y))
    ensures m != 2 ==> (n == 30 <==> m in {4, 6, 9, 11})
  {
    if m == 2 then (if IsLeap(y) then 29 else 28)
    else if m in {4, 6, 9, 11} then 30
    else 31
  }

  /** The range `date(year, month, day)` accepts without raising. */
  predicate Valid(x: Date) {
    && MinYear <= x.year <= MaxYear
    && 1 <= x.month <= 12
    && 1 <= x.day <= DaysInMonth(x.year, x.month)
  }

  /** Days in the years before `y`, as in `_days_before_year`. */
  function DaysBeforeYear(y: int): int
    requires y >= 1
  {
    var k := y - 1;
    k * 365 + k / 4 - k / 100 + k / 400
  }

  /** Days in the months of `y` before `m`, as in `_days_before_month`. */
  function DaysBeforeMonth(y: int, m: int): int
    requires 1 <= m <= 12
  {
    [0, 31, 59, 90, 120, 151, 181, 212, 243, 273, 304, 334][m - 1]
      + (if m > 2 && IsLeap(y) then 1 else 0)
  }

  /** `date.toordinal()`. */
  function Ordinal(x: Date): int
    requires Valid(x)
  {
    DaysBeforeYear(x.year) + DaysBeforeMonth(x.year, x.month) + x.day
  }

  /** `date.weekday()`: Monday is 0 and Sunday is 6. */
  function Weekday(x: Date): (w: int)
    requires Valid(x)
    ensures 0 <= w < 7
  {
    (Ordinal(x) + 6) % 7
  }

  /** Strict chronological order on the fields, year first. */
  predicate Before(a: Date, b: Date) {
    || a.year < b.year
    || (a.year == b.year && a.month < b.month)
    || (a.year == b.year && a.month == b.month && a.day < b.day)
  }

  lemma MaxDateOrdinal()
    ensures Valid(MaxDate) && Ordinal(MaxDate) == MaxOrdinal
  {
    assert DaysBeforeYear(9999) == 3651694 by {
      assert 9998 / 4 == 2499 && 9998 / 100 == 99 && 9998 / 400 == 24;
    }
  }

  lemma MinDateOrdinal()
    ensures Valid(MinDate) && Ordinal(MinDate) == 1 && Weekday(MinDate) == 0
  {
    assert DaysBeforeYear(1) == 0 && DaysBeforeMonth(1, 1) == 0;
    assert (1 + 6) % 7 == 0;
  }

  /** The ordinal just past the last date, where `date + timedelta` overflows. */
  lemma YearPastMax()
    ensures DaysBeforeYear(MaxYear + 1) == MaxOrdinal
  {
    assert DaysBeforeYear(10000) == MaxOrdinal by {
      assert 9999 / 4 == 2499 && 9999 / 100 == 99 && 9999 / 400 == 24;
    }
  }

  lemma MonthStep(y: int, m: int)
    requires 1 <= m <= 11
    ensures DaysBeforeMonth(y, m + 1) == DaysBeforeMonth(y, m) + DaysInMonth(y, m)
  {
  }

  lemma YearEnd(y: int)
    ensures DaysBeforeMonth(y, 12) + DaysInMonth(y, 12) == DaysInYear(y)
  {
  }

  lemma DivStep(k: int)
    requires k >= 0
    ensures (k + 1) / 4 == k / 4 + (if (k + 1) % 4 == 0 then 1 else 0)
    ensures (k + 1) / 100 == k / 100 + (if (k + 1) % 100 == 0 then 1 else 0)
    ensures (k + 1) / 400 == k / 400 + (if (k + 1) % 400 == 0 then 1 else 0)
  {
  }

  /** A year contributes its own length to the ordinal of the next one. */
  lemma YearStep(y: int)
    requires y >= 1
    ensures DaysBeforeYear(y + 1) == DaysBeforeYear(y) + DaysInYear(y)
  {
    DivStep(y - 1);
  }

  lemma {:induction false} DaysBeforeYearMonotone(y1: int, y2: int)
    requires 1 <= y1 <= y2
    ensures DaysBeforeYear(y1) <= DaysBeforeYear(y2)
    decreases y2 - y1
  {
    if y1 < y2 {
      YearStep(y1);
      DaysBeforeYearMonotone(y1 + 1, y2);
    }
  }

  lemma {:induction false} DaysBeforeMonthMonotone(y: int, m1: int, m2: int)
    requires 1 <= m1 < m2 <= 12
    ensures DaysBeforeMonth(y, m1) + DaysInMonth(y, m1) <= DaysBeforeMonth(y, m2)
    decreases m2 - m1
  {
    MonthStep(y, m1);
    if m1 + 1 < m2 {
      DaysBeforeMonthMonotone(y, m1 + 1, m2);
    }
  }

  /** Every day of a year lies inside that year's share of the ordinals. */
  lemma WithinYear(x: Date)
    requires Valid(x)
    ensures DaysBeforeYear(x.year) < Ordinal(x) <= DaysBeforeYear(x.year) + DaysInYear(x.year)
  {
    YearEnd(x.year);
    if x.month < 12 {
      DaysBeforeMonthMonotone(x.year, x.month, 12);
    }
  }

  /** The ordinal follows the chronological order of the fields. */
  lemma OrdinalMonotone(a: Date, b: Date)
    requires Valid(a) && Valid(b) && Before(a, b)
    ensures Ordinal(a) < Ordinal(b)
  {
    if a.year < b.year {
      WithinYear(a);
      WithinYear(b);
      YearStep(a.year);
      DaysBeforeYearMonotone(a.year + 1, b.year);
    } else if a.month < b.month {
      DaysBeforeMonthMonotone(a.year, a.month, b.month);
    }
  }

  /** Two valid dates are ordered like their ordinals; in particular the
      ordinal identifies the date. */
  lemma OrdinalOrder(a: Date, b: Date)
    requires Valid(a) && Valid(b)
    ensures Before(a, b) <==> Ordinal(a) < Ordinal(b)
    ensures a == b <==> Ordinal(a) == Ordinal(b)
  {
    if Before(a, b) {
      OrdinalMonotone(a, b);
    } else if Before(b, a) {
      OrdinalMonotone(b, a);
    }
  }

  lemma OrdinalBounds(x: Date)
    requires Valid(x)
    ensures 1 <= Ordinal(x) <= MaxOrdinal
  {
    DaysBeforeYearMonotone(1, x.year);
    WithinYear(x);
    YearStep(x.year);
    DaysBeforeYearMonotone(x.year + 1, MaxYear + 1);
    YearPastMax();
  }

  /** Moving within a month moves the ordinal by the same number of days. */
  lemma SameMonth(x: Date, d: int)
    requires Valid(x) && 1 <= d <= DaysInMonth(x.year, x.month)
    ensures Valid(Date(x.year, x.month, d))
    ensures Ordinal(Date(x.year, x.month, d)) == Ordinal(x) - x.day + d
  {
  }

  /** `x + timedelta(days=1)` for every date but the last one. */
  function NextDay(x: Date): (r: Date)
    requires Valid(x) && x != MaxDate
    ensures Valid(r) && Ordinal(r) == Ordinal(x) + 1
  {
    if x.day < DaysInMonth(x.year, x.month) then
      Date(x.year, x.month, x.day + 1)
    else if x.month < 12 then
      MonthStep(x.year, x.month);
      Date(x.year, x.month + 1, 1)
    else
      YearEnd(x.year);
      YearStep(x.year);
      Date(x.year + 1, 1, 1)
  }

  /** `x - timedelta(days=1)` for every date but the first one. */
  function PrevDay(x: Date): (r: Date)
    requires Valid(x) && x != MinDate
    ensures Valid(r) && Ordinal(r) == Ordinal(x) - 1
  {
    if x.day > 1 then
      Date(x.year, x.month, x.day - 1)
    else if x.month > 1 then
      MonthStep(x.year, x.month - 1);
      Date(x.year, x.month - 1, DaysInMonth(x.year, x.month - 1))
    else
      YearEnd(x.year - 1);
      YearStep(x.year - 1);
      Date(x.year - 1, 12, 31)
  }

  /** `x + timedelta(days=n)` when the result is representable. */
  function AddDays(x: Date, n: int): (r: Date)
    requires Valid(x) && 1 <= Ordinal(x) + n <= MaxOrdinal
    ensures Valid(r) && Ordinal(r) == Ordinal(x) + n
  {
    if n >= 0 then Forward(x, n) else Backward(x, -n)
  }

  function Forward(x: Date, n: nat): (r: Date)
    requires Valid(x) && Ordinal(x) + n <= MaxOrdinal
    ensures Valid(r) && Ordinal(r) == Ordinal(x) + n
    decreases n
  {
    if n == 0 then x
    else
      assert x != MaxDate by { MaxDateOrdinal(); }
      Forward(NextDay(x), n - 1)
  }

  function Backward(x: Date, n: nat): (r: Date)
    requires Valid(x) && 1 <= Ordinal(x) - n
    ensures Valid(r) && Ordinal(r) == Ordinal(x) - n
    decreases n
  {
    if n == 0 then x
    else
      assert x != MinDate by { MinDateOrdinal(); }
      Backward(PrevDay(x), n - 1)
  }
}
