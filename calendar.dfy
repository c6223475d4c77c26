/**
 * Calendar dates and whole-day differences, as Python's `datetime` computes
 * `(end - start).days` for two dates parsed with the format "%Y-%m-%d":
 * the difference of their proleptic-Gregorian day ordinals (0001-01-01 is
 * day 1), with no time-of-day and no time zone.
 */
module Calendar {

  /** A calendar triple, as read from a "YYYY-MM-DD" request field. */
  datatype Date = Date(year: int, month: int, day: int)

  predicate IsLeapYear(y: int) {
    y % 4 == 0 && (y % 100 != 0 || y % 400 == 0)
  }

  function DaysInMonth(y: int, m: int): (n: int)
    requires 1 <= m <= 12
    ensures 28 <= n <= 31
    ensures n == 29 <==> m == 2 && IsLeapYear(y)
  {
    if m == 2 then (if IsLeapYear(y) then 29 else 28)
    else if m == 4 || m == 6 || m == 9 || m == 11 then 30
    else 31
  }

  function DaysInYear(y: int): int {
    if IsLeapYear(y) then 366 else 365
  }

  /** The dates `strptime` accepts: years 1 to 9999, a real month and day. */
  predicate ValidDate(d: Date) {
    && 1 <= d.year <= 9999
    && 1 <= d.month <= 12
    && 1 <= d.day <= DaysInMonth(d.year, d.month)
  }

  /** Days in the years before `y`, Python's `_days_before_year`. */
  function DaysBeforeYear(y: int): int
    requires 1 <= y
  {
    var n := y - 1;
    n * 365 + n / 4 - n / 100 + n / 400
  }

  /** Days in the months of year `y` before month `m` (13 stands for the year's end),
    * Python's cumulative table plus one day after February in a leap year. */
  function DaysBeforeMonth(y: int, m: int): int
    requires 1 <= m <= 13
  {
    var table := [0, 0, 31, 59, 90, 120, 151, 181, 212, 243, 273, 304, 334, 365];
    table[m] + (if m > 2 && IsLeapYear(y) then 1 else 0)
  }

  /** The ordinal of 9999-12-31, the last date `strptime` accepts (`date.max.toordinal()`). */
  const MaxOrdinal := 3652059

  /**
   * The proleptic-Gregorian ordinal of a date, Python's `date.toordinal()`:
   * 0001-01-01 is day 1 and every valid date lies between it and 9999-12-31.
   */
  function Ordinal(d: Date): (r: int)
    requires ValidDate(d)
    ensures 1 <= r <= MaxOrdinal
  {
    OrdinalBounds(d);
    DaysBeforeYear(d.year) + DaysBeforeMonth(d.year, d.month) + d.day
  }

  /**
   * `(end - start).days` for two parsed dates. It is zero exactly for equal
   * dates, and no two valid dates are further apart than the calendar range.
   */
  function DaysBetween(start: Date, end: Date): (r: int)
    requires ValidDate(start) && ValidDate(end)
    ensures r == 0 <==> start == end
    ensures -(MaxOrdinal - 1) <= r <= MaxOrdinal - 1
  {
    OrdinalInjective(start, end);
    Ordinal(end) - Ordinal(start)
  }

  /** Calendar order: `a` is a strictly earlier date than `b`. */
  predicate Before(a: Date, b: Date) {
    || a.year < b.year
    || (a.year == b.year && a.month < b.month)
    || (a.year == b.year && a.month == b.month && a.day < b.day)
  }

  /** Each month adds exactly its own length to the running total. */
  lemma MonthStep(y: int, m: int)
    requires 1 <= m <= 12
    ensures DaysBeforeMonth(y, m + 1) == DaysBeforeMonth(y, m) + DaysInMonth(y, m)
    ensures DaysBeforeMonth(y, 13) == DaysInYear(y)
  {
  }

  /** Each year adds exactly its own length to the running total. */
  lemma YearStep(y: int)
    requires 1 <= y
    ensures DaysBeforeYear(y + 1) == DaysBeforeYear(y) + DaysInYear(y)
  {
    var n := y - 1;
    QuotientStep4(n);
    QuotientStep100(n);
    QuotientStep400(n);
  }

  lemma QuotientStep4(n: nat)
    ensures (n + 1) / 4 == n / 4 + (if (n + 1) % 4 == 0 then 1 else 0)
  {
  }

  lemma QuotientStep100(n: nat)
    ensures (n + 1) / 100 == n / 100 + (if (n + 1) % 100 == 0 then 1 else 0)
  {
  }

  lemma QuotientStep400(n: nat)
    ensures (n + 1) / 400 == n / 400 + (if (n + 1) % 400 == 0 then 1 else 0)
  {
  }

  /** Every earlier year ends before a later year begins. */
  lemma {:induction false} YearsIncrease(a: int, b: int)
    requires 1 <= a < b
    ensures DaysBeforeYear(a) + DaysInYear(a) <= DaysBeforeYear(b)
    decreases b - a
  {
    YearStep(a);
    if a + 1 < b {
      YearsIncrease(a + 1, b);
    }
  }

  /** Within one year, every earlier month ends before a later month begins. */
  lemma MonthsIncrease(y: int, a: int, b: int)
    requires 1 <= a < b <= 13
    ensures DaysBeforeMonth(y, a) + DaysInMonth(y, a) <= DaysBeforeMonth(y, b)
  {
  }

  /** The ordinal respects calendar order. */
  lemma OrdinalIncreasing(a: Date, b: Date)
    requires ValidDate(a) && ValidDate(b)
    requires Before(a, b)
    ensures Ordinal(a) < Ordinal(b)
  {
    if a.year < b.year {
      MonthsIncrease(a.year, a.month, 13);
      MonthStep(a.year, 12);
      YearsIncrease(a.year, b.year);
    } else if a.month < b.month {
      MonthsIncrease(a.year, a.month, b.month);
    }
  }

  /** Distinct dates have distinct ordinals. */
  lemma OrdinalInjective(a: Date, b: Date)
    requires ValidDate(a) && ValidDate(b)
    ensures a != b ==> Ordinal(a) != Ordinal(b)
  {
    if Before(a, b) {
      OrdinalIncreasing(a, b);
    } else if a != b {
      assert Before(b, a);
      OrdinalIncreasing(b, a);
    }
  }

  /** The ordinal of a valid date lies between that of 0001-01-01 and that of 9999-12-31. */
  lemma OrdinalBounds(d: Date)
    requires ValidDate(d)
    ensures 1 <= DaysBeforeYear(d.year) + DaysBeforeMonth(d.year, d.month) + d.day <= MaxOrdinal
  {
    var n := d.year - 1;
    assert n / 100 <= n / 4;
    MonthsIncrease(d.year, d.month, 13);
    MonthStep(d.year, 12);
    if d.year < 9999 {
      YearsIncrease(d.year, 9999);
    }
  }

  /**
   * The day difference is at least one exactly when the end date lies
   * strictly after the start date in the calendar: equal dates give 0 and an
   * end before the start gives a negative count.
   */
  lemma DaysBetweenPositive(start: Date, end: Date)
    requires ValidDate(start) && ValidDate(end)
    ensures DaysBetween(start, end) >= 1 <==> Before(start, end)
  {
    if Before(start, end) {
      OrdinalIncreasing(start, end);
    } else if start != end {
      assert Before(end, start);
      OrdinalIncreasing(end, start);
    }
  }

  /** The calendar date after `d`; 9999-12-31 has none. */
  function NextDay(d: Date): (r: Date)
    requires ValidDate(d) && d != Date(9999, 12, 31)
    ensures ValidDate(r) && Before(d, r)
  {
    if d.day < DaysInMonth(d.year, d.month) then Date(d.year, d.month, d.day + 1)
    else if d.month < 12 then Date(d.year, d.month + 1, 1)
    else Date(d.year + 1, 1, 1)
  }

  /** Consecutive calendar dates are exactly one day apart, across month and year ends. */
  lemma NextDayIsOneDay(d: Date)
    requires ValidDate(d) && d != Date(9999, 12, 31)
    ensures DaysBetween(d, NextDay(d)) == 1
  {
    MonthStep(d.year, d.month);
    if d.day == DaysInMonth(d.year, d.month) && d.month == 12 {
      YearStep(d.year);
    }
  }

  /** 2024-01-01 to 2024-01-04 is three days. */
  lemma ThreeDayExample()
    ensures ValidDate(Date(2024, 1, 1)) && ValidDate(Date(2024, 1, 4))
    ensures DaysBetween(Date(2024, 1, 1), Date(2024, 1, 4)) == 3
  {
  }
}
