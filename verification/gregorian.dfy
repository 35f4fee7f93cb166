/**
 * The proleptic Gregorian calendar that `java.util.GregorianCalendar` computes
 * with, as day numbers: day 0 is 1970-01-01 and every day is one more than the
 * day before.  Months are counted by a month index `12 * year + (month - 1)`,
 * weeks run Monday to Sunday, and week 1 of a year is the first week with at
 * least four of its days in that year (ISO 8601:2004 section 4.1.4).  Adding
 * months or years pins the day of the month to the target month's length, as
 * `Calendar.add` does.
 */
module Gregorian {
  import opened Wrappers

  predicate IsLeap(y: int) {
    y % 4 == 0 && (y % 100 != 0 || y % 400 == 0)
  }

  function YearLength(y: int): int {
    if IsLeap(y) then 366 else 365
  }

  function MonthLength(y: int, m: int): (n: int)
    requires 1 <= m <= 12
    ensures 28 <= n <= 31
  {
    if m == 2 then (if IsLeap(y) then 29 else 28)
    else if m == 4 || m == 6 || m == 9 || m == 11 then 30
    else 31
  }

  /** Days in the year before the first of month `m`. */
  function DaysBeforeMonth(y: int, m: int): int
    requires 1 <= m <= 12
  {
    [0, 31, 59, 90, 120, 151, 181, 212, 243, 273, 304, 334][m - 1] + (if m > 2 && IsLeap(y) then 1 else 0)
  }

  /** The month index of January 1970, the month of day 0. */
  const EpochMonth := 12 * 1970

  /**
   * The day number of the first day of the month with index `i`
   * (`12 * year + month - 1`), counted month by month from January 1970.
   */
  function MonthIndexStart(i: int): int
    decreases if i >= EpochMonth then i - EpochMonth else EpochMonth - i
  {
    if i == EpochMonth then 0
    else if i > EpochMonth then MonthIndexStart(i - 1) + MonthLength((i - 1) / 12, (i - 1) % 12 + 1)
    else MonthIndexStart(i + 1) - MonthLength(i / 12, i % 12 + 1)
  }

  /** Consecutive month indices are one month length apart, across year ends too. */
  lemma MonthIndexStep(i: int)
    ensures MonthIndexStart(i + 1) == MonthIndexStart(i) + MonthLength(i / 12, i % 12 + 1)
  {
  }

  /** The day number of the first of month `m` of year `y`. */
  function MonthStart(y: int, m: int): int
    requires 1 <= m <= 12
  {
    MonthIndexStart(12 * y + m - 1)
  }

  /** The day number of January 1 of year `y`. */
  function YearStart(y: int): int {
    MonthStart(y, 1)
  }

  lemma MonthIndexOf(y: int, m: int)
    requires 1 <= m <= 12
    ensures (12 * y + m - 1) / 12 == y && (12 * y + m - 1) % 12 == m - 1
  {
  }

  /** The first of a month lies `DaysBeforeMonth` days after January 1. */
  lemma {:induction false} MonthStartInYear(y: int, m: int)
    requires 1 <= m <= 12
    ensures MonthStart(y, m) == YearStart(y) + DaysBeforeMonth(y, m)
    decreases m
  {
    if m > 1 {
      MonthStartInYear(y, m - 1);
      MonthIndexOf(y, m - 1);
      MonthIndexStep(12 * y + m - 2);
    }
  }

  /** A year lasts from its January 1 to the next one. */
  lemma YearStartStep(y: int)
    ensures YearStart(y + 1) == YearStart(y) + YearLength(y)
  {
    MonthStartInYear(y, 12);
    MonthIndexOf(y, 12);
    MonthIndexStep(12 * y + 11);
  }

  /** January 1 as 365 days a year plus the leap days since year 1, relative to 1970. */
  function YearStartFormula(y: int): int {
    var c := y - 1;
    365 * c + c / 4 - c / 100 + c / 400 - 719162
  }

  lemma FloorStep(c: int)
    ensures (c + 1) / 4 - c / 4 == if (c + 1) % 4 == 0 then 1 else 0
    ensures (c + 1) / 100 - c / 100 == if (c + 1) % 100 == 0 then 1 else 0
    ensures (c + 1) / 400 - c / 400 == if (c + 1) % 400 == 0 then 1 else 0
  {
  }

  lemma DivisorsOfCentury(y: int)
    ensures y % 400 == 0 ==> y % 100 == 0
    ensures y % 100 == 0 ==> y % 4 == 0
  {
    if y % 400 == 0 {
      QuadCentury(y / 400);
    }
    if y % 100 == 0 {
      Century(y / 100);
    }
  }

  lemma QuadCentury(q: int)
    ensures (400 * q) % 100 == 0
  {
    assert 400 * q == 100 * (4 * q);
  }

  lemma Century(q: int)
    ensures (100 * q) % 4 == 0
  {
    assert 100 * q == 4 * (25 * q);
  }

  lemma YearStartFormulaStep(y: int)
    ensures YearStartFormula(y + 1) == YearStartFormula(y) + YearLength(y)
  {
    FloorStep(y - 1);
    DivisorsOfCentury(y);
  }

  /** The month-by-month count agrees with the closed form, in every year before and after 1970. */
  lemma {:induction false} YearStartClosedForm(y: int)
    ensures YearStart(y) == YearStartFormula(y)
    decreases if y >= 1970 then y - 1970 else 1970 - y
  {
    if y > 1970 {
      YearStartClosedForm(y - 1);
      YearStartStep(y - 1);
      YearStartFormulaStep(y - 1);
    } else if y < 1970 {
      YearStartClosedForm(y + 1);
      YearStartStep(y);
      YearStartFormulaStep(y);
    }
  }

  /** Month starts increase with the index, by at least 28 days a month. */
  lemma {:induction false} MonthIndexOrder(i: int, j: int)
    requires i <= j
    ensures MonthIndexStart(i) + 28 * (j - i) <= MonthIndexStart(j)
    decreases j - i
  {
    if i < j {
      MonthIndexOrder(i, j - 1);
      MonthIndexStep(j - 1);
    }
  }

  function FindMonth(n: int, i: int): (r: int)
    ensures MonthIndexStart(r) <= n < MonthIndexStart(r + 1)
    decreases if n < MonthIndexStart(i) then MonthIndexStart(i) - n + 100 else n - MonthIndexStart(i)
  {
    MonthIndexStep(i);
    MonthIndexStep(i - 1);
    if n < MonthIndexStart(i) then FindMonth(n, i - 1)
    else if n >= MonthIndexStart(i + 1) then FindMonth(n, i + 1)
    else i
  }

  /** The month index of the month holding day `n`. */
  function MonthIndex(n: int): (i: int)
    ensures MonthIndexStart(i) <= n < MonthIndexStart(i + 1)
  {
    FindMonth(n, EpochMonth)
  }

  /** Only one month holds a given day. */
  lemma MonthIndexUnique(n: int, i: int)
    requires MonthIndexStart(i) <= n < MonthIndexStart(i + 1)
    ensures MonthIndex(n) == i
  {
    var j := MonthIndex(n);
    if j < i {
      MonthIndexOrder(j + 1, i);
    } else if i < j {
      MonthIndexOrder(i + 1, j);
    }
  }

  /** A calendar date: year (astronomical numbering), month 1-12, day of month. */
  datatype Date = Date(year: int, month: int, day: int)

  predicate ValidDate(d: Date) {
    1 <= d.month <= 12 && 1 <= d.day <= MonthLength(d.year, d.month)
  }

  function DayNumber(d: Date): int
    requires 1 <= d.month <= 12
  {
    MonthStart(d.year, d.month) + d.day - 1
  }

  /** The date of day number `n`. */
  function DateOf(n: int): (d: Date)
    ensures ValidDate(d) && DayNumber(d) == n
  {
    var i := MonthIndex(n);
    MonthIndexStep(i);
    Date(i / 12, i % 12 + 1, n - MonthIndexStart(i) + 1)
  }

  /** Every valid date has a day number that leads back to it. */
  lemma DateRoundTrip(d: Date)
    requires ValidDate(d)
    ensures DateOf(DayNumber(d)) == d
  {
    var i := 12 * d.year + d.month - 1;
    MonthIndexOf(d.year, d.month);
    MonthIndexStep(i);
    MonthIndexUnique(DayNumber(d), i);
  }

  /** Dates are numbered in calendar order: distinct valid dates get distinct day numbers. */
  lemma DayNumberInjective(a: Date, b: Date)
    requires ValidDate(a) && ValidDate(b) && DayNumber(a) == DayNumber(b)
    ensures a == b
  {
    DateRoundTrip(a);
    DateRoundTrip(b);
  }

  /** The month index of the month holding a valid date. */
  function MonthIndexOfDate(d: Date): int {
    12 * d.year + d.month - 1
  }

  lemma DateMonthIndex(n: int)
    ensures MonthIndexOfDate(DateOf(n)) == MonthIndex(n)
  {
  }

  function YearOf(n: int): int {
    DateOf(n).year
  }

  /** The year of day `n` is the one whose January 1 is the last at or before `n`. */
  lemma YearOfBounds(n: int)
    ensures YearStart(YearOf(n)) <= n < YearStart(YearOf(n) + 1)
  {
    var i := MonthIndex(n);
    var y := i / 12;
    assert YearOf(n) == y;
    assert 12 * y <= i < 12 * y + 12;
    MonthIndexOrder(12 * y, i);
    MonthIndexOrder(i + 1, 12 * y + 12);
    assert YearStart(y + 1) == MonthIndexStart(12 * y + 12);
  }

  lemma YearOfUnique(n: int, y: int)
    requires YearStart(y) <= n < YearStart(y + 1)
    ensures YearOf(n) == y
  {
    YearOfBounds(n);
    YearStartSeparates(YearOf(n), y, n);
  }

  /** Only one year's span holds a given day. */
  lemma YearStartSeparates(z: int, y: int, n: int)
    requires YearStart(z) <= n < YearStart(z + 1)
    requires YearStart(y) <= n < YearStart(y + 1)
    ensures z == y
  {
    if z < y {
      YearStartOrder(z + 1, y);
    } else if y < z {
      YearStartOrder(y + 1, z);
    }
  }

  lemma {:induction false} YearStartOrder(a: int, b: int)
    requires a <= b
    ensures YearStart(a) <= YearStart(b)
    decreases b - a
  {
    if a < b {
      YearStartOrder(a, b - 1);
      YearStartStep(b - 1);
    }
  }

  // ---------------------------------------------------------------------
  // Days of the week and ISO weeks
  // ---------------------------------------------------------------------

  /** 0 for Monday through 6 for Sunday; 1970-01-01 was a Thursday. */
  function DayOfWeek(n: int): (w: int)
    ensures 0 <= w < 7
  {
    (n + 3) % 7
  }

  /** The Monday starting the week that holds day `n`. */
  function WeekStart(n: int): (m: int)
    ensures DayOfWeek(m) == 0 && m <= n < m + 7
  {
    n - DayOfWeek(n)
  }

  /** The Monday of week 1 of year `y`: the week holding January 4. */
  function FirstWeekStart(y: int): int {
    WeekStart(YearStart(y) + 3)
  }

  /** The year a day's week is numbered in: the year of the week's Thursday. */
  function WeekYear(n: int): int {
    YearOf(WeekStart(n) + 3)
  }

  /** `WEEK_OF_YEAR` with Monday-first weeks and four days in week 1. */
  function WeekOfYear(n: int): (k: int)
    ensures k >= 1
  {
    var thursday := WeekStart(n) + 3;
    YearOfBounds(thursday);
    (thursday - YearStart(YearOf(thursday))) / 7 + 1
  }

  /** The Thursday of week 1 is one of the first seven days of the year. */
  lemma FirstThursday(y: int)
    ensures YearStart(y) <= FirstWeekStart(y) + 3 < YearStart(y) + 7
    ensures DayOfWeek(FirstWeekStart(y)) == 0
  {
  }

  /** Counting `WeekOfYear - 1` weeks on from the week-numbering year's week 1 leads back to the day's own week. */
  lemma WeekNumbering(n: int)
    ensures FirstWeekStart(WeekYear(n)) + 7 * (WeekOfYear(n) - 1) == WeekStart(n)
    ensures 1 <= WeekOfYear(n) <= 53
  {
    var y := WeekYear(n);
    var monday, start, first, length, week := WeekStart(n), YearStart(y), FirstWeekStart(y), YearLength(y), WeekOfYear(n);
    WeekFacts(n);
    WeekOfYearValue(n);
    WeekCount(monday, start, first, length, week);
  }

  /** The facts about day `n`'s week that its week number rests on. */
  lemma WeekFacts(n: int)
    ensures YearStart(WeekYear(n)) <= WeekStart(n) + 3 < YearStart(WeekYear(n)) + YearLength(WeekYear(n))
    ensures YearLength(WeekYear(n)) <= 366
    ensures YearStart(WeekYear(n)) <= FirstWeekStart(WeekYear(n)) + 3 < YearStart(WeekYear(n)) + 7
    ensures (FirstWeekStart(WeekYear(n)) - WeekStart(n)) % 7 == 0
  {
    ThursdayFacts(WeekStart(n));
  }

  lemma WeekOfYearValue(n: int)
    ensures WeekOfYear(n) == (WeekStart(n) + 3 - YearStart(WeekYear(n))) / 7 + 1
  {
  }

  /** Where the Thursday of the week starting at `monday` lies in its year, and how far that year's week 1 is from it. */
  lemma ThursdayFacts(monday: int)
    requires DayOfWeek(monday) == 0
    ensures YearStart(YearOf(monday + 3)) <= monday + 3 < YearStart(YearOf(monday + 3)) + YearLength(YearOf(monday + 3))
    ensures YearLength(YearOf(monday + 3)) <= 366
    ensures YearStart(YearOf(monday + 3)) <= FirstWeekStart(YearOf(monday + 3)) + 3 < YearStart(YearOf(monday + 3)) + 7
    ensures (FirstWeekStart(YearOf(monday + 3)) - monday) % 7 == 0
  {
    YearOfBounds(monday + 3);
    YearStartStep(YearOf(monday + 3));
    FirstThursday(YearOf(monday + 3));
    SameWeekday(FirstWeekStart(YearOf(monday + 3)), monday);
  }

  /**
   * The arithmetic of week numbers: the week starting at `monday`, whose
   * Thursday lies in a year of at most 366 days, is `week - 1` weeks after
   * that year's week 1.
   */
  lemma WeekCount(monday: int, start: int, first: int, length: int, week: int)
    requires start <= monday + 3 < start + length && length <= 366
    requires start <= first + 3 < start + 7 && (first - monday) % 7 == 0
    requires week == (monday + 3 - start) / 7 + 1
    ensures first + 7 * (week - 1) == monday
    ensures 1 <= week <= 53
  {
    ResidueWithinWeek(monday + 3 - start, first + 3 - start);
    var k := (monday + 3 - start) / 7;
    assert monday + 3 - start == 7 * k + (monday + 3 - start) % 7;
  }

  /** Two Mondays lie a whole number of weeks apart. */
  lemma SameWeekday(a: int, b: int)
    requires DayOfWeek(a) == DayOfWeek(b)
    ensures (a - b) % 7 == 0
  {
    assert a + 3 == 7 * ((a + 3) / 7) + (a + 3) % 7;
    assert b + 3 == 7 * ((b + 3) / 7) + (b + 3) % 7;
    assert a - b == 7 * ((a + 3) / 7 - (b + 3) / 7);
  }

  lemma ResidueWithinWeek(x: int, r: int)
    requires 0 <= r < 7 && x >= 0 && (r - x) % 7 == 0
    ensures r == x % 7
  {
    var q := (r - x) / 7;
    assert r - x == 7 * q;
    assert x == 7 * (-q) + r;
  }

  // ---------------------------------------------------------------------
  // Calendar.add
  // ---------------------------------------------------------------------

  /** The date `k` months after `d`'s month, with the day of month pinned to that month's length. */
  function AddMonthsToDate(d: Date, k: int): (r: Date)
    requires ValidDate(d)
    ensures ValidDate(r)
    ensures MonthIndexOfDate(r) == MonthIndexOfDate(d) + k
    ensures r.day == Min(d.day, MonthLength(r.year, r.month))
  {
    var j := MonthIndexOfDate(d) + k;
    var y, m := j / 12, j % 12 + 1;
    Date(y, m, Min(d.day, MonthLength(y, m)))
  }

  /** Year and month are determined by the month index. */
  lemma SameMonthIndex(a: Date, b: Date)
    requires 1 <= a.month <= 12 && 1 <= b.month <= 12
    requires MonthIndexOfDate(a) == MonthIndexOfDate(b)
    ensures a.year == b.year && a.month == b.month
  {
    MonthIndexOf(a.year, a.month);
    MonthIndexOf(b.year, b.month);
  }

  /** `add(MONTH, k)` on day `n`. */
  function AddMonths(n: int, k: int): int {
    DayNumber(AddMonthsToDate(DateOf(n), k))
  }

  /** Adding months moves the month index by exactly `k` and keeps the day of month unless the target month is shorter. */
  lemma AddMonthsMeaning(n: int, k: int)
    ensures MonthIndexOfDate(DateOf(AddMonths(n, k))) == MonthIndexOfDate(DateOf(n)) + k
    ensures DateOf(AddMonths(n, k)).day == Min(DateOf(n).day, MonthLength(DateOf(AddMonths(n, k)).year, DateOf(AddMonths(n, k)).month))
  {
    var r := AddMonthsToDate(DateOf(n), k);
    DateRoundTrip(r);
  }

  /** Adding no months is the identity. */
  lemma AddNoMonths(n: int)
    ensures AddMonths(n, 0) == n
  {
    var d := DateOf(n);
    SameMonthIndex(d, AddMonthsToDate(d, 0));
  }

  /** Months added in two steps add up when no pinning happens, which is always so up to the 28th. */
  lemma AddMonthsCompose(n: int, a: int, b: int)
    requires DateOf(n).day <= 28
    ensures AddMonths(AddMonths(n, a), b) == AddMonths(n, a + b)
  {
    var d := DateOf(n);
    var r := AddMonthsToDate(d, a);
    DateRoundTrip(r);
    var r2 := AddMonthsToDate(r, b);
    var r3 := AddMonthsToDate(d, a + b);
    SameMonthIndex(r2, r3);
  }

  /** `add(YEAR, k)` on day `n`: same month, the day pinned to the month's length in the target year. */
  function AddYears(n: int, k: int): int {
    var d := DateOf(n);
    DayNumber(Date(d.year + k, d.month, Min(d.day, MonthLength(d.year + k, d.month))))
  }

  /** Adding years keeps the month and the day of month, the day pinned to the target month's length. */
  lemma AddYearsDate(n: int, k: int)
    ensures var a, b := DateOf(n), DateOf(AddYears(n, k));
      && b.year == a.year + k && b.month == a.month
      && b.day == Min(a.day, MonthLength(b.year, b.month))
  {
    var a := DateOf(n);
    var t := Date(a.year + k, a.month, Min(a.day, MonthLength(a.year + k, a.month)));
    assert ValidDate(t);
    assert AddYears(n, k) == DayNumber(t);
    assert DateOf(DayNumber(t)) == t by {
      DateRoundTrip(t);
    }
  }

  /** Adding years is adding twelve months per year. */
  lemma AddYearsAsMonths(n: int, k: int)
    ensures AddYears(n, k) == AddMonths(n, 12 * k)
  {
    AddTwelveMonths(DateOf(n), k);
  }

  /** Twelve months per year from a date land on the same month and day of month, `k` years on. */
  lemma AddTwelveMonths(d: Date, k: int)
    requires ValidDate(d)
    ensures AddMonthsToDate(d, 12 * k) == Date(d.year + k, d.month, Min(d.day, MonthLength(d.year + k, d.month)))
  {
    var r := AddMonthsToDate(d, 12 * k);
    SameMonthIndex(r, Date(d.year + k, d.month, 1));
  }

  /** `add(WEEK_OF_YEAR, k)`: whole weeks of days. */
  function AddWeeks(n: int, k: int): (r: int)
    ensures DayOfWeek(r) == DayOfWeek(n)
  {
    n + 7 * k
  }
}
