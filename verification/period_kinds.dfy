/**
 * The operations particular to each kind of `SimplePeriod`: the enclosing
 * periods (`month()`, `quarter()`, `year()`, `asYear()`), the ranges of
 * smaller periods (`days()`, `asMonths()`, `quarters()`, ...) and the
 * `rollX` methods built on `Calendar.add`.
 */
module PeriodKinds {
  import opened Wrappers
  import opened Gregorian
  import opened Ranges
  import opened Periods

  // ---------------------------------------------------------------------
  // Enclosing periods
  // ---------------------------------------------------------------------

  /**
   * `Month.create(start())` and the like: the period of `large` holding the
   * start of `p`, which holds all of `p`.
   */
  function EnclosingPeriod(p: Period, large: Kind): (r: Period)
    requires Divides(p.kind, large)
    ensures r.kind == large
    ensures First(r) <= First(p) && Last(p) <= Last(r)
  {
    Enclosing(p, large);
    Create(large, First(p))
  }

  /** Exactly one period of `large` holds `p`: any period of that kind holding `p`'s start is the enclosing one. */
  lemma EnclosingUnique(p: Period, large: Kind, e: Period)
    requires Divides(p.kind, large)
    requires e.kind == large && First(e) <= First(p) <= Last(e)
    ensures EnclosingPeriod(p, large) == e
  {
    CreateWithin(e, First(p));
  }

  /** The year of a period is the calendar year of its start, and of its stop. */
  lemma EnclosingYear(p: Period)
    requires Divides(p.kind, YearKind)
    ensures EnclosingPeriod(p, YearKind).index == YearOf(First(p))
    ensures EnclosingPeriod(p, YearKind).index == YearOf(Last(p))
  {
    var e := EnclosingPeriod(p, YearKind);
    FirstBeforeLast(p);
    CreateWithin(e, Last(p));
    YearIndexIsYearOf(First(p));
    YearIndexIsYearOf(Last(p));
  }

  /** A Year period's index is the calendar year of any of its days. */
  lemma YearIndexIsYearOf(n: int)
    ensures Create(YearKind, n).index == YearOf(n)
  {
    DateMonthIndex(n);
  }

  // ---------------------------------------------------------------------
  // Week.middleOfWeekDay and Week.year
  // ---------------------------------------------------------------------

  /** `middleOfWeekDay()`: `Day.create(start()).next().next()`, the Wednesday. */
  function MiddleOfWeek(w: Period): (r: Period)
    requires w.kind == WeekKind
    ensures r.kind == DayKind && First(w) <= First(r) && Last(r) <= Last(w)
    ensures DayOfWeek(First(r)) == 2
  {
    Periods.Next(Periods.Next(Create(DayKind, First(w))))
  }

  /** `Week.year()`: the Year holding the week's Wednesday. */
  function WeekYearPeriod(w: Period): (r: Period)
    requires w.kind == WeekKind
    ensures r.kind == YearKind
    ensures r.index == YearOf(First(w) + 2)
  {
    YearIndexIsYearOf(Last(MiddleOfWeek(w)));
    Create(YearKind, Last(MiddleOfWeek(w)))
  }

  /** Within a period, the day after `n` has the same period exactly when `n` is not the period's last day. */
  lemma CreateStep(kind: Kind, n: int)
    ensures Create(kind, n + 1) == Create(kind, n) <==> n != Last(Create(kind, n))
  {
    var p := Create(kind, n);
    if n != Last(p) {
      CreateWithin(p, n + 1);
    } else {
      CreateWithin(Periods.Next(p), n + 1);
    }
  }

  /**
   * `Week.year()` is the ISO 8601 week-numbering year (the year of the
   * Thursday) except when the Wednesday is the last day of its year.
   */
  lemma WeekYearAgreesWithIso(w: Period)
    requires w.kind == WeekKind
    ensures WeekYearPeriod(w).index == WeekYear(First(w)) <==> First(w) + 2 != DayNumber(Date(YearOf(First(w) + 2), 12, 31))
  {
    var wed := First(w) + 2;
    WeekBounds(First(w));
    CreateWithin(w, First(w));
    assert WeekStart(First(w)) == First(w);
    YearIndexIsYearOf(wed);
    YearIndexIsYearOf(wed + 1);
    YearBounds(wed);
    CreateStep(YearKind, wed);
  }

  // ---------------------------------------------------------------------
  // Ranges of smaller periods
  // ---------------------------------------------------------------------

  /** `Week.days()`: the seven days Monday to Sunday. */
  lemma WeekDays(w: Period)
    requires w.kind == WeekKind
    ensures var r := Parts(w, DayKind);
      && Finite(r) && |Elements(r)| == 7
      && forall k :: 0 <= k < 7 ==> Elements(r)[k] == Period(DayKind, First(w) + k)
  {
    FirstBeforeLast(w);
    PartsBetween(w, DayKind, First(w), Last(w));
    KindRangeElements(DayKind, First(w), Last(w));
  }

  /** `Month.days()`: one Day per day of the calendar month. */
  lemma MonthDays(m: Period)
    requires m.kind == MonthKind
    ensures var r := Parts(m, DayKind);
      && Finite(r) && |Elements(r)| == MonthLength(m.index / 12, m.index % 12 + 1)
      && forall k :: 0 <= k < |Elements(r)| ==> Elements(r)[k] == Period(DayKind, First(m) + k)
  {
    DaysOf(m);
    MonthSpan(m);
  }

  /** A Month lasts as many days as its calendar month has. */
  lemma MonthSpan(m: Period)
    requires m.kind == MonthKind
    ensures Last(m) - First(m) + 1 == MonthLength(m.index / 12, m.index % 12 + 1)
  {
    MonthIndexStep(m.index);
  }

  /** The days of any period: one Day per day from its first to its last, in order. */
  lemma DaysOf(p: Period)
    ensures var r := Parts(p, DayKind);
      && Finite(r) && |Elements(r)| == Last(p) - First(p) + 1
      && forall k :: 0 <= k < |Elements(r)| ==> Elements(r)[k] == Period(DayKind, First(p) + k)
  {
    FirstBeforeLast(p);
    PartsBetween(p, DayKind, First(p), Last(p));
    KindRangeElements(DayKind, First(p), Last(p));
  }

  /** `Quarter.asMonths()`: the quarter's three months in order. */
  lemma QuarterMonths(q: Period)
    requires q.kind == QuarterKind
    ensures var r := Parts(q, MonthKind);
      && Finite(r) && |Elements(r)| == 3
      && forall k :: 0 <= k < 3 ==> Elements(r)[k] == Period(MonthKind, 3 * q.index + k)
  {
    MonthsOfGroup(q, 3);
    PartsBetween(q, MonthKind, 3 * q.index, 3 * q.index + 2);
    KindRangeElements(MonthKind, 3 * q.index, 3 * q.index + 2);
  }

  /** `Year.months()`: January to December. */
  lemma YearMonths(y: Period)
    requires y.kind == YearKind
    ensures var r := Parts(y, MonthKind);
      && Finite(r) && |Elements(r)| == 12
      && forall k :: 0 <= k < 12 ==> Elements(r)[k] == Period(MonthKind, 12 * y.index + k)
  {
    MonthsOfGroup(y, 12);
    PartsBetween(y, MonthKind, 12 * y.index, 12 * y.index + 11);
    KindRangeElements(MonthKind, 12 * y.index, 12 * y.index + 11);
  }

  /** `Year.quarters()`: the four quarters in order. */
  lemma YearQuarters(y: Period)
    requires y.kind == YearKind
    ensures var r := Parts(y, QuarterKind);
      && Finite(r) && |Elements(r)| == 4
      && forall k :: 0 <= k < 4 ==> Elements(r)[k] == Period(QuarterKind, 4 * y.index + k)
  {
    QuartersOfYear(y);
    PartsBetween(y, QuarterKind, 4 * y.index, 4 * y.index + 3);
    KindRangeElements(QuarterKind, 4 * y.index, 4 * y.index + 3);
  }

  /** The quarters holding the first and last day of a year are its quarters `4 * index` and `4 * index + 3`. */
  lemma QuartersOfYear(y: Period)
    requires y.kind == YearKind
    ensures Create(QuarterKind, First(y)).index == 4 * y.index
    ensures Create(QuarterKind, Last(y)).index == 4 * y.index + 3
  {
    var q0, q3 := Period(QuarterKind, 4 * y.index), Period(QuarterKind, 4 * y.index + 3);
    assert First(q0) == First(y) by {
      assert 3 * (4 * y.index) == 12 * y.index;
    }
    assert Last(q3) == Last(y) by {
      assert 3 * (4 * y.index + 3 + 1) == 12 * (y.index + 1);
    }
    FirstBeforeLast(q0);
    FirstBeforeLast(q3);
    CreateWithin(q0, First(y));
    CreateWithin(q3, Last(y));
  }

  /** The months of a quarter (`size` 3) or a year (`size` 12) are months `size * index` onwards. */
  lemma MonthsOfGroup(p: Period, size: int)
    requires (p.kind == QuarterKind && size == 3) || (p.kind == YearKind && size == 12)
    ensures Create(MonthKind, First(p)).index == size * p.index
    ensures Create(MonthKind, Last(p)).index == size * p.index + size - 1
  {
    MonthIndexStep(size * p.index);
    MonthIndexStep(size * p.index + size - 1);
    MonthIndexOrder(size * p.index + 1, size * p.index + size - 1);
    MonthIndexUnique(First(p), size * p.index);
    MonthIndexUnique(Last(p), size * p.index + size - 1);
  }

  // ---------------------------------------------------------------------
  // Rolling
  // ---------------------------------------------------------------------

  /** The month index of a day after adding `k` months. */
  lemma MonthIndexAfterAdd(n: int, k: int)
    ensures MonthIndex(AddMonths(n, k)) == MonthIndex(n) + k
  {
    AddMonthsMeaning(n, k);
    DateMonthIndex(n);
    DateMonthIndex(AddMonths(n, k));
  }

  /** The first day of month `i` lies in month `i`. */
  lemma MonthIndexOfStart(i: int)
    ensures MonthIndex(MonthIndexStart(i)) == i
  {
    MonthIndexStep(i);
    MonthIndexUnique(MonthIndexStart(i), i);
  }

  /** `Day.rollWeeks(n)`: the day `7n` days on, on the same weekday. */
  function DayRollWeeks(d: Period, n: int): (r: Period)
    requires d.kind == DayKind && IsJavaInt(n)
    ensures r == Period(DayKind, d.index + 7 * n)
    ensures DayOfWeek(First(r)) == DayOfWeek(First(d))
  {
    RollField(d, WeekOfYearField, n)
  }

  /** `Day.rollMonths(n)`: `n` months on, the day of month pinned to the target month's length. */
  function DayRollMonths(d: Period, n: int): (r: Period)
    requires d.kind == DayKind && IsJavaInt(n)
    ensures r.kind == DayKind
    ensures MonthIndexOfDate(DateOf(First(r))) == MonthIndexOfDate(DateOf(First(d))) + n
    ensures DateOf(First(r)).day == Min(DateOf(First(d)).day, MonthLength(DateOf(First(r)).year, DateOf(First(r)).month))
  {
    AddMonthsMeaning(First(d), n);
    if n == 0 then AddNoMonths(First(d)); d else RollField(d, MonthField, n)
  }

  /** Up to the 28th no pinning happens, so rolling back `n` months undoes rolling forward. */
  lemma DayRollMonthsBack(d: Period, n: int)
    requires d.kind == DayKind && IsJavaInt(n) && IsJavaInt(-n)
    requires DateOf(First(d)).day <= 28
    ensures DayRollMonths(DayRollMonths(d, n), -n) == d
  {
    var r := DayRollMonths(d, n);
    var a, b := DateOf(First(d)), DateOf(First(r));
    var back := DayRollMonths(r, -n);
    var c := DateOf(First(back));
    SameMonthIndex(a, c);
    DateRoundTrip(a);
    DateRoundTrip(c);
  }

  /** `Day.rollQuarters(n)`: `rollMonths(3 * n)`, the product taken in 32-bit arithmetic. */
  function DayRollQuarters(d: Period, n: int): (r: Period)
    requires d.kind == DayKind && IsJavaInt(n)
    ensures r.kind == DayKind
    ensures MonthIndexOfDate(DateOf(First(r))) == MonthIndexOfDate(DateOf(First(d))) + WrapInt(3 * n)
    ensures IsJavaInt(3 * n) ==> MonthIndexOfDate(DateOf(First(r))) == MonthIndexOfDate(DateOf(First(d))) + 3 * n
    ensures DateOf(First(r)).day == Min(DateOf(First(d)).day, MonthLength(DateOf(First(r)).year, DateOf(First(r)).month))
  {
    DayRollMonths(d, WrapInt(3 * n))
  }

  /** `Day.rollYears(n)`: the same month and day `n` years on, February 29 pinned to the 28th. */
  function DayRollYears(d: Period, n: int): (r: Period)
    requires d.kind == DayKind && IsJavaInt(n)
    ensures r.kind == DayKind
    ensures var a, b := DateOf(First(d)), DateOf(First(r));
      && b.year == a.year + n && b.month == a.month
      && b.day == Min(a.day, MonthLength(b.year, b.month))
  {
    AddYearsDate(First(d), n);
    RollField(d, YearField, n)
  }

  /** `Month.rollQuarters(n)`: `roll(MONTH, 3 * n)`, the product taken in 32-bit arithmetic. */
  function MonthRollQuarters(m: Period, n: int): (r: Period)
    requires m.kind == MonthKind && IsJavaInt(n)
    ensures r == Period(MonthKind, m.index + WrapInt(3 * n))
    ensures IsJavaInt(3 * n) ==> r == Period(MonthKind, m.index + 3 * n)
  {
    var k := WrapInt(3 * n);
    MonthIndexOfStart(m.index);
    MonthIndexAfterAdd(First(m), k);
    RollField(m, MonthField, k)
  }

  /** `Month.rollYears(n)`: the same month `n` years on. */
  function MonthRollYears(m: Period, n: int): (r: Period)
    requires m.kind == MonthKind && IsJavaInt(n)
    ensures r == Period(MonthKind, m.index + 12 * n)
  {
    MonthIndexOfStart(m.index);
    AddYearsAsMonths(First(m), n);
    MonthIndexAfterAdd(First(m), 12 * n);
    RollField(m, YearField, n)
  }

  /** `Quarter.rollYears(n)`: the same quarter `n` years on. */
  function QuarterRollYears(q: Period, n: int): (r: Period)
    requires q.kind == QuarterKind && IsJavaInt(n)
    ensures r == Period(QuarterKind, q.index + 4 * n)
  {
    QuarterAfterYears(q, n);
    RollField(q, YearField, n)
  }

  /** Adding `n` years to the start of a quarter lands in the quarter `4n` further on. */
  lemma QuarterAfterYears(q: Period, n: int)
    requires q.kind == QuarterKind
    ensures Create(QuarterKind, AddYears(First(q), n)).index == q.index + 4 * n
  {
    MonthIndexOfStart(3 * q.index);
    AddYearsAsMonths(First(q), n);
    MonthIndexAfterAdd(First(q), 12 * n);
    assert (3 * q.index + 12 * n) / 3 == q.index + 4 * n;
  }

  /**
   * `Week.rollYears(n)`: the week holding the Wednesday moved `n` years on
   * (same month and day, February 29 pinned to the 28th).
   */
  function WeekRollYears(w: Period, n: int): (r: Period)
    requires w.kind == WeekKind && IsJavaInt(n)
    ensures r.kind == WeekKind
    ensures n == 0 ==> r == w
    ensures n != 0 ==> var a, b := DateOf(First(w) + 2), DateOf(AddYears(First(w) + 2, n));
      && b.year == a.year + n && b.month == a.month && b.day == Min(a.day, MonthLength(b.year, b.month))
      && First(r) <= AddYears(First(w) + 2, n) <= Last(r)
  {
    AddYearsDate(First(w) + 2, n);
    RollAt(w, First(MiddleOfWeek(w)), YearField, n)
  }

  /** Rolling a week by years keeps it a whole number of weeks away. */
  lemma WeekRollYearsWeekday(w: Period, n: int)
    requires w.kind == WeekKind && IsJavaInt(n)
    ensures (First(WeekRollYears(w, n)) - First(w)) % 7 == 0
  {
    var r := WeekRollYears(w, n);
    WeekBounds(First(w));
    WeekBounds(First(r));
    CreateWithin(w, First(w));
    CreateWithin(r, First(r));
    SameWeekday(First(r), First(w));
  }

  /**
   * What `Week.rollYears` is documented to do: the week with the same week
   * number in the week-numbering year `n` years on (2008-W3 rolled by 2 is
   * 2010-W3).  Week 53 goes to the 53rd week counted from the target year's
   * week 1, which is week 1 of the year after when that year has 52 weeks.
   */
  function WeekRollYearsIntended(w: Period, n: int): (r: Period)
    requires w.kind == WeekKind
    ensures r.kind == WeekKind
    ensures n == 0 ==> r == w
  {
    var y, k := WeekYear(First(w)), WeekOfYear(First(w));
    var m := FirstWeekStart(y + n) + 7 * (k - 1);
    WeekNumbering(First(w));
    if n == 0 then
      OwnWeek(w, m);
      Create(WeekKind, m)
    else
      Create(WeekKind, m)
  }

  /** Rolling by years keeps the week number and moves the week-numbering year by `n`, for weeks 1 to 52. */
  lemma WeekRollYearsIntendedKeepsWeek(w: Period, n: int)
    requires w.kind == WeekKind
    ensures WeekOfYear(First(w)) <= 52 ==>
      && WeekYear(First(WeekRollYearsIntended(w, n))) == WeekYear(First(w)) + n
      && WeekOfYear(First(WeekRollYearsIntended(w, n))) == WeekOfYear(First(w))
  {
    var y, k := WeekYear(First(w)), WeekOfYear(First(w));
    var m := FirstWeekStart(y + n) + 7 * (k - 1);
    var r := WeekRollYearsIntended(w, n);
    assert r == Create(WeekKind, m);
    WeekOfMonday(y + n, k);
    KeepsWeek(r, m, y + n, k);
  }

  /** The week of a week's own Monday is that week. */
  lemma OwnWeek(w: Period, m: int)
    requires w.kind == WeekKind && m == WeekStart(First(w))
    ensures Create(WeekKind, m) == w
  {
    MondayOfWeek(w);
    CreateWithin(w, First(w));
  }

  lemma KeepsWeek(r: Period, m: int, y: int, k: int)
    requires r.kind == WeekKind && First(r) == m && m == FirstWeekStart(y) + 7 * (k - 1) && 1 <= k
    ensures k <= 52 ==> WeekYear(First(r)) == y && WeekOfYear(First(r)) == k
  {
    WeekOfMonday(y, k);
  }

  /** A Week starts on its Monday. */
  lemma MondayOfWeek(w: Period)
    requires w.kind == WeekKind
    ensures WeekStart(First(w)) == First(w)
  {
    WeekBounds(First(w));
    CreateWithin(w, First(w));
  }

  /** The Monday `k - 1` weeks after week 1 of `y` starts week `k` of `y`, for the 52 weeks every year has. */
  lemma WeekOfMonday(y: int, k: int)
    requires 1 <= k
    ensures var m := FirstWeekStart(y) + 7 * (k - 1);
      && First(Create(WeekKind, m)) == m
      && (k <= 52 ==> WeekYear(m) == y && WeekOfYear(m) == k)
  {
    var first := FirstWeekStart(y);
    var m := first + 7 * (k - 1);
    FirstThursday(y);
    assert DayOfWeek(m) == 0 by {
      assert m + 3 == (first + 3) + 7 * (k - 1);
    }
    assert WeekStart(m) == m;
    WeekBounds(m);
    if k > 52 {
      return;
    }
    YearStartStep(y);
    YearOfUnique(m + 3, y);
    assert m + 3 - YearStart(y) == (first + 3 - YearStart(y)) + 7 * (k - 1);
  }

  /** 2008-W03 is the week of Monday 2008-01-14, thirteen days into the year. */
  lemma Week3Of2008(y: int)
    requires y == 2008
    ensures var w := Create(WeekKind, YearStart(y) + 13);
      WeekYear(First(w)) == y && WeekOfYear(First(w)) == 3
  {
    YearStarts2008(y);
    WeekOfMonday(y, 3);
  }

  /**
   * 2008-W03 rolled by two years as written: its Wednesday 2008-01-16 becomes
   * Saturday 2010-01-16, which lies in 2010-W02, not the documented 2010-W03.
   */
  lemma WeekRollYearsMissesWeek(y: int)
    requires y == 2008
    ensures var r := WeekRollYears(Create(WeekKind, YearStart(y) + 13), 2);
      WeekYear(First(r)) == y + 2 && WeekOfYear(First(r)) == 2
  {
    YearStarts2008(y);
    var w := Create(WeekKind, YearStart(y) + 13);
    WeekBounds(YearStart(y) + 13);
    assert First(w) == YearStart(y) + 13;
    JanuarySixteenthOn(y, 2);
    var r := WeekRollYears(w, 2);
    RolledWeekStart(w, 2, r, YearStart(y + 2) + 15);
    WeekOfJanuarySixteenth2010(y + 2);
    KeepsWeek(r, FirstWeekStart(y + 2) + 7, y + 2, 2);
  }

  /** The intended roll takes 2008-W03 to 2010-W03. */
  lemma WeekRollYearsIntendedOf2008W03(y: int)
    requires y == 2008
    ensures var r := WeekRollYearsIntended(Create(WeekKind, YearStart(y) + 13), 2);
      WeekYear(First(r)) == y + 2 && WeekOfYear(First(r)) == 3
  {
    Week3Of2008(y);
    WeekRollYearsIntendedKeepsWeek(Create(WeekKind, YearStart(y) + 13), 2);
  }

  /** A week rolled by a nonzero number of years starts on the Monday before the moved Wednesday. */
  lemma RolledWeekStart(w: Period, n: int, r: Period, s: int)
    requires w.kind == WeekKind && IsJavaInt(n) && n != 0
    requires r == WeekRollYears(w, n) && s == AddYears(First(w) + 2, n)
    ensures First(r) == WeekStart(s)
  {
    CreateWithin(r, s);
    WeekBounds(s);
  }

  /** In a year starting on day 14610 (2010), January 16 lies in the week starting seven days after the Monday of week 1. */
  lemma WeekOfJanuarySixteenth2010(y: int)
    requires YearStart(y) == 14610
    ensures WeekStart(YearStart(y) + 15) == FirstWeekStart(y) + 7
  {
  }

  /** January 16 moved `n` years on is January 16 of year `y + n`. */
  lemma JanuarySixteenthOn(y: int, n: int)
    ensures AddYears(YearStart(y) + 15, n) == YearStart(y + n) + 15
  {
    var d := Date(y, 1, 16);
    assert DayNumber(d) == YearStart(y) + 15;
    DateRoundTrip(d);
    var t := Date(y + n, 1, Min(16, MonthLength(y + n, 1)));
    assert t == Date(y + n, 1, 16);
    assert AddYears(YearStart(y) + 15, n) == DayNumber(t);
  }

  /** January 1 and the Monday of week 1, for 2008 and 2010, as day numbers. */
  lemma YearStarts2008(y: int)
    requires y == 2008
    ensures YearStart(y) == 13879 && FirstWeekStart(y) == 13878
    ensures YearStart(y + 2) == 14610 && FirstWeekStart(y + 2) == 14613
  {
    YearStartClosedForm(y);
    YearStartStep(y);
    YearStartStep(y + 1);
  }
}
