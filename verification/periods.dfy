/**
 * pantheon-janus's `SimplePeriod` and its kinds Day, Week, Month, Quarter and
 * Year.  Constructing a period from an instant sets the calendar fields the
 * kind manipulates to their minimum for `start` and their maximum for `stop`;
 * every such boundary falls on a day boundary, so a period is its kind with
 * its first and last day number.
 *
 * Each kind cuts the day line into consecutive periods numbered by an index:
 * a day is its own day number, weeks run Monday to Sunday, and months,
 * quarters and years are groups of 1, 3 and 12 calendar months.  `Start(kind, i)`
 * is the first day of period `i` and `Index(kind, n)` the period holding day `n`.
 */
module Periods {
  import opened Wrappers
  import opened Gregorian
  import opened Ranges

  datatype Kind = DayKind | WeekKind | MonthKind | QuarterKind | YearKind

  /**
   * Period number `index` of a kind.  Two values are equal exactly when the
   * Java periods are `equals`: same class, same start and stop.
   */
  datatype Period = Period(kind: Kind, index: int)

  /** The period of `kind` that holds day `n`. */
  function Index(kind: Kind, n: int): int {
    match kind
    case DayKind => n
    case WeekKind => (n + 3) / 7
    case MonthKind => MonthIndex(n)
    case QuarterKind => MonthIndex(n) / 3
    case YearKind => MonthIndex(n) / 12
  }

  /** The first day of period `i` of `kind`; week 0 starts on Monday 1969-12-29. */
  function Start(kind: Kind, i: int): int {
    match kind
    case DayKind => i
    case WeekKind => 7 * i - 3
    case MonthKind => MonthIndexStart(i)
    case QuarterKind => MonthIndexStart(3 * i)
    case YearKind => MonthIndexStart(12 * i)
  }

  /** Periods follow each other: each starts after the one before. */
  lemma StartStep(kind: Kind, i: int)
    ensures Start(kind, i) < Start(kind, i + 1)
  {
    match kind
    case DayKind =>
    case WeekKind =>
    case MonthKind => MonthIndexStep(i);
    case QuarterKind => MonthIndexOrder(3 * i, 3 * i + 3);
    case YearKind => MonthIndexOrder(12 * i, 12 * i + 12);
  }

  lemma {:induction false} StartOrder(kind: Kind, i: int, j: int)
    requires i <= j
    ensures Start(kind, i) + (j - i) <= Start(kind, j)
    decreases j - i
  {
    if i < j {
      StartOrder(kind, i, j - 1);
      StartStep(kind, j - 1);
    }
  }

  /** The period holding day `n` starts at or before `n` and its successor after it. */
  lemma IndexBounds(kind: Kind, n: int)
    ensures Start(kind, Index(kind, n)) <= n < Start(kind, Index(kind, n) + 1)
  {
    match kind
    case DayKind =>
    case WeekKind =>
    case MonthKind =>
    case QuarterKind =>
      var m := MonthIndex(n);
      MonthGroup(3 * (m / 3), 3 * (m / 3 + 1), m, n);
    case YearKind =>
      var m := MonthIndex(n);
      MonthGroup(12 * (m / 12), 12 * (m / 12 + 1), m, n);
  }

  /** A day of month `m` lies in every run of months that holds `m`. */
  lemma MonthGroup(lo: int, hi: int, m: int, n: int)
    requires lo <= m < hi
    requires MonthIndexStart(m) <= n < MonthIndexStart(m + 1)
    ensures MonthIndexStart(lo) <= n < MonthIndexStart(hi)
  {
    MonthIndexOrder(lo, m);
    MonthIndexOrder(m + 1, hi);
  }

  /** Only period `i` holds the days from its start up to the next period's start. */
  lemma IndexUnique(kind: Kind, n: int, i: int)
    requires Start(kind, i) <= n < Start(kind, i + 1)
    ensures Index(kind, n) == i
  {
    var j := Index(kind, n);
    IndexBounds(kind, n);
    if j < i {
      StartOrder(kind, j + 1, i);
    } else if i < j {
      StartOrder(kind, i + 1, j);
    }
  }

  /** `start()` as a day: the first day of the period. */
  function First(p: Period): int {
    Start(p.kind, p.index)
  }

  /** `stop()` as a day: the last day of the period. */
  function Last(p: Period): int {
    Start(p.kind, p.index + 1) - 1
  }

  /** A period never ends before it starts. */
  lemma FirstBeforeLast(p: Period)
    ensures First(p) <= Last(p)
  {
    StartStep(p.kind, p.index);
  }

  /** `new T(dateInPeriod)`: the period of `kind` that holds day `n`. */
  function Create(kind: Kind, n: int): (p: Period)
    ensures p.kind == kind && First(p) <= n <= Last(p)
  {
    IndexBounds(kind, n);
    Period(kind, Index(kind, n))
  }

  /** Constructing from any day of a period gives that period back. */
  lemma CreateWithin(p: Period, n: int)
    requires First(p) <= n <= Last(p)
    ensures Create(p.kind, n) == p
  {
    IndexUnique(p.kind, n, p.index);
  }

  /** `next()`: the period holding the day after `stop`; it starts right after this one ends. */
  function Next(p: Period): (r: Period)
    ensures r.kind == p.kind && First(r) == Last(p) + 1
    ensures r.index == p.index + 1
  {
    StartStep(p.kind, p.index + 1);
    CreateWithin(Period(p.kind, p.index + 1), Last(p) + 1);
    Create(p.kind, Last(p) + 1)
  }

  /** `prior()`: the period holding the day before `start`; it ends right before this one starts. */
  function Prior(p: Period): (r: Period)
    ensures r.kind == p.kind && Last(r) == First(p) - 1
    ensures r.index == p.index - 1
  {
    StartStep(p.kind, p.index - 1);
    CreateWithin(Period(p.kind, p.index - 1), First(p) - 1);
    Create(p.kind, First(p) - 1)
  }

  /** `prior` undoes `next` and `next` undoes `prior`. */
  lemma PriorNext(p: Period)
    ensures Prior(Next(p)) == p
    ensures Next(Prior(p)) == p
  {
  }

  /** `compareTo`: the order of the starts, as `Date.compareTo` gives it. */
  function Compare(a: Period, b: Period): int {
    Sign(First(a) - First(b))
  }

  /** `equals`: the same kind of period with the same start and stop. */
  predicate Equals(a: Period, b: Period) {
    a.kind == b.kind && First(a) == First(b) && Last(a) == Last(b)
  }

  /**
   * Within a kind, comparing starts is comparing positions along the kind, and
   * `compareTo` is zero exactly for equal periods, which are the same value.
   */
  lemma CompareByIndex(a: Period, b: Period)
    requires a.kind == b.kind
    ensures Compare(a, b) == Sign(a.index - b.index)
    ensures Compare(a, b) == 0 <==> Equals(a, b)
    ensures Equals(a, b) <==> a == b
  {
    if a.index < b.index {
      StartOrder(a.kind, a.index, b.index);
    } else if b.index < a.index {
      StartOrder(a.kind, b.index, a.index);
    }
  }

  /** Periods of different kinds are never equal, even when they start and stop together. */
  lemma KindsNeverEqual(a: Period, b: Period)
    requires a.kind != b.kind
    ensures !Equals(a, b) && a != b
  {
  }

  /** The natural range rule of periods: `compareTo`, `next` and `prior`. */
  function NaturalRule(): RangeRule<Period> {
    RangeRule(Natural, (a: Period, b: Period) => Compare(a, b), (p: Period) => Next(p), (p: Period) => Prior(p))
  }

  /** `next` compares after a period and `prior` before it. */
  lemma StepsCompare(x: Period)
    ensures Compare(x, Next(x)) < 0 && Compare(x, Prior(x)) > 0
  {
    FirstBeforeLast(x);
    FirstBeforeLast(Prior(x));
  }

  lemma CompareTransitive(a: Period, b: Period, c: Period)
    requires Compare(a, b) <= 0 && Compare(b, c) <= 0
    ensures Compare(a, c) <= 0
  {
    var fa, fb, fc := First(a), First(b), First(c);
    assert fa <= fb && fb <= fc;
  }

  lemma CompareAntisymmetric(a: Period, b: Period)
    ensures Sign(Compare(a, b)) == -Sign(Compare(b, a))
  {
    var fa, fb := First(a), First(b);
  }

  /** Periods satisfy the `Rangeable` contract, with `prior` and `next` exact inverses. */
  lemma NaturalRuleValid()
    ensures ValidRule(NaturalRule())
    ensures ExactInverse(NaturalRule())
  {
    var rule := NaturalRule();
    forall x: Period ensures rule.compare(x, rule.next(x)) < 0 && rule.compare(x, rule.prior(x)) > 0 {
      StepsCompare(x);
    }
    forall a: Period, b: Period ensures Sign(rule.compare(a, b)) == -Sign(rule.compare(b, a)) {
      CompareAntisymmetric(a, b);
    }
    forall a: Period, b: Period, c: Period
      ensures rule.compare(a, b) <= 0 && rule.compare(b, c) <= 0 ==> rule.compare(a, c) <= 0
    {
      if rule.compare(a, b) <= 0 && rule.compare(b, c) <= 0 {
        CompareTransitive(a, b, c);
      }
    }
    forall x: Period ensures rule.prior(rule.next(x)) == x && rule.next(rule.prior(x)) == x {
      PriorNext(x);
    }
  }

  /** Stepping `n` times from a period reaches the period `n` further along its kind. */
  lemma {:induction false} StepsIndex(p: Period, n: int)
    ensures StepsRef(NaturalRule(), p, n) == Period(p.kind, p.index + n)
    decreases if n < 0 then -n else n
  {
    if n > 0 {
      StepsIndex(p, n - 1);
    } else if n < 0 {
      StepsIndex(p, n + 1);
    }
  }

  /**
   * `roll(amount)`: `Range.stepsFrom(this, amount)`, the period `amount`
   * further along its kind (back for a negative amount).  `Integer.MIN_VALUE`
   * takes no step, as in `stepsFrom`.
   */
  method Roll(p: Period, amount: int) returns (r: Period)
    requires IsJavaInt(amount)
    ensures amount != MinInt ==> r == Period(p.kind, p.index + amount)
    ensures amount == MinInt ==> r == p
  {
    var stepped := StepsFrom(Some(p), amount, Some(NaturalRule()));
    r := stepped.value;
    StepsIndex(p, amount);
  }

  // ---------------------------------------------------------------------
  // Rolling by calendar fields
  // ---------------------------------------------------------------------

  /** The `Calendar` fields the kinds roll by. */
  datatype Field = WeekOfYearField | MonthField | YearField

  /** `calendar.add(field, amount)` on a day. */
  function AddField(n: int, field: Field, amount: int): int {
    match field
    case WeekOfYearField => AddWeeks(n, amount)
    case MonthField => AddMonths(n, amount)
    case YearField => AddYears(n, amount)
  }

  /**
   * `roll(theDate, rollField, amount)`: this same period for a zero amount,
   * otherwise the period of the same kind holding `theDate` moved by `amount`
   * units of the field.
   */
  function RollAt(p: Period, date: int, field: Field, amount: int): (r: Period)
    ensures r.kind == p.kind
    ensures amount == 0 ==> r == p
    ensures amount != 0 ==> First(r) <= AddField(date, field, amount) <= Last(r)
  {
    if amount == 0 then p else Create(p.kind, AddField(date, field, amount))
  }

  /** `roll(rollField, amount)`: rolling from the period's start. */
  function RollField(p: Period, field: Field, amount: int): (r: Period)
    ensures r.kind == p.kind
    ensures amount == 0 ==> r == p
    ensures amount != 0 ==> First(r) <= AddField(First(p), field, amount) <= Last(r)
  {
    RollAt(p, First(p), field, amount)
  }

  // ---------------------------------------------------------------------
  // The bounds of each kind
  // ---------------------------------------------------------------------

  /** A Day is the single day it was created from. */
  lemma DayBounds(n: int)
    ensures First(Create(DayKind, n)) == n == Last(Create(DayKind, n))
  {
  }

  /** A Week runs from a Monday to the Sunday six days later. */
  lemma WeekBounds(n: int)
    ensures First(Create(WeekKind, n)) == WeekStart(n)
    ensures Last(Create(WeekKind, n)) == WeekStart(n) + 6
  {
  }

  /** A Month runs from the first to the last day of the calendar month holding the day. */
  lemma MonthBounds(n: int)
    ensures var d := DateOf(n);
      && First(Create(MonthKind, n)) == DayNumber(Date(d.year, d.month, 1))
      && Last(Create(MonthKind, n)) == DayNumber(Date(d.year, d.month, MonthLength(d.year, d.month)))
  {
    var i := MonthIndex(n);
    MonthIndexStep(i);
  }

  /** The day before the start of the following month is the last day of month `m` of year `y`. */
  lemma MonthEnd(y: int, m: int)
    requires 1 <= m <= 12
    ensures MonthIndexStart(12 * y + m) - 1 == DayNumber(Date(y, m, MonthLength(y, m)))
  {
    MonthIndexOf(y, m);
    MonthIndexStep(12 * y + m - 1);
  }

  /**
   * A Quarter of a date in 0-based month `m` is quarter `q = m / 3 + 1`; it
   * starts on the first of 0-based month `3q - 3` and stops on the last day of
   * 0-based month `3q - 1`.
   */
  lemma QuarterAlignment(d: Date)
    requires ValidDate(d)
    ensures var q := (d.month - 1) / 3 + 1;
      && First(Create(QuarterKind, DayNumber(d))) == DayNumber(Date(d.year, 3 * q - 2, 1))
      && Last(Create(QuarterKind, DayNumber(d))) == DayNumber(Date(d.year, 3 * q, MonthLength(d.year, 3 * q)))
  {
    var q := (d.month - 1) / 3 + 1;
    var i := 12 * d.year + d.month - 1;
    assert MonthIndex(DayNumber(d)) == i by {
      DateIndex(d);
    }
    assert i / 3 == 4 * d.year + q - 1 by {
      QuarterIndex(d.year, d.month, i);
    }
    QuarterOfYear(d.year, q);
  }

  /** Quarter `q` of year `y` runs from the first of month `3q - 2` to the last day of month `3q`. */
  lemma QuarterOfYear(y: int, q: int)
    requires 1 <= q <= 4
    ensures First(Period(QuarterKind, 4 * y + q - 1)) == DayNumber(Date(y, 3 * q - 2, 1))
    ensures Last(Period(QuarterKind, 4 * y + q - 1)) == DayNumber(Date(y, 3 * q, MonthLength(y, 3 * q)))
  {
    assert 3 * (4 * y + q - 1) == 12 * y + (3 * q - 2) - 1;
    assert 3 * (4 * y + q - 1 + 1) == 12 * y + 3 * q;
    MonthEnd(y, 3 * q);
  }

  /** The month index of a date's day number is the date's own. */
  lemma DateIndex(d: Date)
    requires ValidDate(d)
    ensures MonthIndex(DayNumber(d)) == 12 * d.year + d.month - 1
  {
    MonthIndexOf(d.year, d.month);
    MonthIndexStep(12 * d.year + d.month - 1);
    MonthIndexUnique(DayNumber(d), 12 * d.year + d.month - 1);
  }

  lemma QuarterIndex(y: int, m: int, i: int)
    requires 1 <= m <= 12 && i == 12 * y + m - 1
    ensures i / 3 == 4 * y + (m - 1) / 3
  {
  }

  /** A Year runs from January 1 to December 31 of the day's year. */
  lemma YearBounds(n: int)
    ensures First(Create(YearKind, n)) == YearStart(YearOf(n))
    ensures Last(Create(YearKind, n)) == DayNumber(Date(YearOf(n), 12, 31))
  {
    var d := DateOf(n);
    var i := MonthIndex(n);
    DateMonthIndex(n);
    YearIndex(d.year, d.month, i);
    assert Create(YearKind, n) == Period(YearKind, d.year);
    assert 12 * (d.year + 1) == 12 * d.year + 12;
    MonthEnd(d.year, 12);
  }

  lemma YearIndex(y: int, m: int, i: int)
    requires 1 <= m <= 12 && i == 12 * y + m - 1
    ensures i / 12 == y
  {
  }

  // ---------------------------------------------------------------------
  // Enclosing periods and the ranges of smaller periods
  // ---------------------------------------------------------------------

  /** Whether every period of `small` lies inside one period of `large`. */
  predicate Divides(small: Kind, large: Kind) {
    small == large || small == DayKind
    || (small == MonthKind && (large == QuarterKind || large == YearKind))
    || (small == QuarterKind && large == YearKind)
  }

  /** Every start of a larger kind is the start of a period of a kind that divides it. */
  lemma StartIsBoundary(small: Kind, large: Kind, i: int)
    requires Divides(small, large)
    ensures First(Create(small, Start(large, i))) == Start(large, i)
  {
    if small == DayKind {
    } else if small == large {
      SameStart(large, i, large, i);
    } else if small == MonthKind && large == QuarterKind {
      SameStart(MonthKind, 3 * i, QuarterKind, i);
    } else if small == MonthKind {
      SameStart(MonthKind, 12 * i, YearKind, i);
    } else {
      QuartersOfYear(i);
      SameStart(QuarterKind, 4 * i, YearKind, i);
    }
  }

  lemma QuartersOfYear(i: int)
    ensures Start(QuarterKind, 4 * i) == Start(YearKind, i)
  {
    assert 3 * (4 * i) == 12 * i;
  }

  /** A day on which a period of `small` starts is the first day of the period of `small` that holds it. */
  lemma SameStart(small: Kind, j: int, large: Kind, i: int)
    requires Start(small, j) == Start(large, i)
    ensures First(Create(small, Start(large, i))) == Start(large, i)
  {
    FirstBeforeLast(Period(small, j));
    CreateWithin(Period(small, j), Start(small, j));
  }

  /** The period of `large` holding a period of `small` holds all of it (`month()`, `quarter()`, `year()`, `asYear()`). */
  lemma Enclosing(p: Period, large: Kind)
    requires Divides(p.kind, large)
    ensures First(Create(large, First(p))) <= First(p)
    ensures Last(p) <= Last(Create(large, First(p)))
  {
    var e := Create(large, First(p));
    var boundary := Start(large, e.index + 1);
    StartIsBoundary(p.kind, large, e.index + 1);
    if Last(p) >= boundary {
      // The next period of `large` would start inside `p`, where no period of `p`'s kind starts.
      CreateWithin(p, boundary);
    }
  }

  /** `Range.create(T.create(start()), T.create(stop()))`: the periods of `small` that make up `p`. */
  function Parts(p: Period, small: Kind): Range<Period> {
    Range(Create(small, First(p)), Create(small, Last(p)), NaturalRule())
  }

  lemma KindRangeItems(kind: Kind, i: int, j: int, k: nat)
    requires i <= j
    ensures Item(Range(Period(kind, i), Period(kind, j), NaturalRule()), k) == Period(kind, i + k)
  {
    NaturalForwards(kind, i, j);
    ItemSteps(Range(Period(kind, i), Period(kind, j), NaturalRule()), k);
    StepsIndex(Period(kind, i), k);
  }

  lemma NaturalForwards(kind: Kind, i: int, j: int)
    requires i <= j
    ensures DirectionOf(Range(Period(kind, i), Period(kind, j), NaturalRule())) == Forwards
  {
    CompareByIndex(Period(kind, i), Period(kind, j));
  }

  /** Iteration over periods `i` to `j` goes on exactly while the item has not passed period `j`. */
  lemma KindRangeHasNext(kind: Kind, i: int, j: int, k: nat)
    requires i <= j
    ensures HasNextAt(Range(Period(kind, i), Period(kind, j), NaturalRule()), k) <==> k <= j - i
  {
    var r := Range(Period(kind, i), Period(kind, j), NaturalRule());
    KindRangeItems(kind, i, j, k);
    CompareByIndex(r.from, r.to);
    CompareByIndex(Period(kind, i + k), r.to);
  }

  /**
   * The range from period `i` to period `j` of a kind yields periods `i`
   * through `j`, each once, in order.
   */
  lemma KindRangeElements(kind: Kind, i: int, j: int)
    requires i <= j
    ensures var r := Range(Period(kind, i), Period(kind, j), NaturalRule());
      && Finite(r) && |Elements(r)| == j - i + 1
      && forall k :: 0 <= k <= j - i ==> Elements(r)[k] == Period(kind, i + k)
  {
    var r := Range(Period(kind, i), Period(kind, j), NaturalRule());
    var s := seq(j - i + 1, k requires 0 <= k <= j - i => Period(kind, i + k));
    forall k | 0 <= k < |s| ensures s[k] == Item(r, k) && HasNextAt(r, k) {
      KindRangeItems(kind, i, j, k);
      KindRangeHasNext(kind, i, j, k);
    }
    KindRangeHasNext(kind, i, j, |s|);
    assert Finite(r);
    ElementsUnique(r, s);
  }

  /**
   * The parts of a period yield consecutive periods of the smaller kind, the
   * first starting with `p` and the last ending with it: they tile `p`.
   */
  lemma PartsTile(p: Period, small: Kind)
    requires Divides(small, p.kind)
    ensures var r := Parts(p, small);
      && Finite(r)
      && |Elements(r)| == r.to.index - r.from.index + 1
      && (forall k :: 0 <= k < |Elements(r)| ==> Elements(r)[k] == Period(small, r.from.index + k))
      && First(Elements(r)[0]) == First(p)
      && Last(Elements(r)[|Elements(r)| - 1]) == Last(p)
  {
    var r := Parts(p, small);
    PartsOrdered(p, small);
    KindRangeEnds(r.from, r.to);
    PartsFirst(p, small);
    PartsLast(p, small);
  }

  /** The parts of `p` are the range from period `i` to period `j` of the smaller kind. */
  lemma PartsBetween(p: Period, small: Kind, i: int, j: int)
    requires Create(small, First(p)).index == i && Create(small, Last(p)).index == j
    ensures Parts(p, small) == Range(Period(small, i), Period(small, j), NaturalRule())
  {
  }

  /** A range between two periods of one kind yields them first and last, and every period between. */
  lemma KindRangeEnds(a: Period, b: Period)
    requires a.kind == b.kind && a.index <= b.index
    ensures var r := Range(a, b, NaturalRule());
      && Finite(r)
      && |Elements(r)| == b.index - a.index + 1
      && (forall k :: 0 <= k < |Elements(r)| ==> Elements(r)[k] == Period(a.kind, a.index + k))
      && Elements(r)[0] == a
      && Elements(r)[|Elements(r)| - 1] == b
  {
    assert a == Period(a.kind, a.index) && b == Period(a.kind, b.index);
    KindRangeElements(a.kind, a.index, b.index);
  }

  lemma PartsOrdered(p: Period, small: Kind)
    ensures Create(small, First(p)).index <= Create(small, Last(p)).index
  {
    var i, j := Create(small, First(p)).index, Create(small, Last(p)).index;
    FirstBeforeLast(p);
    if j < i {
      StartOrder(small, j + 1, i);
    }
  }

  /** The first part starts with `p`. */
  lemma PartsFirst(p: Period, small: Kind)
    requires Divides(small, p.kind)
    ensures First(Create(small, First(p))) == First(p)
  {
    StartIsBoundary(small, p.kind, p.index);
  }

  /** The last part ends with `p`: the day after `p` starts a part of its own. */
  lemma PartsLast(p: Period, small: Kind)
    requires Divides(small, p.kind)
    ensures Last(Create(small, Last(p))) == Last(p)
  {
    StartIsBoundary(small, p.kind, p.index + 1);
    EndsAtBoundary(small, Last(p));
  }

  /** When a period of `small` starts on the day after `n`, the period holding `n` ends on it. */
  lemma EndsAtBoundary(small: Kind, n: int)
    requires First(Create(small, n + 1)) == n + 1
    ensures Last(Create(small, n)) == n
  {
    var c := Create(small, n);
    if Last(c) > n {
      CreateWithin(c, n + 1);
    }
  }
}
