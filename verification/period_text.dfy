/**
 * The ISO 8601 text forms of the periods (`toString`) and the `valueOf`
 * parsers.  The formats are those of `SimpleDateFormat` with patterns
 * `yyyy-MM-dd`, `yyyy-MM`, `yyyy-ww` and `yyyy-`, and Quarter's own
 * `yyyy-Qq`.  `yyyy` prints the year of era, zero padded to four digits.
 *
 * The date patterns are read as `SimpleDateFormat.parse(String)` reads
 * them (`DateFields`): any number of digits per field, an optional sign,
 * blanks before a field, and whatever follows the last field ignored.  The
 * numbers read are combined as a lenient `GregorianCalendar` combines
 * fields, so month 13 is January of the next year and June 31 is July 1.
 * Quarter's pattern is a regular expression matched against the whole text.
 */
module PeriodText {
  import opened Wrappers
  import opened Digits
  import opened Gregorian
  import opened Periods
  import opened DateFields
  import PeriodKinds

  /** `Calendar.YEAR` as printed: the year of era, 1 BC being year 1 of its era. */
  function YearOfEra(y: int): (r: nat)
    ensures r >= 1
    ensures y >= 1 ==> r == y
  {
    if y >= 1 then y else 1 - y
  }

  /**
   * The day a lenient `GregorianCalendar` gives for year `y` (of the AD era),
   * month `m` (1-based) and day of month `d`: months past December carry into
   * later years and days past the month's end into later months.
   */
  function LenientDay(y: int, m: int, d: int): int {
    MonthIndexStart(12 * y + m - 1) + d - 1
  }

  /** For an ordinary date the lenient reading is the date itself. */
  lemma LenientValid(d: Date)
    requires ValidDate(d)
    ensures LenientDay(d.year, d.month, d.day) == DayNumber(d)
    ensures DateOf(LenientDay(d.year, d.month, d.day)) == d
  {
    DateRoundTrip(d);
  }

  /** A day of month past the month's length overflows into the next month. */
  lemma LenientOverflow(y: int, m: int, d: int)
    requires 1 <= m <= 12
    ensures LenientDay(y, m, d) == LenientDay(y, m + 1, d - MonthLength(y, m))
  {
    MonthIndexOf(y, m);
    MonthIndexStep(12 * y + m - 1);
  }

  // ---------------------------------------------------------------------
  // Quarter's shape
  // ---------------------------------------------------------------------

  /** `^(\d\d\d\d)-Q([1-4])`, matched against the whole string. */
  predicate QuarterShape(s: string) {
    |s| == 7 && AllDigits(s[..4]) && s[4] == '-' && s[5] == 'Q' && '1' <= s[6] <= '4'
  }

  /** A zero-padded number is a non-empty run of digits that reads back as the number. */
  lemma Padded(n: nat, width: nat)
    ensures AllDigits(ZeroPad(n, width)) && |ZeroPad(n, width)| > 0
    ensures DigitsValue(ZeroPad(n, width)) == n
  {
    ZeroPadValue(n, width);
  }

  /** The first day of month `i` has that month's year and month and is the 1st. */
  lemma MonthFirstDate(i: int)
    ensures DateOf(MonthIndexStart(i)) == Date(i / 12, i % 12 + 1, 1)
  {
    PeriodKinds.MonthIndexOfStart(i);
  }

  // ---------------------------------------------------------------------
  // Day
  // ---------------------------------------------------------------------

  /** `Day.toString()`: `yyyy-MM-dd` of the day. */
  function DayText(p: Period): (s: string)
    requires p.kind == DayKind
    ensures |s| >= 10
  {
    var d := DateOf(First(p));
    ZeroPad(YearOfEra(d.year), 4) + "-" + ZeroPad(d.month, 2) + "-" + ZeroPad(d.day, 2)
  }

  /** `Day.valueOf`: the day the text names, or `IllegalArgumentException`. */
  function ParseDay(s: string): (r: Result<Period, Failure>)
    ensures r.Ok? <==> ReadThreeFields(s).Some?
    ensures r.Ok? ==> var f := ReadThreeFields(s).value;
      r.value.kind == DayKind && First(r.value) == LenientDay(f.0, f.1, f.2)
    ensures r.Err? ==> r.error == IllegalArgument("String was not iso8601 formatted")
  {
    match ReadThreeFields(s)
    case Some((y, m, d)) => Ok(Create(DayKind, LenientDay(y, m, d)))
    case None => Err(IllegalArgument("String was not iso8601 formatted"))
  }

  /** Every day from year 1 on reads back from its text. */
  lemma DayTextRoundTrip(p: Period)
    requires p.kind == DayKind
    requires 1 <= DateOf(First(p)).year
    ensures ParseDay(DayText(p)) == Ok(p)
  {
    var d := DateOf(First(p));
    var a, b, c := ZeroPad(d.year, 4), ZeroPad(d.month, 2), ZeroPad(d.day, 2);
    assert DayText(p) == a + "-" + b + "-" + c + "";
    Padded(d.year, 4);
    Padded(d.month, 2);
    Padded(d.day, 2);
    ReadDashedThree(a, b, c, "");
    LenientValid(d);
  }

  /**
   * Fields need not have the pattern's digit count and text after the day is
   * ignored: `2008-1-5` and `2008-01-05T10:00` both name 2008-01-05.
   */
  lemma DayTextLenient(s: string, t: string, u: string)
    requires s == "2008-1-5" && t == "2008-01-05T10:00" && u == "2008-01-05"
    ensures ParseDay(s).Ok? && ParseDay(s) == ParseDay(t) == ParseDay(u)
  {
    assert s == "2008" + "-" + "1" + "-" + "5" + "";
    assert t == "2008" + "-" + "01" + "-" + "05" + "T10:00";
    assert u == "2008" + "-" + "01" + "-" + "05" + "";
    ReadDashedThree("2008", "1", "5", "");
    ReadDashedThree("2008", "01", "05", "T10:00");
    ReadDashedThree("2008", "01", "05", "");
    DigitsExamples();
  }

  /** An exponent scales the field before it: `2008E1-01-05` names 20080-01-05. */
  lemma DayTextExponent(s: string)
    requires s == "2008E1-01-05"
    ensures ParseDay(s) == Ok(Create(DayKind, LenientDay(20080, 1, 5)))
  {
    assert s == "2008" + ("E" + "1" + "-01-05");
    Year2008();
    DigitsExamples();
    ReadExponentOf("1", "-01-05");
    ReadScaled("2008", "E" + "1" + "-01-05", 1, "-01-05");
    assert "-01-05"[1..] == "01" + "-" + "05" + "";
    ReadDashedTwo("01", "05", "");
  }

  lemma DigitsExamples()
    ensures DigitsValue("1") == DigitsValue("01") == 1
    ensures DigitsValue("5") == DigitsValue("05") == 5
  {
    assert "01"[..1] == "0" && "05"[..1] == "0" && "0"[..0] == "" && "1"[..0] == "" && "5"[..0] == "";
  }

  // ---------------------------------------------------------------------
  // Month
  // ---------------------------------------------------------------------

  /** `Month.toString()`: `yyyy-MM` of the month's first day. */
  function MonthText(p: Period): (s: string)
    requires p.kind == MonthKind
    ensures |s| >= 7
  {
    var d := DateOf(First(p));
    ZeroPad(YearOfEra(d.year), 4) + "-" + ZeroPad(d.month, 2)
  }

  /** `Month.valueOf`: the month holding the first of the named month, or `IllegalArgumentException`. */
  function ParseMonth(s: string): (r: Result<Period, Failure>)
    ensures r.Ok? <==> ReadTwoFields(s).Some?
    ensures r.Ok? ==> var f := ReadTwoFields(s).value;
      r.value.kind == MonthKind && First(r.value) <= LenientDay(f.0, f.1, 1) <= Last(r.value)
    ensures r.Err? ==> r.error == IllegalArgument("String was not iso8601 formatted")
  {
    match ReadTwoFields(s)
    case Some((y, m)) => Ok(Create(MonthKind, LenientDay(y, m, 1)))
    case None => Err(IllegalArgument("String was not iso8601 formatted"))
  }

  /** Every month from year 1 on reads back from its text. */
  lemma MonthTextRoundTrip(p: Period)
    requires p.kind == MonthKind
    requires 1 <= DateOf(First(p)).year
    ensures ParseMonth(MonthText(p)) == Ok(p)
  {
    var i := p.index;
    MonthFirstDate(i);
    var y, m := i / 12, i % 12 + 1;
    var a, b := ZeroPad(y, 4), ZeroPad(m, 2);
    assert MonthText(p) == a + "-" + b + "";
    Padded(y, 4);
    Padded(m, 2);
    ReadDashedTwo(a, b, "");
    assert 12 * y + m - 1 == i;
    assert LenientDay(y, m, 1) == First(p);
    PeriodKinds.MonthIndexOfStart(i);
  }

  // ---------------------------------------------------------------------
  // Year
  // ---------------------------------------------------------------------

  /** `Year.toString()`: `yyyy-` of the year's first day with the `-` removed. */
  function YearText(p: Period): (s: string)
    requires p.kind == YearKind
    ensures |s| >= 4
  {
    var d := DateOf(First(p));
    ZeroPad(YearOfEra(d.year), 4)
  }

  /**
   * `Year.valueOf`: the text followed by `-` read with `yyyy-`, so one field
   * that must be followed by a `-` or by nothing, or `IllegalArgumentException`.
   */
  function ParseYear(s: string): (r: Result<Period, Failure>)
    ensures r.Ok? ==> (r.value.kind == YearKind && ReadNumber(s + "-").Some?
      && r.value.index == ReadNumber(s + "-").value.0)
    ensures r.Err? ==> r.error == IllegalArgument("String not formatted properly")
  {
    match ReadNumber(s + "-")
    case Some((y, rest)) =>
      if |rest| > 0 && rest[0] == '-' then
        YearOfJanuaryFirst(y);
        Ok(Create(YearKind, LenientDay(y, 1, 1)))
      else Err(IllegalArgument("String not formatted properly"))
    case None => Err(IllegalArgument("String not formatted properly"))
  }

  /** January 1 of year `y` lies in Year `y`. */
  lemma YearOfJanuaryFirst(y: int)
    ensures Create(YearKind, LenientDay(y, 1, 1)).index == y
  {
    PeriodKinds.MonthIndexOfStart(12 * y);
  }

  /**
   * Digits followed by text that neither continues them nor starts an
   * exponent: the year the digits name when the text is empty or starts with
   * `-`, and an error otherwise.
   */
  lemma ParseYearOf(a: string, rest: string)
    requires AllDigits(a) && |a| > 0 && FieldEnds(rest)
    ensures ParseYear(a + rest).Ok? <==> (|rest| == 0 || rest[0] == '-')
    ensures ParseYear(a + rest).Ok? ==> ParseYear(a + rest).value == Period(YearKind, DigitsValue(a))
  {
    var t := rest + "-";
    assert a + rest + "-" == a + t;
    assert |t| > 0 && t[0] == (if |rest| == 0 then '-' else rest[0]);
    DashEndsField(rest);
    ReadDigits(a, t);
    ParseYearRead(a + rest, DigitsValue(a), t);
  }

  /** The `-` that `Year.valueOf` appends cannot complete an exponent the text left unfinished. */
  lemma DashEndsField(rest: string)
    requires FieldEnds(rest)
    ensures FieldEnds(rest + "-")
  {
    var t := rest + "-";
    if |rest| > 0 && rest[0] == 'E' {
      if |rest| > 1 && rest[1] == '-' {
        assert t[2..] == rest[2..] + "-";
      } else if |rest| > 1 {
        assert t[1..] == rest[1..] + "-";
      } else {
        assert t == "E-";
      }
    }
  }

  /** The year field read, and what follows it, decide `ParseYear`. */
  lemma ParseYearRead(s: string, y: int, rest: string)
    requires ReadNumber(s + "-") == Some((y, rest))
    ensures ParseYear(s).Ok? <==> (|rest| > 0 && rest[0] == '-')
    ensures ParseYear(s).Ok? ==> ParseYear(s).value == Period(YearKind, y)
  {
  }

  /** Every year from 1 on reads back from its text. */
  lemma YearTextRoundTrip(p: Period)
    requires p.kind == YearKind
    requires 1 <= DateOf(First(p)).year
    ensures ParseYear(YearText(p)) == Ok(p)
  {
    MonthFirstDate(12 * p.index);
    assert DateOf(First(p)).year == p.index;
    Padded(p.index, 4);
    assert YearText(p) + "" == YearText(p);
    ParseYearOf(YearText(p), "");
  }

  /** A fifth digit is read too: `12345` is the year 12345. */
  lemma YearTextFiveDigits(s: string)
    requires s == "12345"
    ensures ParseYear(s) == Ok(Period(YearKind, 12345))
  {
    assert s == s + "";
    assert DigitsValue(s) == 12345 by {
      assert s[..4] == "1234" && "1234"[..3] == "123" && "123"[..2] == "12" && "12"[..1] == "1" && "1"[..0] == "";
    }
    ParseYearOf(s, "");
  }

  /** A month after the year is ignored: `2008-05` is the year 2008. */
  lemma YearTextWithMonth(t: string)
    requires t == "2008-05"
    ensures ParseYear(t) == Ok(Period(YearKind, 2008))
  {
    assert t == "2008" + "-05";
    Year2008();
    ParseYearOf("2008", "-05");
  }

  /** Other text after the year is refused: `2008x` is an error. */
  lemma YearTextTrailing(u: string)
    requires u == "2008x"
    ensures ParseYear(u).Err?
  {
    assert u == "2008" + "x";
    ParseYearOf("2008", "x");
  }

  /** An exponent after the digits scales the year: `2008E1` is the year 20080 and `2008E-1` the year 200. */
  lemma YearTextExponent(s: string, t: string)
    requires s == "2008E1" && t == "2008E-1"
    ensures ParseYear(s) == Ok(Period(YearKind, 20080))
    ensures ParseYear(t) == Ok(Period(YearKind, 200))
  {
    assert s + "-" == "2008" + ("E" + "1" + "-");
    assert t + "-" == "2008" + ("E-" + "1" + "-");
    Year2008();
    DigitsExamples();
    ReadExponentOf("1", "-");
    assert ReadExponent("E-" + "1" + "-") == Some((-1, "-")) by {
      var x := "E-" + "1" + "-";
      assert x[0] == 'E' && x[1] == '-' && x[2..] == "1-";
      assert DigitRun("1-", 0) == (1, "-") by {
        assert "1-"[1..] == "-";
      }
    }
    ReadScaled("2008", "E" + "1" + "-", 1, "-");
    ReadScaled("2008", "E-" + "1" + "-", -1, "-");
    ParseYearRead(s, 20080, "-");
    ParseYearRead(t, 200, "-");
  }

  lemma Year2008()
    ensures DigitsValue("2008") == 2008
  {
    assert "2008"[..3] == "200" && "200"[..2] == "20" && "20"[..1] == "2" && "2"[..0] == "";
  }

  // ---------------------------------------------------------------------
  // Week
  // ---------------------------------------------------------------------

  /** `replace("W", "")`: every `W` removed, the other characters kept in order. */
  function RemoveW(s: string): (r: string)
    ensures |r| <= |s|
    ensures forall i :: 0 <= i < |r| ==> r[i] != 'W'
    ensures forall c :: c != 'W' ==> (c in r <==> c in s)
  {
    if |s| == 0 then ""
    else if s[0] == 'W' then RemoveW(s[1..])
    else [s[0]] + RemoveW(s[1..])
  }

  /** Removing `W`s distributes over concatenation. */
  lemma {:induction false} RemoveWConcat(a: string, b: string)
    ensures RemoveW(a + b) == RemoveW(a) + RemoveW(b)
    decreases |a|
  {
    if |a| == 0 {
      assert a + b == b;
    } else {
      assert (a + b)[0] == a[0];
      assert (a + b)[1..] == a[1..] + b;
      RemoveWConcat(a[1..], b);
    }
  }

  /** Text without a `W` is left as it is. */
  lemma {:induction false} RemoveWNone(s: string)
    requires 'W' !in s
    ensures RemoveW(s) == s
    decreases |s|
  {
    if |s| > 0 {
      assert s == [s[0]] + s[1..];
      RemoveWNone(s[1..]);
    }
  }

  /** `yyyy-Www` without its `W` is `yyyy-ww`. */
  lemma WeekTextDigits(y: string, k: string)
    requires AllDigits(y) && AllDigits(k)
    ensures RemoveW(y + "-W" + k) == y + "-" + k
  {
    assert y + "-W" + k == (y + "-") + ("W" + k);
    RemoveWConcat(y + "-", "W" + k);
    assert 'W' !in y + "-" by {
      forall i | 0 <= i < |y| + 1 ensures (y + "-")[i] != 'W' {
        if i < |y| {
          assert IsDigit(y[i]);
        }
      }
    }
    assert 'W' !in k by {
      forall i | 0 <= i < |k| ensures k[i] != 'W' {
        assert IsDigit(k[i]);
      }
    }
    RemoveWNone(y + "-");
    assert ("W" + k)[1..] == k;
    RemoveWNone(k);
  }

  /**
   * `Week.toString()` as written: `yyyy-ww` of the week's Wednesday with `-`
   * replaced by `-W`.  `yyyy` is the Wednesday's calendar year while `ww` is
   * its ISO week number.
   */
  function WeekText(w: Period): (s: string)
    requires w.kind == WeekKind
    ensures |s| >= 8
  {
    var wed := First(w) + 2;
    ZeroPad(YearOfEra(YearOf(wed)), 4) + "-W" + ZeroPad(WeekOfYear(wed), 2)
  }

  /**
   * The evidently intended `Week.toString()`: the ISO 8601 week-numbering
   * year (the year of the week's Thursday) and the week number.
   */
  function WeekTextIso(w: Period): (s: string)
    requires w.kind == WeekKind
    ensures |s| >= 8
  {
    ZeroPad(YearOfEra(WeekYear(First(w))), 4) + "-W" + ZeroPad(WeekOfYear(First(w)), 2)
  }

  /**
   * `Week.valueOf`: every `W` removed, then `yyyy-ww` read with Monday-first
   * weeks and four days in week 1: the Monday `ww - 1` weeks after week 1 of
   * year `yyyy`, or `IllegalArgumentException`.
   */
  function ParseWeek(s: string): (r: Result<Period, Failure>)
    ensures r.Ok? <==> ReadTwoFields(RemoveW(s)).Some?
    ensures r.Ok? ==> var f := ReadTwoFields(RemoveW(s)).value;
      r.value.kind == WeekKind && First(r.value) == FirstWeekStart(f.0) + 7 * (f.1 - 1)
    ensures r.Err? ==> r.error == IllegalArgument("The string was not formatted correctly")
  {
    match ReadTwoFields(RemoveW(s))
    case Some((y, k)) =>
      WeeksAfterFirstWeek(y, k - 1);
      Ok(Create(WeekKind, FirstWeekStart(y) + 7 * (k - 1)))
    case None => Err(IllegalArgument("The string was not formatted correctly"))
  }

  /** Whole weeks after week 1 of a year start on a Monday, and the Week holding that Monday starts on it. */
  lemma WeeksAfterFirstWeek(y: int, k: int)
    ensures First(Create(WeekKind, FirstWeekStart(y) + 7 * k)) == FirstWeekStart(y) + 7 * k
  {
    FirstThursday(y);
    MondayStartsWeek(FirstWeekStart(y) + 7 * k);
  }

  /** The week holding a Monday starts on it. */
  lemma MondayStartsWeek(monday: int)
    requires DayOfWeek(monday) == 0
    ensures First(Create(WeekKind, monday)) == monday
  {
    WeekBounds(monday);
  }

  /** Reading `yyyy-Www` for a week-year `y` and week `k` gives the Monday `k - 1` weeks after week 1 of `y`. */
  lemma ParseWeekDigits(y: nat, k: nat)
    ensures var r := ParseWeek(ZeroPad(y, 4) + "-W" + ZeroPad(k, 2));
      r.Ok? && First(r.value) == FirstWeekStart(y) + 7 * (k - 1)
  {
    var a, b := ZeroPad(y, 4), ZeroPad(k, 2);
    Padded(y, 4);
    Padded(k, 2);
    WeekTextDigits(a, b);
    assert a + "-" + b == a + "-" + b + "";
    ReadDashedTwo(a, b, "");
  }

  /** Each of the seven days of a Week lies in the week starting on the Week's first day. */
  lemma WeekDay(w: Period, j: int)
    requires w.kind == WeekKind && 0 <= j < 7
    ensures WeekStart(First(w) + j) == First(w)
  {
    assert First(w) + 3 == 7 * w.index;
  }

  /** Two Weeks starting on the same day are the same Week. */
  lemma WeekByFirst(a: Period, b: Period)
    requires a.kind == WeekKind && b.kind == WeekKind && First(a) == First(b)
    ensures a == b
  {
  }

  /** The ISO text of a week is its week-numbering year and week number, padded. */
  lemma WeekTextIsoFields(w: Period)
    requires w.kind == WeekKind
    requires 1 <= WeekYear(First(w))
    ensures WeekOfYear(First(w)) <= 53
    ensures WeekTextIso(w) == ZeroPad(WeekYear(First(w)), 4) + "-W" + ZeroPad(WeekOfYear(First(w)), 2)
  {
    WeekNumbering(First(w));
  }

  /** Every week whose week-numbering year is 1 or later reads back from its ISO text. */
  lemma WeekTextIsoRoundTrip(w: Period)
    requires w.kind == WeekKind
    requires 1 <= WeekYear(First(w))
    ensures ParseWeek(WeekTextIso(w)) == Ok(w)
  {
    var y, k := WeekYear(First(w)), WeekOfYear(First(w));
    WeekTextIsoFields(w);
    ParseWeekDigits(y, k);
    var r := ParseWeek(WeekTextIso(w));
    assert First(r.value) == WeekStart(First(w)) by {
      WeekNumbering(First(w));
    }
    WeekDay(w, 0);
    WeekByFirst(r.value, w);
  }

  /** The text as written and the ISO text agree when the Wednesday's year and week number are the week's own. */
  lemma WeekTextByFields(w: Period)
    requires w.kind == WeekKind
    requires YearOf(First(w) + 2) == WeekYear(First(w))
    requires WeekOfYear(First(w) + 2) == WeekOfYear(First(w))
    ensures WeekText(w) == WeekTextIso(w)
  {
  }

  /** Where the Wednesday is not December 31, the text as written is the ISO text. */
  lemma WeekTextAgrees(w: Period)
    requires w.kind == WeekKind
    requires First(w) + 2 != DayNumber(Date(YearOf(First(w) + 2), 12, 31))
    ensures WeekText(w) == WeekTextIso(w)
  {
    WednesdayYear(w);
    WednesdayWeek(w);
    WeekTextByFields(w);
  }

  lemma WednesdayYear(w: Period)
    requires w.kind == WeekKind
    requires First(w) + 2 != DayNumber(Date(YearOf(First(w) + 2), 12, 31))
    ensures YearOf(First(w) + 2) == WeekYear(First(w))
  {
    PeriodKinds.WeekYearAgreesWithIso(w);
  }

  lemma WednesdayWeek(w: Period)
    requires w.kind == WeekKind
    ensures WeekOfYear(First(w) + 2) == WeekOfYear(First(w))
  {
    WeekDay(w, 2);
    WeekDay(w, 0);
  }

  /** The text as written of a week whose Wednesday is December 31 of year `y` says week 1 of `y`. */
  lemma WeekTextOfLastWednesday(w: Period)
    requires w.kind == WeekKind
    requires 1 <= YearOf(First(w) + 2)
    requires First(w) + 2 == DayNumber(Date(YearOf(First(w) + 2), 12, 31))
    ensures WeekText(w) == ZeroPad(YearOf(First(w) + 2), 4) + "-W" + ZeroPad(1, 2)
  {
    var wed := First(w) + 2;
    var y := YearOf(wed);
    assert WeekStart(wed) + 3 == wed + 1 by {
      WeekDay(w, 2);
    }
    NewYearsEve(wed);
    assert WeekOfYear(wed) == 1;
    assert YearOfEra(y) == y;
  }

  /**
   * Where the Wednesday is December 31 of a year `y`, the text as written
   * says week 1 of `y`, which reads back as a week at the start of `y`: the
   * week does not survive its own text.
   */
  lemma WeekTextMisreads(w: Period)
    requires w.kind == WeekKind
    requires 1 <= YearOf(First(w) + 2)
    requires First(w) + 2 == DayNumber(Date(YearOf(First(w) + 2), 12, 31))
    ensures ParseWeek(WeekText(w)).Ok?
    ensures First(ParseWeek(WeekText(w)).value) < YearStart(YearOf(First(w) + 2)) + 7 < First(w)
  {
    var y := YearOf(First(w) + 2);
    WeekTextOfLastWednesday(w);
    ParseWeekDigits(y, 1);
    FirstThursday(y);
    YearEnd(y);
    YearStartStep(y);
  }

  /** The day after a December 31 is New Year's Day of the next year. */
  lemma NewYearsEve(n: int)
    requires n == DayNumber(Date(YearOf(n), 12, 31))
    ensures n + 1 == YearStart(YearOf(n) + 1) && YearOf(n + 1) == YearOf(n) + 1
  {
    var y := YearOf(n);
    YearEnd(y);
    YearStartStep(y + 1);
    YearOfUnique(n + 1, y + 1);
  }

  /** The day after December 31 of `y` is January 1 of `y + 1`. */
  lemma YearEnd(y: int)
    ensures DayNumber(Date(y, 12, 31)) + 1 == YearStart(y + 1)
  {
    MonthEnd(y, 12);
    assert 12 * (y + 1) == 12 * y + 12;
  }

  /** In a year whose December 29 is a Monday, that week's Wednesday is December 31, so its text misreads. */
  lemma WeekOfDecember29(y: int)
    requires 1 <= y
    requires DayOfWeek(DayNumber(Date(y, 12, 29))) == 0
    ensures var w := Create(WeekKind, DayNumber(Date(y, 12, 29)));
      && First(w) == DayNumber(Date(y, 12, 29))
      && First(w) + 2 == DayNumber(Date(YearOf(First(w) + 2), 12, 31))
      && ParseWeek(WeekText(w)).Ok? && ParseWeek(WeekText(w)).value != w
  {
    var n := DayNumber(Date(y, 12, 29));
    var w := Create(WeekKind, n);
    assert First(w) == n by {
      WeekBounds(n);
    }
    assert YearOf(n + 2) == y by {
      DateRoundTrip(Date(y, 12, 31));
    }
    WeekTextMisreads(w);
  }

  /** The week of Monday 2014-12-29: its Wednesday is 2014-12-31, so its text as written misreads. */
  lemma WeekTextMisreadExample(y: int)
    requires y == 2014
    ensures var w := Create(WeekKind, DayNumber(Date(y, 12, 29)));
      ParseWeek(WeekText(w)).Ok? && ParseWeek(WeekText(w)).value != w
  {
    LastMondayOf2014(y);
    WeekOfDecember29(y);
  }

  /** 2014-12-29 was a Monday. */
  lemma LastMondayOf2014(y: int)
    requires y == 2014
    ensures DayOfWeek(DayNumber(Date(y, 12, 29))) == 0
  {
    assert DaysBeforeMonth(y, 12) == 334 by {
      assert !IsLeap(y);
    }
    assert MonthStart(y, 12) == 16405 by {
      YearStart2014(y);
      MonthStartInYear(y, 12);
    }
    assert DayNumber(Date(y, 12, 29)) == 16433;
  }

  lemma YearStart2014(y: int)
    requires y == 2014
    ensures YearStart(y) == 16071
  {
    YearStartClosedForm(y);
  }

  // ---------------------------------------------------------------------
  // Quarter
  // ---------------------------------------------------------------------

  predicate OctalDigits(s: string) {
    forall i :: 0 <= i < |s| ==> '0' <= s[i] <= '7'
  }

  function OctalValue(s: string): nat
    requires OctalDigits(s)
  {
    if |s| == 0 then 0 else OctalValue(s[..|s| - 1]) * 8 + (s[|s| - 1] as int - '0' as int)
  }

  /**
   * `Integer.decode` on four decimal digits: a leading `0` makes the rest an
   * octal number, and an `8` or `9` there is a `NumberFormatException`.
   */
  function DecodeYear(t: string): (r: Result<nat, Failure>)
    requires |t| == 4 && AllDigits(t)
    ensures t[0] != '0' ==> r == Ok(DigitsValue(t))
    ensures t[0] == '0' ==> (r.Ok? <==> OctalDigits(t[1..]))
    ensures r.Ok? && t[0] == '0' ==> r.value == OctalValue(t[1..])
    ensures r.Err? ==> r.error.NumberFormat?
  {
    if t[0] != '0' then Ok(DigitsValue(t))
    else if OctalDigits(t[1..]) then Ok(OctalValue(t[1..]))
    else Err(NumberFormat("For input string: \"" + t[1..] + "\""))
  }

  /** A four-digit year with a leading `0` is read in octal: `0123` is year 83, `0999` fails. */
  lemma DecodeYearExamples()
    ensures DecodeYear("2006") == Ok(2006)
    ensures DecodeYear("0123") == Ok(83)
    ensures DecodeYear("0999").Err?
  {
    assert DigitsValue("2006") == 2006 by {
      assert "2006"[..3] == "200" && "200"[..2] == "20" && "20"[..1] == "2" && "2"[..0] == "";
      assert DigitsValue("2") == 2;
      assert DigitsValue("20") == 20;
      assert DigitsValue("200") == 200;
    }
    assert "0123"[1..] == "123";
    assert OctalValue("123") == 83 by {
      assert "123"[..2] == "12" && "12"[..1] == "1" && "1"[..0] == "";
    }
    assert !OctalDigits("0999"[1..]) by {
      assert "0999"[1..][0] == '9';
    }
  }

  /** `Quarter.toString()`: the year of the quarter's stop, `-Q` and the quarter number. */
  function QuarterText(p: Period): (s: string)
    requires p.kind == QuarterKind
    ensures |s| >= 4 && s[|s| - 3..] == "-Q" + [s[|s| - 1]]
  {
    var d := DateOf(Last(p));
    NatText(YearOfEra(d.year)) + "-Q" + [DigitChar((d.month - 1) / 3 + 1)]
  }

  /** The quarter number of a quarter text. */
  function QuarterDigit(s: string): (q: int)
    requires QuarterShape(s)
    ensures 1 <= q <= 4
  {
    s[6] as int - '0' as int
  }

  /**
   * `Quarter.valueOf` as written.  The calendar starts from the current
   * time, so it keeps today's day of month, `dayOfMonth`; the year and the
   * quarter's last month (`3q`) are then set on it.
   */
  function ParseQuarterOn(s: string, dayOfMonth: int): (r: Result<Period, Failure>)
    requires 1 <= dayOfMonth <= 31
    ensures !QuarterShape(s) ==> r == Err(IllegalArgument("String was not formatted correctly"))
    ensures QuarterShape(s) ==> (r.Ok? <==> DecodeYear(s[..4]).Ok?)
    ensures r.Ok? ==> (r.value.kind == QuarterKind
      && First(r.value) <= LenientDay(DecodeYear(s[..4]).value, 3 * QuarterDigit(s), dayOfMonth) <= Last(r.value))
  {
    if !QuarterShape(s) then Err(IllegalArgument("String was not formatted correctly"))
    else match DecodeYear(s[..4])
      case Err(e) => Err(e)
      case Ok(y) => Ok(Create(QuarterKind, LenientDay(y, 3 * QuarterDigit(s), dayOfMonth)))
  }

  /**
   * The evidently intended `Quarter.valueOf`: quarter `q` of the decoded
   * year, whatever today's date.
   */
  function ParseQuarter(s: string): (r: Result<Period, Failure>)
    ensures !QuarterShape(s) ==> r == Err(IllegalArgument("String was not formatted correctly"))
    ensures QuarterShape(s) ==> (r.Ok? <==> DecodeYear(s[..4]).Ok?)
    ensures r.Ok? ==> r.value == Period(QuarterKind, 4 * DecodeYear(s[..4]).value + QuarterDigit(s) - 1)
  {
    if !QuarterShape(s) then Err(IllegalArgument("String was not formatted correctly"))
    else match DecodeYear(s[..4])
      case Err(e) => Err(e)
      case Ok(y) =>
        QuarterMonthLength(y, QuarterDigit(s));
        QuarterOfDay(y, QuarterDigit(s), 3 * QuarterDigit(s), 1);
        Ok(Create(QuarterKind, LenientDay(y, 3 * QuarterDigit(s), 1)))
  }

  /** Quarter `q`'s last month has 31 days for the first and fourth quarter and 30 for the others. */
  lemma QuarterMonthLength(y: int, q: int)
    requires 1 <= q <= 4
    ensures MonthLength(y, 3 * q) == if q == 2 || q == 3 then 30 else 31
  {
  }

  /** Any day of month `m` of quarter `q` of year `y` lies in that quarter. */
  lemma QuarterOfDay(y: int, q: int, m: int, day: int)
    requires 1 <= q <= 4 && 3 * q - 2 <= m <= 3 * q
    requires 1 <= day <= MonthLength(y, m)
    ensures Create(QuarterKind, LenientDay(y, m, day)) == Period(QuarterKind, 4 * y + q - 1)
  {
    var p := Period(QuarterKind, 4 * y + q - 1);
    var i, n := 12 * y + m - 1, LenientDay(y, m, day);
    assert First(p) <= n by {
      assert First(p) == MonthIndexStart(12 * y + 3 * q - 3);
      MonthIndexOrder(12 * y + 3 * q - 3, i);
    }
    assert n < MonthIndexStart(i + 1) by {
      MonthIndexOf(y, m);
      MonthIndexStep(i);
    }
    assert MonthIndexStart(i + 1) <= Last(p) + 1 by {
      assert Last(p) + 1 == MonthIndexStart(12 * y + 3 * q);
      MonthIndexOrder(i + 1, 12 * y + 3 * q);
    }
    CreateWithin(p, n);
  }

  /** Up to the 30th of the month the parser as written reads the intended quarter. */
  lemma ParseQuarterOnAgrees(s: string, dayOfMonth: int)
    requires 1 <= dayOfMonth <= 30
    ensures ParseQuarterOn(s, dayOfMonth) == ParseQuarter(s)
  {
    if QuarterShape(s) && DecodeYear(s[..4]).Ok? {
      var y, q := DecodeYear(s[..4]).value, QuarterDigit(s);
      QuarterMonthLength(y, q);
      QuarterOfDay(y, q, 3 * q, dayOfMonth);
    }
  }

  /** A quarter is quarter `(month - 1) / 3 + 1` of the year of its stop. */
  lemma QuarterOfDate(p: Period)
    requires p.kind == QuarterKind
    ensures var d := DateOf(Last(p));
      p.index == 4 * d.year + (d.month - 1) / 3
  {
    var d := DateOf(Last(p));
    FirstBeforeLast(p);
    CreateWithin(p, Last(p));
    DateMonthIndex(Last(p));
    QuarterIndex(d.year, d.month, MonthIndex(Last(p)));
  }

  /** The text of a quarter of the years 1000 to 9999 has the quarter shape, its year and its quarter number. */
  lemma QuarterTextFields(p: Period)
    requires p.kind == QuarterKind
    requires 1000 <= DateOf(Last(p)).year <= 9999
    ensures var d, s := DateOf(Last(p)), QuarterText(p);
      && QuarterShape(s) && DecodeYear(s[..4]) == Ok(d.year)
      && QuarterDigit(s) == (d.month - 1) / 3 + 1
  {
    var d := DateOf(Last(p));
    var q := (d.month - 1) / 3 + 1;
    assert QuarterText(p) == NatText(d.year) + "-Q" + [DigitChar(q)];
    QuarterTextOf(d.year, q);
  }

  /** `yyyy-Qq` for a four-digit year has the quarter shape and reads back as its year and quarter number. */
  lemma QuarterTextOf(y: nat, q: nat)
    requires 1000 <= y <= 9999 && 1 <= q <= 4
    ensures var s := NatText(y) + "-Q" + [DigitChar(q)];
      && QuarterShape(s) && DecodeYear(s[..4]) == Ok(y) && QuarterDigit(s) == q
  {
    var year := NatText(y);
    assert |year| == 4 by {
      NatTextLength(y, 4);
      NatTextLengthAtLeast(y, 4);
    }
    NatTextValue(y);
    NatTextNoLeadingZero(y);
    var s := year + "-Q" + [DigitChar(q)];
    assert s[..4] == year;
  }

  /** A quarter text is read as quarter `q` of its decoded year. */
  lemma ParseQuarterFields(s: string, y: nat, q: int)
    requires QuarterShape(s) && DecodeYear(s[..4]) == Ok(y) && QuarterDigit(s) == q
    ensures ParseQuarter(s) == Ok(Period(QuarterKind, 4 * y + q - 1))
  {
  }

  /** As written, a quarter text is read as the quarter holding day `dayOfMonth` of the quarter's last month, leniently. */
  lemma ParseQuarterOnFields(s: string, y: nat, q: int, dayOfMonth: int)
    requires 1 <= dayOfMonth <= 31
    requires QuarterShape(s) && DecodeYear(s[..4]) == Ok(y) && QuarterDigit(s) == q
    ensures ParseQuarterOn(s, dayOfMonth) == Ok(Create(QuarterKind, LenientDay(y, 3 * q, dayOfMonth)))
  {
  }

  /** Every quarter of the years 1000 to 9999 reads back from its text. */
  lemma QuarterTextRoundTrip(p: Period)
    requires p.kind == QuarterKind
    requires 1000 <= DateOf(Last(p)).year <= 9999
    ensures ParseQuarter(QuarterText(p)) == Ok(p)
  {
    var y, q := QuarterOfText(p);
    ParseQuarterFields(QuarterText(p), y, q);
  }

  /** The year and quarter number a quarter's text shows, and how they place the quarter. */
  lemma QuarterOfText(p: Period) returns (y: nat, q: int)
    requires p.kind == QuarterKind
    requires 1000 <= DateOf(Last(p)).year <= 9999
    ensures var s := QuarterText(p);
      && QuarterShape(s) && DecodeYear(s[..4]) == Ok(y) && QuarterDigit(s) == q
    ensures p.index == 4 * y + q - 1
  {
    var d := DateOf(Last(p));
    y, q := d.year, (d.month - 1) / 3 + 1;
    QuarterOfDate(p);
    QuarterTextFields(p);
  }

  /**
   * On the 31st of a month the parser as written reads the text of a second
   * or third quarter as the quarter after it: the quarter's last month has 30
   * days, so the 31st rolls into the next quarter's first month.
   */
  lemma QuarterTextMisreadOn31st(p: Period)
    requires p.kind == QuarterKind
    requires 1000 <= DateOf(Last(p)).year <= 9999
    requires DateOf(Last(p)).month == 6 || DateOf(Last(p)).month == 9
    ensures ParseQuarterOn(QuarterText(p), 31) == Ok(Period(QuarterKind, p.index + 1))
  {
    var d := DateOf(Last(p));
    var q := if d.month == 6 then 2 else 3;
    assert q == (d.month - 1) / 3 + 1 && 3 * q == d.month;
    assert p.index == 4 * d.year + q - 1 by {
      QuarterOfDate(p);
    }
    assert ParseQuarterOn(QuarterText(p), 31) == Ok(Create(QuarterKind, LenientDay(d.year, 3 * q, 31))) by {
      QuarterTextFields(p);
      ParseQuarterOnFields(QuarterText(p), d.year, q, 31);
    }
    assert LenientDay(d.year, 3 * q, 31) == LenientDay(d.year, 3 * q + 1, 1) by {
      QuarterMonthLength(d.year, q);
      LenientOverflow(d.year, 3 * q, 31);
    }
    assert 1 <= MonthLength(d.year, 3 * q + 1);
    QuarterOfDay(d.year, q + 1, 3 * q + 1, 1);
  }
}
