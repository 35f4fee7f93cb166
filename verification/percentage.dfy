/**
 * `Percentage`: an immutable fraction held as a `BigDecimal` value, so that
 * 5% is the value 0.05.  Arithmetic goes through the value; equality and
 * ordering are by numeric value; the text form is the US percent format
 * with unlimited fraction digits and no grouping, and `valueOf(String)`
 * reads the leading number of a string, commas allowed, as a count of
 * hundredths.
 */
module Percentages {
  import opened Wrappers
  import opened Digits
  import opened Decimals
  import opened DecimalText

  datatype Percentage = Percentage(value: Decimal)

  /** `Percentage.ZERO`, read from "0%". */
  const ZeroPercent: Percentage := Percentage(Decimal(0, 2))

  /** `Percentage.ONE_HUNDRED`, read from "100%". */
  const OneHundredPercent: Percentage := Percentage(Decimal(100, 2))

  /** The sum of two percentages, exact, at the larger scale. */
  function Add(p: Percentage, q: Percentage): (r: Percentage)
    ensures r.value.scale == Max(p.value.scale, q.value.scale)
    ensures forall t :: r.value.scale <= t ==> Units(r.value, t) == Units(p.value, t) + Units(q.value, t)
  {
    Percentage(Decimals.Add(p.value, q.value))
  }

  /** The difference of two percentages, exact, at the larger scale. */
  function Subtract(p: Percentage, q: Percentage): (r: Percentage)
    ensures r.value.scale == Max(p.value.scale, q.value.scale)
    ensures forall t :: r.value.scale <= t ==> Units(r.value, t) == Units(p.value, t) - Units(q.value, t)
  {
    Percentage(Decimals.Subtract(p.value, q.value))
  }

  /** A percentage scaled by a number, exact. */
  function Multiply(p: Percentage, amount: Decimal): (r: Percentage)
    ensures r.value.scale == p.value.scale + amount.scale
    ensures forall s, t :: p.value.scale <= s && amount.scale <= t ==>
      Units(r.value, s + t) == Units(p.value, s) * Units(amount, t)
  {
    Percentage(Decimals.Multiply(p.value, amount))
  }

  /**
   * A percentage divided by a number, rounded half-even to the larger of the
   * two scales; dividing by zero raises `ArithmeticException`.
   */
  function Divide(p: Percentage, amount: Decimal): (r: Result<Percentage, Failure>)
    ensures r.Err? <==> IsZero(amount)
    ensures r.Ok? ==> r.value.value.scale == Max(p.value.scale, amount.scale)
    ensures r.Ok? ==>
      var t := Max(p.value.scale, amount.scale);
      HalfEvenQuotient(Units(p.value, t) * Pow10(Positive(t)), Units(amount, t) * Pow10(Positive(-t)), r.value.value.unscaled)
  {
    match DivideToScale(p.value, amount, Max(p.value.scale, amount.scale))
    case Ok(q) => Ok(Percentage(q))
    case Err(e) => Err(e)
  }

  /**
   * The percentage of an amount, kept at the amount's scale; when the exact
   * product needs more fraction digits `setScale` raises `ArithmeticException`.
   */
  function Of(p: Percentage, amount: Decimal): (r: Result<Decimal, Failure>)
    ensures r.Ok? ==> r.value.scale == amount.scale && SameValue(r.value, Decimals.Multiply(amount, p.value))
    ensures r.Err? ==> r.error == Arithmetic("Rounding necessary")
  {
    SetScale(Decimals.Multiply(amount, p.value), amount.scale)
  }

  /** When `Of` fails, no number at the amount's scale is that percentage of it. */
  lemma OfFailsOnlyWhenInexact(p: Percentage, amount: Decimal, v: int)
    requires Of(p, amount).Err?
    ensures !SameValue(Decimal(v, amount.scale), Decimals.Multiply(amount, p.value))
  {
    SetScaleFailsOnlyWhenInexact(Decimals.Multiply(amount, p.value), amount.scale, v);
  }

  /** The amount changed by the percentage: the amount plus that percentage of it, at the amount's scale. */
  function Change(p: Percentage, amount: Decimal): (r: Result<Decimal, Failure>)
    ensures r.Ok? <==> Of(p, amount).Ok?
    ensures r.Ok? ==> r.value.scale == amount.scale
    ensures r.Ok? ==> SameValue(r.value, Decimals.Add(amount, Decimals.Multiply(amount, p.value)))
  {
    match Of(p, amount)
    case Ok(part) =>
      AddSameValue(amount, part, Decimals.Multiply(amount, p.value));
      Ok(Decimals.Add(amount, part))
    case Err(e) => Err(e)
  }

  /** `compareTo`: the order of the values, whatever their scales. */
  function CompareTo(p: Percentage, q: Percentage): (c: int)
    ensures c == -1 || c == 0 || c == 1
    ensures c == 0 <==> Equals(p, q)
    ensures forall t :: Max(p.value.scale, q.value.scale) <= t ==> c == Sign(Units(p.value, t) - Units(q.value, t))
  {
    Compare(p.value, q.value)
  }

  /** Swapping the operands of `compareTo` flips the sign of the answer. */
  lemma CompareToAntisymmetric(p: Percentage, q: Percentage)
    ensures CompareTo(p, q) == -CompareTo(q, p)
  {
    var t := Max(p.value.scale, q.value.scale);
    assert CompareTo(p, q) == Sign(Units(p.value, t) - Units(q.value, t));
    assert CompareTo(q, p) == Sign(Units(q.value, t) - Units(p.value, t));
  }

  /** `equals`: the same numeric value, so 10% and 10.00% are equal. */
  predicate Equals(p: Percentage, q: Percentage) {
    SameValue(p.value, q.value)
  }

  /** `equals` is an equivalence relation. */
  lemma EqualsEquivalence(p: Percentage, q: Percentage, o: Percentage)
    ensures Equals(p, p)
    ensures Equals(p, q) ==> Equals(q, p)
    ensures Equals(p, q) && Equals(q, o) ==> Equals(p, o)
  {
    if Equals(p, q) && Equals(q, o) {
      SameValueTransitive(p.value, q.value, o.value);
    }
  }

  /**
   * The hash code is taken from the value with trailing zeros stripped, and
   * that stripped value agrees exactly when the percentages are equal, so
   * `hashCode` is consistent with `equals`.
   */
  lemma HashMatchesEquals(p: Percentage, q: Percentage)
    ensures StripTrailingZeros(p.value) == StripTrailingZeros(q.value) <==> Equals(p, q)
  {
    StripCanonical(p.value, q.value);
  }

  /** Adding a percentage and subtracting it again leaves an equal percentage. */
  lemma SubtractUndoesAdd(p: Percentage, q: Percentage)
    ensures Equals(Subtract(Add(p, q), q), p)
  {
    var r := Subtract(Add(p, q), q);
    var t := r.value.scale;
    assert Units(r.value, t) == Units(p.value, t);
    SameValueAt(r.value, p.value, t);
  }

  /** Multiplying by a non-zero amount and dividing by it again gives back an equal percentage. */
  lemma DivideUndoesMultiply(p: Percentage, amount: Decimal)
    requires !IsZero(amount) && p.value.scale >= 0 && amount.scale >= 0
    ensures Divide(Multiply(p, amount), amount).Ok?
    ensures Equals(Divide(Multiply(p, amount), amount).value, p)
  {
    var product := Multiply(p, amount).value;
    var q := Rescaled(p.value, p.value.scale + amount.scale);
    MultiplySameValue(q, p.value, amount);
    SameValueSymmetric(Decimals.Multiply(q, amount), product);
    ExactDivision(product, amount, q);
    SameValueSymmetric(q, p.value);
  }

  /** The hundredths of one percent of `Of` and `Change`: all of an amount, and the amount changed by nothing. */
  lemma OfOneHundredAndZero(amount: Decimal)
    ensures Of(OneHundredPercent, amount) == Ok(amount)
    ensures Change(ZeroPercent, amount) == Ok(amount)
  {
    var whole := Decimals.Multiply(amount, OneHundredPercent.value);
    assert Units(whole, whole.scale) == Units(amount, amount.scale) * 100;
    var none := Decimals.Multiply(amount, ZeroPercent.value);
    assert none.unscaled == 0;
  }

  /** Strings of the class `[\d|,]`, or of plain digits when `digitsOnly`. */
  predicate InRun(c: char, digitsOnly: bool) {
    IsDigit(c) || (!digitsOnly && (c == '|' || c == ','))
  }

  /** The length of the longest prefix of `s` whose characters are in the class. */
  function Run(s: string, digitsOnly: bool): (n: nat)
    ensures n <= |s|
  {
    if |s| == 0 || !InRun(s[0], digitsOnly) then 0 else 1 + Run(s[1..], digitsOnly)
  }

  /** The run is in the class, and the character after it is not. */
  lemma {:induction false} RunMaximal(s: string, digitsOnly: bool)
    ensures forall i :: 0 <= i < Run(s, digitsOnly) ==> InRun(s[i], digitsOnly)
    ensures Run(s, digitsOnly) < |s| ==> !InRun(s[Run(s, digitsOnly)], digitsOnly)
    decreases |s|
  {
    if |s| > 0 && InRun(s[0], digitsOnly) {
      RunMaximal(s[1..], digitsOnly);
    }
  }

  /** A run ends exactly where its characters stop. */
  lemma {:induction false} RunOf(a: string, b: string, digitsOnly: bool)
    requires forall i :: 0 <= i < |a| ==> InRun(a[i], digitsOnly)
    requires |b| == 0 || !InRun(b[0], digitsOnly)
    ensures Run(a + b, digitsOnly) == |a|
    decreases |a|
  {
    if |a| == 0 {
      assert a + b == b;
    } else {
      assert (a + b)[0] == a[0];
      assert (a + b)[1..] == a[1..] + b;
      RunOf(a[1..], b, digitsOnly);
    }
  }

  /**
   * The first group of `^(-?[\d|,]*(\.\d+)?)\%?` found in `s`: an optional
   * minus, then the unsigned number that follows.
   */
  function LeadingNumber(s: string): (g: string)
    ensures |g| <= |s| && g == s[..|g|]
  {
    var k := if |s| > 0 && s[0] == '-' then 1 else 0;
    s[..k] + UnsignedNumber(s[k..])
  }

  /** The longest run of digits, bars and commas, then a point with its digits when a digit follows the point. */
  function UnsignedNumber(s: string): (g: string)
    ensures |g| <= |s| && g == s[..|g|]
  {
    var w := Run(s, false);
    if w + 1 < |s| && s[w] == '.' && IsDigit(s[w + 1]) then s[..w + 1 + Run(s[w + 1..], true)] else s[..w]
  }

  /**
   * `Percentage.valueOf(String)`: the leading number with its commas removed,
   * read as a `BigDecimal` and divided by 100.  No leading number raises
   * `IllegalArgumentException`; a leading number `BigDecimal` cannot read
   * (a bar, a lone minus, only commas) raises `NumberFormatException`.
   */
  function ParsePercentage(s: string): (r: Result<Percentage, Failure>)
    ensures |LeadingNumber(s)| == 0 ==> r == Err(IllegalArgument("[" + s + "] not in <value>% format."))
    ensures r.Ok? ==> |LeadingNumber(s)| > 0 && r.value.value.scale >= 2
  {
    var group := LeadingNumber(s);
    if |group| == 0 then
      Err(IllegalArgument("[" + s + "] not in <value>% format."))
    else
      match ParseDecimal(WithoutChar(group, ','))
      case Ok(d) => Ok(Percentage(MovePointLeft(d, 2)))
      case Err(e) => Err(e)
  }

  /**
   * `toString`, the US percent format with unlimited fraction digits and no
   * grouping: the value times 100 in plain notation with trailing fraction
   * zeros dropped, then `%`.
   */
  function PercentText(p: Percentage): string {
    var hundredfold := StripTrailingZeros(Scaled(p.value, -2));
    var shown := if hundredfold.scale < 0 then Rescaled(hundredfold, 0) else hundredfold;
    PlainText(shown) + "%"
  }

  /** `percentageChange(from, to)`: `(to - from) / from`, rounded half-even to at least two places. */
  function PercentageChange(from: Decimal, to: Decimal): (r: Result<Percentage, Failure>)
    ensures r.Err? <==> IsZero(from)
    ensures r.Ok? ==> r.value.value.scale == Max(2, Max(from.scale, to.scale))
    ensures r.Ok? ==>
      var diff, s := Decimals.Subtract(to, from), Max(2, Max(from.scale, to.scale));
      var t := Max(diff.scale, from.scale);
      HalfEvenQuotient(Units(diff, t) * Pow10(Positive(s)), Units(from, t) * Pow10(Positive(-s)), r.value.value.unscaled)
  {
    match DivideToScale(Decimals.Subtract(to, from), from, Max(2, Max(from.scale, to.scale)))
    case Ok(q) => Ok(Percentage(q))
    case Err(e) => Err(e)
  }

  /**
   * The percentage change from an amount to that amount changed by a rate
   * is the rate again, whenever the rate needs no more fraction digits than
   * the change is rounded to.
   */
  lemma PercentageChangeRecoversRate(p: Percentage, from: Decimal)
    requires !IsZero(from) && from.scale >= 0
    requires 0 <= p.value.scale <= Max(2, from.scale)
    requires Of(p, from).Ok?
    ensures Change(p, from).Ok?
    ensures PercentageChange(from, Change(p, from).value).Ok?
    ensures Equals(PercentageChange(from, Change(p, from).value).value, p)
  {
    var part := Of(p, from).value;
    var to := Change(p, from).value;
    assert to == Decimals.Add(from, part);
    var rise := Decimals.Subtract(to, from);
    var s := Max(2, from.scale);
    assert Max(from.scale, to.scale) == from.scale;
    var q := Rescaled(p.value, s);
    assert SameValue(rise, part) by {
      assert Units(rise, from.scale) == Units(part, from.scale);
    }
    assert SameValue(rise, Decimals.Multiply(q, from)) by {
      MultiplySameValue(q, p.value, from);
      MultiplyCommutative(p.value, from);
      SameValueTransitive(rise, part, Decimals.Multiply(from, p.value));
      SameValueSymmetric(Decimals.Multiply(q, from), Decimals.Multiply(p.value, from));
      SameValueTransitive(rise, Decimals.Multiply(p.value, from), Decimals.Multiply(q, from));
    }
    ExactDivision(rise, from, q);
    SameValueSymmetric(q, p.value);
  }

  /** Every character of plain notation is a digit, the minus sign or the point. */
  lemma PlainPartsNoComma(sign: string, w: string, tail: string)
    requires sign == "" || sign == "-"
    requires AllDigits(w)
    requires forall i :: 0 <= i < |tail| ==> tail[i] == '.' || IsDigit(tail[i])
    ensures forall i :: 0 <= i < |sign + w + tail| ==> (sign + w + tail)[i] != ','
  {
    var s := sign + w + tail;
    forall i | 0 <= i < |s| ensures s[i] != ',' {
      if i < |sign| {
        assert s[i] == '-';
      } else if i < |sign| + |w| {
        assert s[i] == w[i - |sign|];
      } else {
        assert s[i] == tail[i - |sign| - |w|];
      }
    }
  }

  /** The leading number of plain notation followed by `%` is that notation. */
  lemma LeadingPlainText(d: Decimal)
    requires d.scale >= 0
    ensures LeadingNumber(PlainText(d) + "%") == PlainText(d)
  {
    var sign := if d.unscaled < 0 then "-" else "";
    var m := PlainMagnitudeText(d);
    assert m[0] != '-' by {
      var w, f := PlainMagnitudeParts(d);
      assert m[0] == w[0];
    }
    LeadingSign(PlainText(d) + "%", sign, m + "%");
    UnsignedPlain(d);
  }

  lemma UnsignedPlain(d: Decimal)
    requires d.scale >= 0
    ensures UnsignedNumber(PlainMagnitudeText(d) + "%") == PlainMagnitudeText(d)
  {
    var w, f := PlainMagnitudeParts(d);
    if |f| > 0 {
      UnsignedFraction(PlainMagnitudeText(d) + "%", w, f, "%");
    } else {
      UnsignedWhole(PlainMagnitudeText(d) + "%", w, "%");
    }
  }

  lemma LeadingSign(s: string, sign: string, body: string)
    requires sign == "" || sign == "-"
    requires |body| > 0 && body[0] != '-'
    requires s == sign + body
    ensures LeadingNumber(s) == sign + UnsignedNumber(body)
  {
    assert s[0] == (if sign == "" then body[0] else '-');
    assert s[..|sign|] == sign && s[|sign|..] == body;
  }

  lemma UnsignedWhole(s: string, w: string, rest: string)
    requires forall i :: 0 <= i < |w| ==> InRun(w[i], false)
    requires |rest| > 0 && !InRun(rest[0], false) && rest[0] != '.'
    requires s == w + rest
    ensures UnsignedNumber(s) == w
  {
    RunOf(w, rest, false);
    assert s[|w|] == rest[0];
    assert s[..|w|] == w;
  }

  lemma UnsignedFraction(s: string, w: string, f: string, rest: string)
    requires AllDigits(w) && AllDigits(f) && |f| > 0
    requires |rest| > 0 && !InRun(rest[0], true)
    requires s == w + "." + f + rest
    ensures UnsignedNumber(s) == w + "." + f
  {
    assert s == w + ("." + f + rest);
    RunOf(w, "." + f + rest, false);
    assert s[|w|] == '.' && s[|w| + 1] == f[0];
    assert s[|w| + 1..] == f + rest;
    RunOf(f, rest, true);
    assert s[..|w| + 1 + |f|] == w + "." + f;
  }

  /** Every character of plain notation is a digit, the minus sign or the point. */
  lemma PlainNoComma(d: Decimal)
    requires d.scale >= 0
    ensures WithoutChar(PlainText(d), ',') == PlainText(d)
  {
    var sign := if d.unscaled < 0 then "-" else "";
    var w, f := PlainMagnitudeParts(d);
    var tail := if |f| > 0 then "." + f else "";
    assert PlainText(d) == sign + w + tail;
    PlainPartsNoComma(sign, w, tail);
    WithoutCharAbsent(PlainText(d), ',');
  }

  /** Plain notation followed by `%` reads as that number of hundredths. */
  lemma ParsePlainPercent(d: Decimal)
    requires d.scale >= 0
    ensures ParsePercentage(PlainText(d) + "%") == Ok(Percentage(Scaled(d, 2)))
  {
    LeadingPlainText(d);
    PlainNoComma(d);
    ParsePlain(d);
  }

  /** `valueOf(toString())` gives back an equal percentage: the text form is its external form. */
  lemma PercentTextRoundTrip(p: Percentage)
    ensures ParsePercentage(PercentText(p)).Ok?
    ensures Equals(ParsePercentage(PercentText(p)).value, p)
  {
    var hundredfold := StripTrailingZeros(Scaled(p.value, -2));
    var shown := if hundredfold.scale < 0 then Rescaled(hundredfold, 0) else hundredfold;
    assert SameValue(shown, Scaled(p.value, -2)) by {
      if hundredfold.scale < 0 {
        SameValueTransitive(shown, hundredfold, Scaled(p.value, -2));
      }
    }
    ParsePlainPercent(shown);
    ScaledSameValue(shown, Scaled(p.value, -2), 2);
    assert Scaled(Scaled(p.value, -2), 2) == p.value;
  }

  /** `ZERO` is what "0%" reads as. */
  lemma ZeroPercentParses()
    ensures ParsePercentage("0%") == Ok(ZeroPercent)
  {
    assert PlainText(Decimal(0, 0)) + "%" == "0%";
    ParsePlainPercent(Decimal(0, 0));
  }

  /** `ONE_HUNDRED` is what "100%" reads as. */
  lemma OneHundredPercentParses()
    ensures ParsePercentage("100%") == Ok(OneHundredPercent)
  {
    assert PlainText(Decimal(100, 0)) + "%" == "100%" by {
      assert NatText(100) == NatText(10) + "0";
    }
    ParsePlainPercent(Decimal(100, 0));
  }

  /** Every character of a grouped rendering is a digit or a comma. */
  lemma {:induction false} GroupedInRun(digits: string)
    requires AllDigits(digits)
    ensures |Grouped(digits)| >= |digits|
    ensures forall i :: 0 <= i < |Grouped(digits)| ==> InRun(Grouped(digits)[i], false)
    decreases |digits|
  {
    if |digits| > 3 {
      var h, t := digits[..|digits| - 3], digits[|digits| - 3..];
      GroupedInRun(h);
      var g := Grouped(h) + "," + t;
      assert Grouped(digits) == g;
      forall i | 0 <= i < |g| ensures InRun(g[i], false) {
        if i < |Grouped(h)| {
          assert g[i] == Grouped(h)[i];
        } else if i > |Grouped(h)| {
          assert g[i] == t[i - |Grouped(h)| - 1];
        }
      }
    }
  }

  /** A whole number written with thousands separators and `%` reads as that many hundredths. */
  lemma ParseGroupedPercent(n: nat)
    ensures ParsePercentage(Grouped(NatText(n)) + "%") == Ok(Percentage(Decimal(n, 2)))
  {
    var g := Grouped(NatText(n));
    assert LeadingNumber(g + "%") == g && |g| > 0 by {
      GroupedInRun(NatText(n));
      assert g[0] != '-';
      LeadingSign(g + "%", "", g + "%");
      UnsignedWhole(g + "%", g, "%");
    }
    assert WithoutChar(g, ',') == PlainText(Decimal(n, 0)) by {
      GroupedDigits(NatText(n));
    }
    assert ParseDecimal(PlainText(Decimal(n, 0))) == Ok(Decimal(n, 0)) by {
      ParsePlain(Decimal(n, 0));
    }
  }

  /** "5%" reads as five hundredths. */
  lemma FivePercentParses()
    ensures ParsePercentage("5%") == Ok(Percentage(Decimal(5, 2)))
  {
    assert PlainText(Decimal(5, 0)) + "%" == "5%";
    ParsePlainPercent(Decimal(5, 0));
  }

  /** "1,000%" reads as ten: the grouping commas are dropped. */
  lemma GroupedPercentParses()
    ensures ParsePercentage("1,000%") == Ok(Percentage(Decimal(1000, 2)))
  {
    assert Grouped(NatText(1000)) + "%" == "1,000%" by {
      assert NatText(1000) == NatText(100) + "0";
      assert NatText(100) == NatText(10) + "0";
    }
    ParseGroupedPercent(1000);
  }

  /** Text with no leading number is refused with the format message. */
  lemma ParseRejectsExample()
    ensures ParsePercentage("what the hell is this.")
      == Err(IllegalArgument("[" + "what the hell is this." + "] not in <value>% format."))
  {
    var s := "what the hell is this.";
    assert Run(s, false) == 0;
    assert UnsignedNumber(s) == "";
    assert LeadingNumber(s) == "";
  }

  /** Sums, differences and products are exact. */
  lemma ArithmeticExamples()
    ensures Add(Percentage(Decimal(20, 2)), Percentage(Decimal(5, 2))) == Percentage(Decimal(25, 2))
    ensures Subtract(Percentage(Decimal(20, 2)), Percentage(Decimal(5, 2))) == Percentage(Decimal(15, 2))
    ensures Multiply(Percentage(Decimal(20, 2)), Decimal(5, 0)) == OneHundredPercent
  {
  }

  /** Quotients are rounded to the finer scale of the two operands. */
  lemma DivideExamples()
    ensures Divide(Percentage(Decimal(20, 2)), Decimal(5, 0)) == Ok(Percentage(Decimal(4, 2)))
    ensures Divide(Percentage(Decimal(10, 2)), Decimal(3, 0)) == Ok(Percentage(Decimal(3, 2)))
    ensures Divide(Percentage(Decimal(10, 2)), Decimal(30000, 4)) == Ok(Percentage(Decimal(333, 4)))
  {
    ExactDivision(Decimal(20, 2), Decimal(5, 0), Decimal(4, 2));
    assert DivideToScale(Decimal(10, 2), Decimal(3, 0), 2) == Ok(Decimal(3, 2)) by {
      assert Units(Decimal(10, 2), 2) * Pow10(2) == 1000 && Units(Decimal(3, 0), 2) * Pow10(0) == 300;
      assert HalfEvenQuotient(1000, 300, 3);
      DivideToScaleIs(Decimal(10, 2), Decimal(3, 0), 2, 3);
    }
    assert DivideToScale(Decimal(10, 2), Decimal(30000, 4), 4) == Ok(Decimal(333, 4)) by {
      assert Units(Decimal(10, 2), 4) * Pow10(4) == 10000000 && Units(Decimal(30000, 4), 4) * Pow10(0) == 30000;
      assert HalfEvenQuotient(10000000, 30000, 333);
      DivideToScaleIs(Decimal(10, 2), Decimal(30000, 4), 4, 333);
    }
  }

  /** `of` and `change` keep the amount's scale; a result that needs more digits is refused. */
  lemma OfExamples(ten: Percentage, minusTen: Percentage, large: Decimal, hundred: Decimal, five: Decimal)
    requires ten == Percentage(Decimal(10, 2)) && minusTen == Percentage(Decimal(-10, 2))
    requires large == Decimal(1000000, 4) && hundred == Decimal(100, 0) && five == Decimal(5, 0)
    ensures Of(ten, large) == Ok(Decimal(100000, 4))
    ensures Of(minusTen, hundred) == Ok(Decimal(-10, 0))
    ensures Change(ten, large) == Ok(Decimal(1100000, 4))
    ensures Change(minusTen, hundred) == Ok(Decimal(90, 0))
    ensures Of(ten, five) == Err(Arithmetic("Rounding necessary"))
  {
    assert Pow10(0) == 1 && Pow10(2) == 100;
    assert Decimals.Multiply(large, ten.value) == Decimal(10000000, 6);
    assert Decimals.Multiply(hundred, minusTen.value) == Decimal(-1000, 2);
    assert Decimals.Multiply(five, ten.value) == Decimal(50, 2);
    assert SetScale(Decimal(10000000, 6), 4) == Ok(Decimal(100000, 4));
    assert SetScale(Decimal(-1000, 2), 0) == Ok(Decimal(-10, 0));
    assert SetScale(Decimal(50, 2), 0).Err?;
    assert Decimals.Add(large, Decimal(100000, 4)) == Decimal(1100000, 4);
    assert Decimals.Add(hundred, Decimal(-10, 0)) == Decimal(90, 0);
  }

  /** A change that comes out exactly keeps two places. */
  lemma PercentageChangeExactExamples(hundred: Decimal, more: Decimal, less: Decimal)
    requires hundred == Decimal(100, 0) && more == Decimal(110, 0) && less == Decimal(90, 0)
    ensures PercentageChange(hundred, more) == Ok(Percentage(Decimal(10, 2)))
    ensures PercentageChange(hundred, less) == Ok(Percentage(Decimal(-10, 2)))
  {
    assert Pow10(0) == 1 && Pow10(2) == 100;
    assert Units(hundred, 0) == 100;
    var up, down := Decimals.Subtract(more, hundred), Decimals.Subtract(less, hundred);
    assert up == Decimal(10, 0) && Units(up, 0) == 10;
    assert down == Decimal(-10, 0) && Units(down, 0) == -10;
    assert HalfEvenQuotient(1000, 100, 10) && HalfEvenQuotient(-1000, 100, -10);
    DivideToScaleIs(up, hundred, 2, 10);
    DivideToScaleIs(down, hundred, 2, -10);
    PercentageChangeIs(hundred, more, Decimal(10, 2));
    PercentageChangeIs(hundred, less, Decimal(-10, 2));
  }

  /** The change is the percentage holding the quotient at the result scale. */
  lemma PercentageChangeIs(from: Decimal, to: Decimal, q: Decimal)
    requires DivideToScale(Decimals.Subtract(to, from), from, Max(2, Max(from.scale, to.scale))) == Ok(q)
    ensures PercentageChange(from, to) == Ok(Percentage(q))
  {
  }

  /** A change that does not come out exactly is rounded to two places. */
  lemma PercentageChangeRoundedExample(from: Decimal, to: Decimal)
    requires from == Decimal(90, 0) && to == Decimal(120, 0)
    ensures PercentageChange(from, to) == Ok(Percentage(Decimal(33, 2)))
  {
    var diff := Decimals.Subtract(to, from);
    assert diff == Decimal(30, 0);
    assert DivideToScale(diff, from, 2) == Ok(Decimal(33, 2)) by {
      assert Pow10(0) == 1 && Pow10(2) == 100;
      assert Units(diff, 0) == 30 && Units(from, 0) == 90;
      assert HalfEvenQuotient(3000, 90, 33);
      DivideToScaleIs(diff, from, 2, 33);
    }
    PercentageChangeIs(from, to, Decimal(33, 2));
  }

  /** A finer operand makes the change finer too. */
  lemma PercentageChangeFinerExample()
    ensures PercentageChange(Decimal(90, 0), Decimal(1200000, 4)) == Ok(Percentage(Decimal(3333, 4)))
  {
    assert Decimals.Subtract(Decimal(1200000, 4), Decimal(90, 0)) == Decimal(300000, 4);
    assert DivideToScale(Decimal(300000, 4), Decimal(90, 0), 4) == Ok(Decimal(3333, 4)) by {
      assert Units(Decimal(90, 0), 4) == 900000 by {
        assert Pow10(4) == 10000;
      }
      assert Units(Decimal(300000, 4), 4) * Pow10(4) == 3000000000 && 900000 * Pow10(0) == 900000;
      assert HalfEvenQuotient(3000000000, 900000, 3333);
      DivideToScaleIs(Decimal(300000, 4), Decimal(90, 0), 4, 3333);
    }
  }

  /** The text form drops trailing zeros. */
  lemma PercentTextExample()
    ensures PercentText(Percentage(Decimal(1000000, 7))) == "10%"
  {
    assert StripTrailingZeros(Decimal(1000000, 5)) == Decimal(1, -1) by {
      var r := StripTrailingZeros(Decimal(1000000, 5));
      assert SameValue(Decimal(1, -1), Decimal(1000000, 5)) by {
        assert Pow10(6) == 1000000;
      }
      SameValueSymmetric(r, Decimal(1000000, 5));
      SameValueTransitive(Decimal(1, -1), Decimal(1000000, 5), r);
      StrippedUnique(r, Decimal(1, -1));
    }
    assert Rescaled(Decimal(1, -1), 0) == Decimal(10, 0);
    assert PercentText(Percentage(Decimal(1000000, 7))) == PlainText(Decimal(10, 0)) + "%";
    assert NatText(10) == "10";
  }
}
