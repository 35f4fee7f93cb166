/**
 * Text forms of decimals: `BigDecimal.toString`, the `new BigDecimal(String)`
 * reading of the plain digit strings the pantheon parsers extract, and the
 * default `NumberFormat` rendering that `MessageFormat` applies to a number
 * (grouping by thousands, at most three fraction digits, half-even rounding).
 */
module DecimalText {
  import opened Wrappers
  import opened Digits
  import opened Decimals

  /** `BigDecimal.toString`: plain notation for scale >= 0 with adjusted exponent >= -6, scientific otherwise. */
  function ToText(d: Decimal): string {
    var digits := NatText(Abs(d.unscaled));
    var sign := if d.unscaled < 0 then "-" else "";
    var adjusted := (|digits| - 1) - d.scale;
    if d.scale == 0 then
      sign + digits
    else if d.scale > 0 && adjusted >= -6 then
      sign + PlainFraction(digits, d.scale)
    else
      sign + digits[..1] + (if |digits| > 1 then "." + digits[1..] else "")
      + "E" + (if adjusted > 0 then "+" else "") + IntText(adjusted)
  }

  /** Digits with a decimal point `scale` places from the right, padded with zeros on the left. */
  function PlainFraction(digits: string, scale: nat): string
    requires 0 < scale
  {
    if |digits| > scale then digits[..|digits| - scale] + "." + digits[|digits| - scale..]
    else "0" + "." + (Zeros(scale - |digits|) + digits)
  }

  /** Whether `BigDecimal.toString` writes `d` in plain (non-scientific) notation. */
  predicate PlainNotation(d: Decimal) {
    d.scale == 0 || (d.scale > 0 && (|NatText(Abs(d.unscaled))| - 1) - d.scale >= -6)
  }

  function IndexOf(s: string, c: char): (i: nat)
    ensures i <= |s|
    ensures forall j :: 0 <= j < i ==> s[j] != c
    ensures i < |s| ==> s[i] == c
  {
    if |s| == 0 then 0 else if s[0] == c then 0 else 1 + IndexOf(s[1..], c)
  }

  /**
   * `new BigDecimal(String)` on an optional minus sign, integer digits and an
   * optional point with fraction digits; at least one digit is required.
   * Anything else raises `NumberFormatException`, whose message differs
   * between JDKs and is left empty here.
   */
  function ParseDecimal(s: string): (r: Result<Decimal, Failure>)
    ensures r.Ok? ==> 0 <= r.value.scale < |s|
    ensures r.Err? ==> r.error.NumberFormat?
  {
    var negative := |s| > 0 && s[0] == '-';
    var body := if negative then s[1..] else s;
    match ParseMagnitude(body)
    case None => Err(NumberFormat(""))
    case Some((magnitude, scale)) =>
      var m: int := magnitude;
      Ok(Decimal(if negative then -m else m, scale))
  }

  /** Unsigned digits with an optional point: the digits' value and the number of fraction digits. */
  function ParseMagnitude(body: string): Option<(nat, nat)> {
    var point := IndexOf(body, '.');
    var whole := body[..point];
    var fraction := if point < |body| then body[point + 1..] else "";
    if AllDigits(whole) && AllDigits(fraction) && 0 < |whole| + |fraction| then
      LeadingDigits(whole, fraction);
      Some((DigitsValue(whole + fraction), |fraction|))
    else
      None
  }

  lemma LeadingDigits(a: string, b: string)
    requires AllDigits(a) && AllDigits(b)
    ensures AllDigits(a + b)
  {
    var t := a + b;
    forall i | 0 <= i < |t| ensures IsDigit(t[i]) {
      if i < |a| {
        assert t[i] == a[i];
      } else {
        assert t[i] == b[i - |a|];
      }
    }
  }

  /** The unsigned part of the plain `toString` of `d`. */
  function PlainMagnitudeText(d: Decimal): string
    requires d.scale >= 0
  {
    var digits := NatText(Abs(d.unscaled));
    if d.scale == 0 then digits else PlainFraction(digits, d.scale)
  }

  lemma PlainTextShape(d: Decimal)
    requires PlainNotation(d)
    ensures ToText(d) == (if d.unscaled < 0 then "-" else "") + PlainMagnitudeText(d)
  {
  }

  /** Reading back the plain `toString` of a decimal gives the same decimal, scale included. */
  lemma ParsePlainText(d: Decimal)
    requires PlainNotation(d)
    ensures ParseDecimal(ToText(d)) == Ok(d)
  {
    PlainTextShape(d);
    ParsePlain(d);
  }

  /** `d` in plain notation whatever its exponent: a minus sign when negative, then the digits with the point placed. */
  function PlainText(d: Decimal): string
    requires d.scale >= 0
  {
    (if d.unscaled < 0 then "-" else "") + PlainMagnitudeText(d)
  }

  /** Plain notation reads back as the same decimal, scale included. */
  lemma ParsePlain(d: Decimal)
    requires d.scale >= 0
    ensures ParseDecimal(PlainText(d)) == Ok(d)
  {
    var m := PlainMagnitudeText(d);
    ParsePlainMagnitude(d);
    var text := PlainText(d);
    if d.unscaled < 0 {
      assert text == "-" + m && text[1..] == m;
    } else {
      assert text == m;
      assert |m| > 0 && m[0] != '-' by {
        assert m[0] == '0' || IsDigit(m[0]) by {
          NatTextFirst(Abs(d.unscaled), d.scale);
        }
      }
    }
  }

  /** Plain notation is whole digits, then a point and fraction digits when the scale is positive. */
  lemma PlainMagnitudeParts(d: Decimal) returns (w: string, f: string)
    requires d.scale >= 0
    ensures AllDigits(w) && |w| > 0 && AllDigits(f) && |f| == d.scale
    ensures PlainMagnitudeText(d) == w + (if |f| > 0 then "." + f else "")
  {
    var digits := NatText(Abs(d.unscaled));
    if d.scale == 0 {
      w, f := digits, "";
    } else if |digits| > d.scale {
      w, f := digits[..|digits| - d.scale], digits[|digits| - d.scale..];
    } else {
      w, f := "0", Zeros(d.scale - |digits|) + digits;
      LeadingZerosValue(d.scale - |digits|, digits);
    }
  }

  lemma NatTextFirst(n: nat, scale: nat)
    ensures scale == 0 ==> IsDigit(NatText(n)[0])
    ensures scale > 0 ==> IsDigit(PlainFraction(NatText(n), scale)[0])
  {
  }

  lemma ParsePlainMagnitude(d: Decimal)
    requires d.scale >= 0
    ensures ParseMagnitude(PlainMagnitudeText(d)) == Some((Abs(d.unscaled), d.scale))
  {
    var digits := NatText(Abs(d.unscaled));
    NatTextValue(Abs(d.unscaled));
    if d.scale == 0 {
      ParseWholeDigits(digits);
    } else if |digits| > d.scale {
      ParseLongFraction(digits, d.scale);
    } else {
      ParseShortFraction(digits, d.scale);
    }
  }

  lemma ParseLongFraction(digits: string, k: nat)
    requires AllDigits(digits) && 0 < k < |digits|
    ensures ParseMagnitude(PlainFraction(digits, k)) == Some((DigitsValue(digits), k))
  {
    var w, f := digits[..|digits| - k], digits[|digits| - k..];
    assert w + f == digits;
    assert AllDigits(w) && AllDigits(f);
    ParseSplitDigits(w, f);
    assert PlainFraction(digits, k) == w + "." + f;
  }

  lemma ParseShortFraction(digits: string, k: nat)
    requires AllDigits(digits) && 0 < k && |digits| <= k
    ensures ParseMagnitude(PlainFraction(digits, k)) == Some((DigitsValue(digits), k))
  {
    var z := Zeros(k - |digits|) + digits;
    LeadingZerosValue(k - |digits|, digits);
    assert |z| == k;
    ParseSplitDigits("0", z);
    LeadingZerosValue(1, z);
    assert Zeros(1) == "0";
  }

  lemma ParseWholeDigits(w: string)
    requires AllDigits(w) && |w| > 0
    ensures ParseMagnitude(w) == Some((DigitsValue(w), 0))
  {
    NoPointInDigits(w);
    assert w[..|w|] == w;
    assert w + "" == w;
  }

  lemma ParseSplitDigits(w: string, f: string)
    requires AllDigits(w) && AllDigits(f) && |w| > 0 && |f| > 0
    ensures AllDigits(w + f)
    ensures ParseMagnitude(w + "." + f) == Some((DigitsValue(w + f), |f|))
  {
    LeadingDigits(w, f);
    var t := w + "." + f;
    PointPosition(w, f);
    assert t[..|w|] == w && t[|w| + 1..] == f;
  }

  lemma NoPointInDigits(s: string)
    requires AllDigits(s)
    ensures IndexOf(s, '.') == |s|
  {
    var i := IndexOf(s, '.');
    assert i < |s| ==> IsDigit(s[i]);
  }

  lemma PointPosition(w: string, f: string)
    requires AllDigits(w) && AllDigits(f)
    ensures IndexOf(w + "." + f, '.') == |w|
  {
    var t := w + "." + f;
    assert t[|w|] == '.';
  }

  /** The integer digits grouped by thousands with commas, as the default number format writes them. */
  function Grouped(digits: string): string
    decreases |digits|
  {
    if |digits| <= 3 then digits else Grouped(digits[..|digits| - 3]) + "," + digits[|digits| - 3..]
  }

  function WithoutChar(s: string, c: char): (r: string)
    ensures |r| <= |s|
    ensures forall i :: 0 <= i < |r| ==> r[i] != c
  {
    if |s| == 0 then "" else (if s[0] == c then "" else [s[0]]) + WithoutChar(s[1..], c)
  }

  lemma {:induction false} WithoutCharAppend(a: string, b: string, c: char)
    ensures WithoutChar(a + b, c) == WithoutChar(a, c) + WithoutChar(b, c)
    decreases |a|
  {
    if |a| > 0 {
      assert (a + b)[1..] == a[1..] + b;
      WithoutCharAppend(a[1..], b, c);
    } else {
      assert a + b == b;
    }
  }

  lemma {:induction false} WithoutCharAbsent(s: string, c: char)
    requires forall i :: 0 <= i < |s| ==> s[i] != c
    ensures WithoutChar(s, c) == s
    decreases |s|
  {
    if |s| > 0 {
      WithoutCharAbsent(s[1..], c);
    }
  }

  /** Grouping only inserts separators: removing the commas gives the digits back. */
  lemma {:induction false} GroupedDigits(digits: string)
    requires AllDigits(digits)
    ensures WithoutChar(Grouped(digits), ',') == digits
    decreases |digits|
  {
    if |digits| <= 3 {
      WithoutCharAbsent(digits, ',');
    } else {
      var h, t := digits[..|digits| - 3], digits[|digits| - 3..];
      GroupedDigits(h);
      WithoutCharAppend(Grouped(h), ",", ',');
      WithoutCharAppend(Grouped(h) + ",", t, ',');
      WithoutCharAbsent(t, ',');
      assert WithoutChar(",", ',') == "";
      assert h + t == digits;
    }
  }

  /** Trailing zeros dropped from a fraction's digits. */
  function TrimZeros(s: string): (r: string)
    ensures |r| <= |s| && r == s[..|r|]
    ensures |r| > 0 ==> r[|r| - 1] != '0'
  {
    if |s| == 0 || s[|s| - 1] != '0' then s else TrimZeros(s[..|s| - 1])
  }

  /** `d` rounded half-even to thousandths, counted in thousandths. */
  function Thousandths(d: Decimal): int {
    if d.scale <= 3 then Units(d, 3) else RoundHalfEven(d.unscaled, Pow10(d.scale - 3))
  }

  /**
   * The default-locale `NumberFormat` rendering of `d`: a minus sign for a
   * negative value, the integer part grouped by thousands, and up to three
   * fraction digits after half-even rounding, trailing zeros dropped.
   */
  function FormatNumber(d: Decimal): string {
    var t := Abs(Thousandths(d));
    var fraction := TrimZeros(ZeroPad(t % 1000, 3));
    (if d.unscaled < 0 then "-" else "") + Grouped(NatText(t / 1000))
    + (if |fraction| == 0 then "" else "." + fraction)
  }

  /** A non-negative whole number formats as its digits with thousands separators and nothing else. */
  lemma FormatWholeNumber(n: nat, s: int)
    requires s <= 0
    ensures WithoutChar(FormatNumber(Decimal(n, s)), ',') == NatText(n * Pow10(-s))
  {
    var d := Decimal(n, s);
    Pow10Add(-s, 3);
    assert Thousandths(d) == n * Pow10(-s) * 1000;
    var m := n * Pow10(-s);
    assert (m * 1000) / 1000 == m && (m * 1000) % 1000 == 0;
    assert ZeroPad(0, 3) == "000";
    assert TrimZeros("000") == "";
    GroupedDigits(NatText(m));
    WithoutCharAppend("", Grouped(NatText(m)), ',');
    assert FormatNumber(d) == Grouped(NatText(m));
  }
}
