/**
 * How `SimpleDateFormat.parse(String)` reads the numeric patterns the
 * periods use (`yyyy-MM-dd`, `yyyy-MM`, `yyyy-ww`, `yyyy-`): before each
 * numeric field it skips spaces and tabs; the field is then read by the
 * format's `DecimalFormat`, which takes an optional minus sign and every digit
 * that follows, however many, and then an exponent `E`, an optional minus
 * sign and digits when one follows; the `-` between fields must be there; and
 * text after the last field is ignored.
 *
 * Each reader consumes a prefix of its input and hands back the rest.
 */
module DateFields {
  import opened Wrappers
  import opened Digits

  /** The characters skipped before a numeric field. */
  predicate IsBlank(c: char) {
    c == ' ' || c == '\t'
  }

  predicate AllBlanks(s: string) {
    forall i :: 0 <= i < |s| ==> IsBlank(s[i])
  }

  /** A remainder that does not continue a run of digits. */
  predicate Ends(rest: string) {
    |rest| == 0 || !IsDigit(rest[0])
  }

  /**
   * The leading digits of `s` appended to the number `acc` denotes (each
   * digit multiplies what came before by ten), and the text after them.
   */
  function DigitRun(s: string, acc: nat): (r: (nat, string))
    ensures |r.1| <= |s|
    ensures Ends(r.1)
  {
    if |s| > 0 && IsDigit(s[0]) then DigitRun(s[1..], acc * 10 + DigitValue(s[0])) else (acc, s)
  }

  /** The run of digits `u` starts with, if it starts with one, and the text after it. */
  function ReadRun(u: string): (r: Option<(nat, string)>)
    ensures r.Some? ==> |r.value.1| < |u| && Ends(r.value.1)
  {
    if |u| == 0 || !IsDigit(u[0]) then None else Some(DigitRun(u, 0))
  }

  /**
   * The exponent `DecimalFormat` reads after a number's digits: `E`, an
   * optional `-` and at least one digit (no blanks, no `+`).  Its value and
   * the text after it; without digits there is no exponent and the `E` is
   * left unread.
   */
  function ReadExponent(s: string): (r: Option<(int, string)>)
    ensures r.Some? ==> |r.value.1| < |s| && Ends(r.value.1)
  {
    if |s| == 0 || s[0] != 'E' then None
    else if |s| > 1 && s[1] == '-' then
      match ReadRun(s[2..])
      case None => None
      case Some((e, rest)) => Some((-(e as int), rest))
    else
      match ReadRun(s[1..])
      case None => None
      case Some((e, rest)) => Some((e as int, rest))
  }

  /**
   * `m` times ten to the `e`, truncated toward zero: a negative exponent
   * leaves a fraction, which `DecimalFormat` hands over as a `double` and
   * `intValue` truncates.  Dropping one digit at a time drops the same
   * fraction as dividing once by the power of ten.
   */
  function Scaled(m: nat, e: int): nat
    decreases if e >= 0 then e else -e
  {
    if e == 0 then m
    else if e > 0 then Scaled(10 * m, e - 1)
    else Scaled(m / 10, e + 1)
  }

  /** `Scaled` multiplies by the power of ten for a non-negative exponent and divides by it, dropping the remainder, for a negative one. */
  lemma {:induction false} ScaledByPower(m: nat, e: int)
    ensures e >= 0 ==> Scaled(m, e) == m * Pow10(e)
    ensures e < 0 ==> Scaled(m, e) == m / Pow10(-e)
    decreases if e >= 0 then e else -e
  {
    if e > 0 {
      ScaledByPower(10 * m, e - 1);
      assert 10 * m * Pow10(e - 1) == m * (10 * Pow10(e - 1));
    } else if e < 0 {
      ScaledByPower(m / 10, e + 1);
      DivideTwice(m, Pow10(-e - 1));
    }
  }

  /** Dropping one digit and then dividing by `p` is dividing by `10 * p`. */
  lemma DivideTwice(m: nat, p: nat)
    requires p > 0
    ensures m / 10 / p == m / (10 * p)
  {
    var q, r := m / 10, m % 10;
    var q2, r2 := q / p, q % p;
    assert m == 10 * p * q2 + (10 * r2 + r);
    assert 0 <= 10 * r2 + r < 10 * p;
    DivisionUnique(m, 10 * p, q2, 10 * r2 + r);
  }

  /** A quotient and remainder that rebuild `m` are `m / d` and `m % d`. */
  lemma DivisionUnique(m: nat, d: nat, q: nat, r: nat)
    requires d > 0 && m == d * q + r && r < d
    ensures m / d == q
  {
    var q0, r0 := m / d, m % d;
    assert m == d * q0 + r0 && 0 <= r0 < d;
    assert d * (q0 + 1) == d * q0 + d && d * (q + 1) == d * q + d;
    TimesMonotone(d, q0 + 1, q);
    TimesMonotone(d, q + 1, q0);
  }

  lemma TimesMonotone(d: nat, a: int, b: int)
    ensures a <= b ==> d * a <= d * b
  {
    if a <= b {
      assert d * b - d * a == d * (b - a);
    }
  }

  /** The magnitude `v` of a digit run, scaled by the exponent `rest` starts with, if any, and the text after both. */
  function WithExponent(v: nat, rest: string): (nat, string) {
    match ReadExponent(rest)
    case None => (v, rest)
    case Some((e, after)) => (Scaled(v, e), after)
  }

  /** A remainder that ends a field: no further digit and no exponent. */
  predicate FieldEnds(rest: string) {
    Ends(rest) && ReadExponent(rest).None?
  }

  /**
   * One numeric field: blanks skipped, an optional `-`, then all the digits
   * there, of which there must be at least one, and the exponent after them
   * if there is one. The value read and the text after it.
   */
  function ReadNumber(s: string): (r: Option<(int, string)>)
    ensures r.Some? ==> |r.value.1| < |s| && Ends(r.value.1)
  {
    if |s| > 0 && IsBlank(s[0]) then ReadNumber(s[1..])
    else if |s| > 0 && s[0] == '-' then
      match ReadRun(s[1..])
      case None => None
      case Some((v, rest)) =>
        var (m, after) := WithExponent(v, rest);
        Some((-(m as int), after))
    else
      match ReadRun(s)
      case None => None
      case Some((v, rest)) =>
        var (m, after) := WithExponent(v, rest);
        Some((m as int, after))
  }

  /** Two fields with a `-` between them (`yyyy-MM`, `yyyy-ww`); what follows is not looked at. */
  function ReadTwoFields(s: string): (r: Option<(int, int)>)
    ensures r.Some? ==> ReadNumber(s).Some? && r.value.0 == ReadNumber(s).value.0
  {
    match ReadNumber(s)
    case None => None
    case Some((x, rest)) =>
      if |rest| > 0 && rest[0] == '-' then
        match ReadNumber(rest[1..])
        case None => None
        case Some((y, _)) => Some((x, y))
      else None
  }

  /** Three fields with a `-` after each of the first two (`yyyy-MM-dd`); what follows is not looked at. */
  function ReadThreeFields(s: string): (r: Option<(int, int, int)>)
    ensures r.Some? ==> ReadNumber(s).Some? && r.value.0 == ReadNumber(s).value.0
  {
    match ReadNumber(s)
    case None => None
    case Some((x, rest)) =>
      if |rest| > 0 && rest[0] == '-' then
        match ReadTwoFields(rest[1..])
        case None => None
        case Some((y, z)) => Some((x, y, z))
      else None
  }

  /** Blanks in front of a field are skipped, and nothing else. */
  lemma {:induction false} ReadAfterBlanks(blanks: string, t: string)
    requires AllBlanks(blanks)
    requires |t| == 0 || !IsBlank(t[0])
    ensures ReadNumber(blanks + t) == ReadNumber(t)
    decreases |blanks|
  {
    if |blanks| == 0 {
      assert blanks + t == t;
    } else {
      assert (blanks + t)[0] == blanks[0];
      assert (blanks + t)[1..] == blanks[1..] + t;
      ReadAfterBlanks(blanks[1..], t);
    }
  }

  /** Reading a run of digits after the digits `p` reads `p` and the run together. */
  lemma {:induction false} DigitRunOf(p: string, digits: string, rest: string)
    requires AllDigits(p) && AllDigits(digits) && Ends(rest)
    ensures AllDigits(p + digits)
    ensures DigitRun(digits + rest, DigitsValue(p)) == (DigitsValue(p + digits), rest)
    decreases |digits|
  {
    if |digits| == 0 {
      assert p + digits == p;
      assert digits + rest == rest;
    } else {
      var d := digits[0];
      var q := p + [d];
      assert q[..|q| - 1] == p;
      assert DigitsValue(q) == DigitsValue(p) * 10 + DigitValue(d);
      assert (digits + rest)[0] == d;
      assert (digits + rest)[1..] == digits[1..] + rest;
      assert q + digits[1..] == p + digits;
      DigitRunOf(q, digits[1..], rest);
    }
  }

  /** A run of digits followed by a non-digit: what `DigitRun` makes of it from nothing. */
  lemma DigitRunFrom(digits: string, rest: string)
    requires AllDigits(digits) && |digits| > 0 && Ends(rest)
    ensures |digits + rest| > 0 && IsDigit((digits + rest)[0])
    ensures DigitRun(digits + rest, 0) == (DigitsValue(digits), rest)
  {
    assert (digits + rest)[0] == digits[0];
    assert "" + digits == digits;
    DigitRunOf("", digits, rest);
  }

  /** A run of digits followed by text that ends the field reads as the number the digits denote. */
  lemma ReadDigits(digits: string, rest: string)
    requires AllDigits(digits) && |digits| > 0 && FieldEnds(rest)
    ensures ReadNumber(digits + rest) == Some((DigitsValue(digits) as int, rest))
  {
    DigitRunFrom(digits, rest);
    ReadUnsigned(digits + rest, DigitsValue(digits), rest);
  }

  /** `ReadNumber` on the digit run `u`. */
  lemma ReadUnsigned(u: string, v: nat, rest: string)
    requires |u| > 0 && IsDigit(u[0]) && DigitRun(u, 0) == (v, rest)
    ensures ReadNumber(u) == Some((WithExponent(v, rest).0 as int, WithExponent(v, rest).1))
  {
  }

  /** A minus sign before a run of digits negates the number read. */
  lemma NegativeRun(u: string, v: nat, rest: string)
    requires |u| > 0 && IsDigit(u[0]) && DigitRun(u, 0) == (v, rest)
    ensures ReadNumber("-" + u) == Some((-(WithExponent(v, rest).0 as int), WithExponent(v, rest).1))
  {
    DropSign(u);
    ReadSigned("-" + u, u, v, rest);
  }

  /** `ReadNumber` on a minus sign followed by the digit run `u`. */
  lemma ReadSigned(s: string, u: string, v: nat, rest: string)
    requires |s| > 0 && s[0] == '-' && s[1..] == u
    requires |u| > 0 && IsDigit(u[0]) && DigitRun(u, 0) == (v, rest)
    ensures ReadNumber(s) == Some((-(WithExponent(v, rest).0 as int), WithExponent(v, rest).1))
  {
  }

  /**
   * What `ReadNumber` takes: blanks, an optional minus sign and digits, up to
   * the first character that is not a digit, and then the exponent that
   * follows, if one does.
   */
  lemma ReadNumberOf(blanks: string, negative: bool, digits: string, rest: string)
    requires AllBlanks(blanks) && AllDigits(digits) && |digits| > 0 && Ends(rest)
    ensures var (n, after) := WithExponent(DigitsValue(digits), rest);
      ReadNumber(blanks + (if negative then "-" else "") + digits + rest)
      == Some((if negative then -(n as int) else n as int, after))
  {
    var sign := if negative then "-" else "";
    var u := digits + rest;
    assert blanks + sign + digits + rest == blanks + (sign + u) by {
      Regroup(blanks, sign, digits, rest);
    }
    DigitRunFrom(digits, rest);
    if negative {
      NegativeRun(u, DigitsValue(digits), rest);
      DropSign(u);
      ReadAfterBlanks(blanks, "-" + u);
    } else {
      assert sign + u == u;
      ReadUnsigned(u, DigitsValue(digits), rest);
      ReadAfterBlanks(blanks, u);
    }
  }

  /** `E` and digits, followed by a non-digit: the exponent the digits denote. */
  lemma ReadExponentOf(digits: string, rest: string)
    requires AllDigits(digits) && |digits| > 0 && Ends(rest)
    ensures ReadExponent("E" + digits + rest) == Some((DigitsValue(digits) as int, rest))
  {
    var u := digits + rest;
    DigitRunFrom(digits, rest);
    assert "E" + digits + rest == "E" + u;
    ExponentAfter("E" + u, u, DigitsValue(digits), rest);
  }

  lemma ExponentAfter(s: string, u: string, v: nat, rest: string)
    requires s == "E" + u
    requires |u| > 0 && IsDigit(u[0]) && DigitRun(u, 0) == (v, rest)
    ensures ReadExponent(s) == Some((v as int, rest))
  {
    assert s[0] == 'E' && s[1] == u[0] && s[1..] == u;
  }

  /** Digits followed by an exponent read as the digits' number times ten to the exponent, truncated toward zero. */
  lemma ReadScaled(digits: string, tail: string, e: int, rest: string)
    requires AllDigits(digits) && |digits| > 0 && ReadExponent(tail) == Some((e, rest))
    ensures ReadNumber(digits + tail) == Some((Scaled(DigitsValue(digits), e) as int, rest))
  {
    assert Ends(tail);
    DigitRunFrom(digits, tail);
    ReadUnsigned(digits + tail, DigitsValue(digits), tail);
  }

  /** Blanks, a minus sign and a digit: `" \t-5x"` reads as -5 with `"x"` left over. */
  lemma ReadSignedExample(s: string)
    requires s == " \t-5x"
    ensures ReadNumber(s) == Some((-5, "x"))
  {
    assert s == " \t" + "-" + "5" + "x";
    assert DigitsValue("5") == 5 by {
      assert "5"[..0] == "";
    }
    ReadNumberOf(" \t", true, "5", "x");
  }

  /** A field cannot start with anything but a blank, a minus sign or a digit. */
  lemma NoNumberAt(s: string)
    requires |s| > 0 && !IsBlank(s[0]) && !IsDigit(s[0]) && s[0] != '-'
    ensures ReadNumber(s) == None
  {
  }

  /** Both fields of `a-b` followed by any text that does not continue `b`. */
  lemma ReadDashedTwo(a: string, b: string, rest: string)
    requires AllDigits(a) && AllDigits(b) && |a| > 0 && |b| > 0 && FieldEnds(rest)
    ensures ReadTwoFields(a + "-" + b + rest) == Some((DigitsValue(a) as int, DigitsValue(b) as int))
  {
    var more := b + rest;
    assert a + "-" + b + rest == a + ("-" + more) by {
      Regroup(a, "-", b, rest);
    }
    assert ReadNumber(more) == Some((DigitsValue(b) as int, rest)) by {
      ReadDigits(b, rest);
    }
    ReadDashed(a, more);
  }

  /** All three fields of `a-b-c` followed by any text that does not continue `c`. */
  lemma ReadDashedThree(a: string, b: string, c: string, rest: string)
    requires AllDigits(a) && AllDigits(b) && AllDigits(c) && |a| > 0 && |b| > 0 && |c| > 0 && FieldEnds(rest)
    ensures ReadThreeFields(a + "-" + b + "-" + c + rest)
      == Some((DigitsValue(a) as int, DigitsValue(b) as int, DigitsValue(c) as int))
  {
    var more := b + "-" + c + rest;
    assert a + "-" + b + "-" + c + rest == a + ("-" + more) by {
      RegroupDashed(a, b, c, rest);
    }
    assert ReadTwoFields(more) == Some((DigitsValue(b) as int, DigitsValue(c) as int)) by {
      ReadDashedTwo(b, c, rest);
    }
    ReadDashed(a, more);
  }

  /** Leading digits `a` read as a field, with the `-` and `more` left for the fields after it. */
  lemma ReadDashed(a: string, more: string)
    requires AllDigits(a) && |a| > 0
    ensures ReadNumber(a + ("-" + more)) == Some((DigitsValue(a) as int, "-" + more))
    ensures ("-" + more)[1..] == more
  {
    ReadDigits(a, "-" + more);
  }

  lemma Regroup(a: string, b: string, c: string, d: string)
    ensures a + b + c + d == a + (b + (c + d))
  {
  }

  lemma RegroupDashed(a: string, b: string, c: string, rest: string)
    ensures a + "-" + b + "-" + c + rest == a + ("-" + (b + "-" + c + rest))
  {
  }

  lemma DropSign(u: string)
    ensures |"-" + u| > 0 && ("-" + u)[0] == '-' && ("-" + u)[1..] == u
  {
  }
}
