/**
 * pantheon-plutus `Money`: an immutable amount (a `BigDecimal`) in one
 * currency.  Arithmetic between monies requires the same currency and
 * raises `CurrencyMismatchException` otherwise; arithmetic by a number goes
 * through the amount; the text form is the amount's `toString`, a space and
 * the currency code, and `valueOf(String)` reads the first
 * `(\d+) (\w\w\w)` found in a string.  `Currency.getInstance` is modelled by
 * the set of currency codes the platform knows, passed as a parameter.
 */
module Monies {
  import opened Wrappers
  import opened Digits
  import opened Decimals
  import opened DecimalText
  import opened Percentages

  /** `java.util.Currency`, identified by its currency code; `toString` is the code. */
  datatype Currency = Currency(code: string)

  datatype Money = Money(amount: Decimal, currency: Currency)

  /** What a money operation throws: `CurrencyMismatchException` carrying both operands, or another exception. */
  datatype MoneyError = CurrencyMismatch(first: Money, second: Money) | Failed(failure: Failure)

  /** The message of `valueOf` when no amount and currency code are found. */
  const FormatMessage: string := "String not in the <amount> <currency code> format."

  /**
   * `Currency.getInstance(code)`: the currency when the platform knows the
   * code, else `IllegalArgumentException` without a message (written "").
   */
  function CurrencyInstance(code: string, known: set<string>): (r: Result<Currency, Failure>)
    ensures r.Ok? <==> code in known
    ensures r.Ok? ==> r.value.code == code
    ensures r.Err? ==> r.error == IllegalArgument("")
  {
    if code in known then Ok(Currency(code)) else Err(IllegalArgument(""))
  }

  /** `Money.zero(currency)`. */
  function ZeroOf(c: Currency): (m: Money)
    ensures IsZero(m.amount) && m.currency == c
  {
    Money(Zero, c)
  }

  /** `Money.zero(currencyCode)`: a zero amount in the currency the code names; an unknown code raises `IllegalArgumentException`. */
  function ZeroOfCode(code: string, known: set<string>): (r: Result<Money, MoneyError>)
    ensures r.Ok? <==> code in known
    ensures r.Ok? ==> IsZero(r.value.amount) && r.value.currency == Currency(code)
  {
    match CurrencyInstance(code, known)
    case Ok(c) => Ok(ZeroOf(c))
    case Err(e) => Err(Failed(e))
  }

  // ---------------------------------------------------------------------------
  // Arithmetic
  // ---------------------------------------------------------------------------

  /** `MoneyOperation`: the four `BigDecimal` operations a money applies to its amount. */
  datatype Operation = Plus | Minus | Times | DividedBy

  /**
   * `MoneyOperation.eval(one, two)`: exact sum, difference and product; the
   * quotient rounded half-even at `one`'s scale, and `ArithmeticException`
   * for a zero divisor.
   */
  function Eval(op: Operation, one: Decimal, two: Decimal): (r: Result<Decimal, Failure>)
    ensures r.Err? <==> op == DividedBy && IsZero(two)
  {
    match op
    case Plus => Ok(Decimals.Add(one, two))
    case Minus => Ok(Decimals.Subtract(one, two))
    case Times => Ok(Decimals.Multiply(one, two))
    case DividedBy => DivideToScale(one, two, one.scale)
  }

  /** `doArithmatic(operation, BigDecimal)`: the operation on the amount, in the same currency. */
  function WithAmount(m: Money, op: Operation, other: Decimal): (r: Result<Money, MoneyError>)
    ensures r.Err? <==> op == DividedBy && IsZero(other)
    ensures r.Ok? ==> r.value.currency == m.currency
  {
    match Eval(op, m.amount, other)
    case Ok(v) => Ok(Money(v, m.currency))
    case Err(e) => Err(Failed(e))
  }

  /** `doArithmatic(operation, Money)`: a different currency raises `CurrencyMismatchException` before any arithmetic. */
  function WithMoney(m: Money, op: Operation, other: Money): (r: Result<Money, MoneyError>)
    ensures m.currency != other.currency ==> r == Err(CurrencyMismatch(m, other))
    ensures m.currency == other.currency ==> r == WithAmount(m, op, other.amount)
  {
    if m.currency != other.currency then Err(CurrencyMismatch(m, other)) else WithAmount(m, op, other.amount)
  }

  /** `add`: the exact sum in the shared currency; different currencies raise `CurrencyMismatchException`. */
  function Add(m: Money, other: Money): (r: Result<Money, MoneyError>)
    ensures r.Err? <==> m.currency != other.currency
    ensures r.Err? ==> r.error == CurrencyMismatch(m, other)
    ensures r.Ok? ==> r.value.currency == m.currency && r.value.amount.scale == Max(m.amount.scale, other.amount.scale)
    ensures r.Ok? ==> forall t :: r.value.amount.scale <= t ==>
      Units(r.value.amount, t) == Units(m.amount, t) + Units(other.amount, t)
  {
    WithMoney(m, Plus, other)
  }

  /** `subtract`: the exact difference in the shared currency; different currencies raise `CurrencyMismatchException`. */
  function Subtract(m: Money, other: Money): (r: Result<Money, MoneyError>)
    ensures r.Err? <==> m.currency != other.currency
    ensures r.Err? ==> r.error == CurrencyMismatch(m, other)
    ensures r.Ok? ==> r.value.currency == m.currency && r.value.amount.scale == Max(m.amount.scale, other.amount.scale)
    ensures r.Ok? ==> forall t :: r.value.amount.scale <= t ==>
      Units(r.value.amount, t) == Units(m.amount, t) - Units(other.amount, t)
  {
    WithMoney(m, Minus, other)
  }

  /** `multiply`: the exact product, whose scale is the sum of the two scales. */
  function Multiply(m: Money, factor: Decimal): (r: Money)
    ensures r.currency == m.currency && r.amount.scale == m.amount.scale + factor.scale
    ensures forall s, t :: m.amount.scale <= s && factor.scale <= t ==>
      Units(r.amount, s + t) == Units(m.amount, s) * Units(factor, t)
  {
    WithAmount(m, Times, factor).value
  }

  /**
   * `divide`: the quotient rounded half-even at the money's own scale; a zero
   * divisor raises `ArithmeticException`.
   */
  function Divide(m: Money, divisor: Decimal): (r: Result<Money, MoneyError>)
    ensures r.Err? <==> IsZero(divisor)
    ensures r.Err? ==> r.error.Failed? && r.error.failure.Arithmetic?
    ensures r.Ok? ==> r.value.currency == m.currency && r.value.amount.scale == m.amount.scale
    ensures r.Ok? ==>
      var t := Max(m.amount.scale, divisor.scale);
      HalfEvenQuotient(Units(m.amount, t) * Pow10(Positive(m.amount.scale)),
                       Units(divisor, t) * Pow10(Positive(-m.amount.scale)), r.value.amount.unscaled)
  {
    WithAmount(m, DividedBy, divisor)
  }

  /** `negate`: the opposite amount at the same scale, in the same currency. */
  function Negate(m: Money): (r: Money)
    ensures r.currency == m.currency && r.amount.scale == m.amount.scale
    ensures forall t :: m.amount.scale <= t ==> Units(r.amount, t) == -Units(m.amount, t)
  {
    Money(Decimals.Negate(m.amount), m.currency)
  }

  /** `percentage`: the money multiplied by the percentage's value (5% multiplies by 0.05). */
  function PercentageOf(m: Money, p: Percentage): (r: Money)
    ensures r.currency == m.currency && r.amount.scale == m.amount.scale + p.value.scale
    ensures forall s, t :: m.amount.scale <= s && p.value.scale <= t ==>
      Units(r.amount, s + t) == Units(m.amount, s) * Units(p.value, t)
  {
    WithAmount(m, Times, p.value).value
  }

  /** `compound`: the money plus its percentage, which never mismatches because both are in the money's currency. */
  function Compound(m: Money, p: Percentage): (r: Money)
    ensures r.currency == m.currency
    ensures r.amount.scale == Max(m.amount.scale, m.amount.scale + p.value.scale)
    ensures r.amount == Decimals.Add(m.amount, Decimals.Multiply(m.amount, p.value))
  {
    var part := PercentageOf(m, p);
    assert part.amount == Decimals.Multiply(m.amount, p.value);
    Add(m, part).value
  }

  /**
   * `valueInCurrency(toCurrency, exchange)`: the money itself when it is
   * already in that currency, a plain zero when its amount is zero, else the
   * amount times the exchange's rate.  The exchange is a function from the
   * (from, to) pair to the rate.
   */
  function ValueInCurrency(m: Money, to: Currency, rate: (Currency, Currency) -> Decimal): (r: Money)
    ensures r.currency == to
    ensures m.currency == to ==> r == m
    ensures m.currency != to ==> SameValue(r.amount, Decimals.Multiply(m.amount, rate(m.currency, to)))
  {
    if m.currency == to then
      m
    else if Compare(m.amount, Zero) == 0 then
      var product := Decimals.Multiply(m.amount, rate(m.currency, to));
      IsZeroSameValue(m.amount);
      IsZeroSameValue(product);
      SameValueSymmetric(product, Zero);
      Money(Zero, to)
    else
      Money(Decimals.Multiply(m.amount, rate(m.currency, to)), to)
  }

  /** `compareTo`: the order of the amounts, whatever their scales; different currencies raise `CurrencyMismatchException`. */
  function CompareTo(m: Money, other: Money): (r: Result<int, MoneyError>)
    ensures r.Err? <==> m.currency != other.currency
    ensures r.Err? ==> r.error == CurrencyMismatch(m, other)
    ensures r.Ok? ==> (r.value == 0 <==> SameValue(m.amount, other.amount))
    ensures r.Ok? ==> forall t :: Max(m.amount.scale, other.amount.scale) <= t ==>
      r.value == Sign(Units(m.amount, t) - Units(other.amount, t))
  {
    if m.currency != other.currency then Err(CurrencyMismatch(m, other)) else Ok(Compare(m.amount, other.amount))
  }

  /** Swapping the operands of `compareTo` flips the sign; both mismatch together. */
  lemma CompareToAntisymmetric(m: Money, other: Money)
    ensures CompareTo(m, other).Ok? <==> CompareTo(other, m).Ok?
    ensures CompareTo(m, other).Ok? ==> CompareTo(m, other).value == -CompareTo(other, m).value
  {
    if m.currency == other.currency {
      var t := Max(m.amount.scale, other.amount.scale);
      assert CompareTo(m, other).value == Sign(Units(m.amount, t) - Units(other.amount, t));
      assert CompareTo(other, m).value == Sign(Units(other.amount, t) - Units(m.amount, t));
    }
  }

  /** Adding a money and subtracting it again leaves the same amount in the same currency. */
  lemma SubtractUndoesAdd(m: Money, other: Money)
    requires m.currency == other.currency
    ensures Add(m, other).Ok? && Subtract(Add(m, other).value, other).Ok?
    ensures var r := Subtract(Add(m, other).value, other).value;
      r.currency == m.currency && SameValue(r.amount, m.amount)
  {
    var r := Subtract(Add(m, other).value, other).value;
    var t := r.amount.scale;
    assert Units(r.amount, t) == Units(m.amount, t);
    SameValueAt(r.amount, m.amount, t);
  }

  /** Negating twice gives back the money itself. */
  lemma NegateInvolution(m: Money)
    ensures Negate(Negate(m)) == m
  {
  }

  /** Multiplying by a non-zero number and dividing by it again gives back the same amount, at a non-negative scale. */
  lemma DivideUndoesMultiply(m: Money, factor: Decimal)
    requires !IsZero(factor) && m.amount.scale >= 0 && factor.scale >= 0
    ensures Divide(Multiply(m, factor), factor).Ok?
    ensures SameValue(Divide(Multiply(m, factor), factor).value.amount, m.amount)
  {
    var product := Multiply(m, factor).amount;
    var q := Rescaled(m.amount, m.amount.scale + factor.scale);
    MultiplySameValue(q, m.amount, factor);
    SameValueSymmetric(Decimals.Multiply(q, factor), product);
    ExactDivision(product, factor, q);
    SameValueSymmetric(q, m.amount);
  }

  /** `percentage` agrees in value with `Percentage.of` whenever the latter does not need to round. */
  lemma PercentageMatchesOf(m: Money, p: Percentage)
    requires Of(p, m.amount).Ok?
    ensures SameValue(Of(p, m.amount).value, PercentageOf(m, p).amount)
  {
    assert PercentageOf(m, p).amount == Decimals.Multiply(m.amount, p.value);
    SameValueSymmetric(Of(p, m.amount).value, Decimals.Multiply(m.amount, p.value));
  }

  /** `compound` agrees in value with `Percentage.change` whenever the latter does not need to round. */
  lemma CompoundMatchesChange(m: Money, p: Percentage)
    requires Change(p, m.amount).Ok?
    ensures SameValue(Change(p, m.amount).value, Compound(m, p).amount)
  {
    assert Compound(m, p).amount == Decimals.Add(m.amount, Decimals.Multiply(m.amount, p.value));
  }

  // ---------------------------------------------------------------------------
  // Equality
  // ---------------------------------------------------------------------------

  /**
   * `equals` as written: true whenever the receiver's amount is zero, else
   * when the currencies match and the amounts have the same value.
   */
  predicate Equals(m: Money, other: Money) {
    Compare(m.amount, Zero) == 0 || (m.currency == other.currency && Compare(m.amount, other.amount) == 0)
  }

  /**
   * `equals` as its documentation describes it: the amounts have the same
   * value, and unless that value is zero the currencies match too.
   */
  predicate EqualsIntended(m: Money, other: Money) {
    SameValue(m.amount, other.amount) && (IsZero(m.amount) || m.currency == other.currency)
  }

  /** As written, a zero money equals a non-zero one, but not the other way round, and their hash codes differ. */
  lemma EqualsMisjudgesZero()
    ensures var zero, five := Money(Decimal(0, 0), Currency("USD")), Money(Decimal(5, 0), Currency("USD"));
      Equals(zero, five) && !Equals(five, zero)
      && StripTrailingZeros(zero.amount) != StripTrailingZeros(five.amount)
  {
    var zero, five := Money(Decimal(0, 0), Currency("USD")), Money(Decimal(5, 0), Currency("USD"));
    assert StripTrailingZeros(zero.amount) == Decimal(0, 0);
    assert Stripped(Decimal(5, 0));
    StrippedUnique(StripTrailingZeros(five.amount), Decimal(5, 0));
  }

  /** The two readings agree whenever the receiver is not zero. */
  lemma EqualsAgreeOffZero(m: Money, other: Money)
    requires !IsZero(m.amount)
    ensures Equals(m, other) <==> EqualsIntended(m, other)
  {
    IsZeroSameValue(m.amount);
  }

  /** A value equal to zero is zero. */
  lemma ZeroSameValue(a: Decimal, b: Decimal)
    requires IsZero(a) && SameValue(a, b)
    ensures IsZero(b)
  {
    var t := Max(a.scale, b.scale);
    assert b.unscaled * Pow10(t - b.scale) == 0;
  }

  /** The intended `equals` is an equivalence relation. */
  lemma EqualsIntendedEquivalence(m: Money, n: Money, o: Money)
    ensures EqualsIntended(m, m)
    ensures EqualsIntended(m, n) ==> EqualsIntended(n, m)
    ensures EqualsIntended(m, n) && EqualsIntended(n, o) ==> EqualsIntended(m, o)
  {
    if EqualsIntended(m, n) {
      SameValueSymmetric(m.amount, n.amount);
      if IsZero(m.amount) {
        ZeroSameValue(m.amount, n.amount);
      }
      if EqualsIntended(n, o) {
        SameValueTransitive(m.amount, n.amount, o.amount);
        if !IsZero(m.amount) && IsZero(n.amount) {
          ZeroSameValue(n.amount, m.amount);
        }
      }
    }
  }

  /** The hash code, taken from the stripped amount, is consistent with the intended `equals`. */
  lemma HashMatchesEqualsIntended(m: Money, other: Money)
    requires EqualsIntended(m, other)
    ensures StripTrailingZeros(m.amount) == StripTrailingZeros(other.amount)
  {
    StripCanonical(m.amount, other.amount);
  }

  /** The documented examples: zero dollars equal zero yen, ten dollars are not ten yen, and 10 equals 10.0 with the same hash. */
  lemma EqualsExamples()
    ensures EqualsIntended(Money(Decimal(0, 0), Currency("USD")), Money(Decimal(0, 0), Currency("JPY")))
    ensures !EqualsIntended(Money(Decimal(10, 0), Currency("USD")), Money(Decimal(10, 0), Currency("JPY")))
    ensures EqualsIntended(Money(Decimal(10, 0), Currency("USD")), Money(Decimal(100, 1), Currency("USD")))
  {
    assert Units(Decimal(10, 0), 1) == 100;
  }

  // ---------------------------------------------------------------------------
  // The currency mismatch message
  // ---------------------------------------------------------------------------

  /**
   * The message of `CurrencyMismatchException`: `MessageFormat` reads each
   * quoted `'{0}'` of the template as literal text, so the monies never
   * appear in it.
   */
  function MismatchMessage(first: Money, second: Money): string {
    "Currency mismatch between " + "{0}" + " and " + "{1}" + "."
  }

  /** The message the template evidently means: both monies' text forms, in quotes. */
  function MismatchMessageIntended(first: Money, second: Money): (s: string)
    ensures |s| == 36 + |MoneyText(first)| + |MoneyText(second)|
    ensures s[27..27 + |MoneyText(first)|] == MoneyText(first)
    ensures s[|s| - 2 - |MoneyText(second)|..|s| - 2] == MoneyText(second)
  {
    var lead, middle, tail := "Currency mismatch between '", "' and '", "'.";
    var s := lead + MoneyText(first) + middle + MoneyText(second) + tail;
    PartsAt(s, lead, MoneyText(first), middle, MoneyText(second), tail);
    s
  }

  /** Where the two inserted parts of a five-part concatenation sit. */
  lemma PartsAt(s: string, x: string, a: string, y: string, b: string, z: string)
    requires s == x + a + y + b + z
    ensures |s| == |x| + |a| + |y| + |b| + |z|
    ensures s[|x|..|x| + |a|] == a
    ensures s[|s| - |z| - |b|..|s| - |z|] == b
  {
  }

  /** As written, the message is the same whatever monies mismatch. */
  lemma MismatchMessageIgnoresMonies(a: Money, b: Money, c: Money, d: Money)
    ensures MismatchMessage(a, b) == MismatchMessage(c, d)
    ensures MismatchMessage(a, b) == "Currency mismatch between {0} and {1}."
  {
  }

  // ---------------------------------------------------------------------------
  // Text and ordering
  // ---------------------------------------------------------------------------

  /** `toString`, the external form: the amount's `BigDecimal.toString`, a space and the currency code. */
  function MoneyText(m: Money): string {
    ToText(m.amount) + " " + m.currency.code
  }

  /** `String.compareTo`: the difference of the first differing characters, else of the lengths. */
  function CompareCodes(a: string, b: string): (c: int)
    ensures c == 0 <==> a == b
    decreases |a|
  {
    if |a| == 0 || |b| == 0 then |a| - |b|
    else if a[0] != b[0] then a[0] as int - b[0] as int
    else
      var c := CompareCodes(a[1..], b[1..]);
      assert a == [a[0]] + a[1..] && b == [b[0]] + b[1..];
      c
  }

  /** `BY_CURRENCY_ORDER`: monies in the alphabetical order of their currency codes. */
  function ByCurrencyOrder(m: Money, other: Money): (c: int)
    ensures c == 0 <==> m.currency == other.currency
  {
    CompareCodes(m.currency.code, other.currency.code)
  }

  /** Swapping the strings negates the comparison. */
  lemma {:induction false} CompareCodesAntisymmetric(a: string, b: string)
    ensures CompareCodes(a, b) == -CompareCodes(b, a)
    decreases |a|
  {
    if |a| > 0 && |b| > 0 && a[0] == b[0] {
      CompareCodesAntisymmetric(a[1..], b[1..]);
    }
  }

  /** The order is transitive. */
  lemma {:induction false} CompareCodesTransitive(a: string, b: string, c: string)
    requires CompareCodes(a, b) < 0 && CompareCodes(b, c) < 0
    ensures CompareCodes(a, c) < 0
    decreases |a|
  {
    if |a| > 0 && |b| > 0 && |c| > 0 && a[0] == b[0] && b[0] == c[0] {
      CompareCodesTransitive(a[1..], b[1..], c[1..]);
    }
  }

  // ---------------------------------------------------------------------------
  // Reading the text form back
  // ---------------------------------------------------------------------------

  /** `\w`: a letter, a digit or an underscore. */
  predicate IsWordChar(c: char) {
    IsDigit(c) || ('a' <= c <= 'z') || ('A' <= c <= 'Z') || c == '_'
  }

  /** Three word characters, the `(\w\w\w)` group. */
  predicate IsCode(code: string) {
    |code| == 3 && IsWordChar(code[0]) && IsWordChar(code[1]) && IsWordChar(code[2])
  }

  /** The digit run starting at `i` is all digits. */
  lemma RunDigits(s: string, i: nat)
    requires i <= |s|
    ensures i + Run(s[i..], true) <= |s|
    ensures AllDigits(s[i..i + Run(s[i..], true)])
  {
    RunMaximal(s[i..], true);
    var j := i + Run(s[i..], true);
    forall k | 0 <= k < j - i ensures IsDigit(s[i..j][k]) {
      assert s[i..j][k] == s[i..][k];
    }
  }

  /**
   * Whether `(\d+) (\w\w\w)` matches at `i`, and where its digits end: the
   * longest digit run from `i` must be non-empty and followed by a space and
   * three word characters.  A shorter run cannot match instead, because the
   * character after it is a digit, not a space.
   */
  function MatchAt(s: string, i: nat): (j: Option<nat>)
    requires i <= |s|
    ensures j.Some? ==> j.value == i + Run(s[i..], true)
    ensures j.Some? ==> i < j.value && j.value + 4 <= |s|
    ensures j.Some? ==> s[j.value] == ' ' && IsCode(s[j.value + 1..j.value + 4])
  {
    var j := i + Run(s[i..], true);
    if i < j && j + 4 <= |s| && s[j] == ' ' && IsCode(s[j + 1..j + 4]) then Some(j) else None
  }

  /** `Matcher.find()` from `from`: the leftmost position where the pattern matches, with the end of its digits. */
  function Find(s: string, from: nat): (m: Option<(nat, nat)>)
    requires from <= |s|
    ensures m.Some? ==> from <= m.value.0 <= |s| && MatchAt(s, m.value.0) == Some(m.value.1)
    decreases |s| - from
  {
    match MatchAt(s, from)
    case Some(j) => Some((from, j))
    case None => if from == |s| then None else Find(s, from + 1)
  }

  /** `find` reports the leftmost match: none starts between `from` and the one it reports, and none at all when it reports none. */
  lemma {:induction false} FindLeftmost(s: string, from: nat)
    requires from <= |s|
    ensures Find(s, from).Some? ==> forall k :: from <= k < Find(s, from).value.0 ==> MatchAt(s, k).None?
    ensures Find(s, from).None? ==> forall k :: from <= k <= |s| ==> MatchAt(s, k).None?
    decreases |s| - from
  {
    if MatchAt(s, from).None? && from < |s| {
      FindLeftmost(s, from + 1);
    }
  }

  /** A match preceded by no other is the one `find` reports. */
  lemma FindAt(s: string, k: nat, j: nat)
    requires k <= |s| && MatchAt(s, k) == Some(j)
    requires forall x :: 0 <= x < k ==> MatchAt(s, x).None?
    ensures Find(s, 0) == Some((k, j))
  {
    FindLeftmost(s, 0);
    var m := Find(s, 0);
    assert m.Some?;
    assert m.value.0 == k;
  }

  /**
   * `Money.valueOf(String)` as written: the digits and code of the first
   * match, read as a whole number of scale 0; no match raises
   * `IllegalArgumentException`, and so does an unknown currency code.
   */
  function ValueOf(s: string, known: set<string>): (r: Result<Money, MoneyError>)
    ensures Find(s, 0).None? ==> r == Err(Failed(IllegalArgument(FormatMessage)))
    ensures r.Ok? ==> r.value.amount.scale == 0 && r.value.amount.unscaled >= 0
    ensures r.Ok? ==> IsCode(r.value.currency.code) && r.value.currency.code in known
  {
    match Find(s, 0)
    case None => Err(Failed(IllegalArgument(FormatMessage)))
    case Some((i, j)) =>
      RunDigits(s, i);
      var amount := Decimal(DigitsValue(s[i..j]), 0);
      match CurrencyInstance(s[j + 1..j + 4], known)
      case Ok(c) => Ok(Money(amount, c))
      case Err(e) => Err(Failed(e))
  }

  /** Digits from `k`, then a space and a code, match at `k`. */
  lemma MatchAfter(s: string, k: nat, digits: string, code: string)
    requires k <= |s| && s[k..] == digits + (" " + code)
    requires AllDigits(digits) && |digits| > 0 && IsCode(code)
    ensures MatchAt(s, k) == Some(k + |digits|)
    ensures s[k..k + |digits|] == digits
    ensures s[k + |digits| + 1..k + |digits| + 4] == code
  {
    RunOf(digits, " " + code, true);
    assert s[k + |digits|] == s[k..][|digits|] == ' ';
    assert s[k..k + |digits|] == s[k..][..|digits|];
    assert s[k + |digits| + 1..k + |digits| + 4] == s[k..][|digits| + 1..];
  }

  /** A whole, non-negative amount survives `toString` and `valueOf`. */
  lemma ValueOfWholeRoundTrip(m: Money, known: set<string>)
    requires m.amount.scale == 0 && m.amount.unscaled >= 0
    requires IsCode(m.currency.code) && m.currency.code in known
    ensures ValueOf(MoneyText(m), known) == Ok(m)
  {
    var n: nat := m.amount.unscaled;
    var digits := NatText(n);
    assert ToText(m.amount) == digits;
    var s := MoneyText(m);
    assert s == digits + (" " + m.currency.code);
    assert s[0..] == s;
    ReadFrom(s, 0, digits, m.currency.code, known);
    NatTextValue(n);
  }

  /** A minus sign is not part of the match: a negative whole amount reads back as its magnitude. */
  lemma ValueOfDropsSign(n: nat, code: string, known: set<string>)
    requires IsCode(code) && code in known
    ensures ValueOf("-" + NatText(n) + " " + code, known) == Ok(Money(Decimal(n, 0), Currency(code)))
  {
    var s := "-" + NatText(n) + " " + code;
    SignedText(NatText(n), code);
    ReadAfterSign(s, NatText(n), code, known);
    NatTextValue(n);
  }

  /** The pieces of a minus sign, digits, a space and a code. */
  lemma SignedText(digits: string, code: string)
    ensures var s := "-" + digits + " " + code;
      && |s| > 0 && s[0] == '-' && s[1..] == digits + (" " + code) && s[1..1 + |digits|] == digits
  {
    var s := "-" + digits + " " + code;
    assert s[1..] == digits + (" " + code);
    assert s[1..1 + |digits|] == s[1..][..|digits|];
  }

  /** A text that is a minus sign followed by a whole amount and a code reads as that amount. */
  lemma ReadAfterSign(s: string, digits: string, code: string, known: set<string>)
    requires |s| > 0 && s[0] == '-' && s[1..] == digits + (" " + code)
    requires AllDigits(digits) && |digits| > 0 && IsCode(code) && code in known
    ensures ValueOf(s, known) == Ok(Money(Decimal(DigitsValue(s[1..1 + |digits|]), 0), Currency(code)))
  {
    NoMatchAtNonDigit(s, 0);
    ReadFrom(s, 1, digits, code, known);
  }

  /** Inside the digits before a point, and at the point, the digit run ends at the point, not at a space. */
  lemma NoMatchBeforePoint(s: string, p: nat, x: nat)
    requires p < |s| && s[p] == '.' && AllDigits(s[..p]) && x <= p
    ensures MatchAt(s, x).None?
  {
    assert s[x..] == s[x..p] + s[p..];
    assert forall i :: 0 <= i < p - x ==> s[x..p][i] == s[..p][x + i];
    RunOf(s[x..p], s[p..], true);
  }

  /** Digits, a space and a code at `k`, with no match of the pattern before `k`, are what `valueOf` reads. */
  lemma ReadFrom(s: string, k: nat, digits: string, code: string, known: set<string>)
    requires k <= |s| && (forall x :: 0 <= x < k ==> MatchAt(s, x).None?) && s[k..] == digits + (" " + code)
    requires AllDigits(digits) && |digits| > 0 && IsCode(code) && code in known
    ensures ValueOf(s, known) == Ok(Money(Decimal(DigitsValue(s[k..k + |digits|]), 0), Currency(code)))
  {
    MatchAfter(s, k, digits, code);
    ReadMatched(s, k, k + |digits|, digits, code, known);
  }

  /** The first match, at `k` with digits up to `j`, is what `valueOf` reads. */
  lemma ReadMatched(s: string, k: nat, j: nat, digits: string, code: string, known: set<string>)
    requires k <= |s| && MatchAt(s, k) == Some(j) && forall x :: 0 <= x < k ==> MatchAt(s, x).None?
    requires AllDigits(digits) && s[k..j] == digits && s[j + 1..j + 4] == code && code in known
    ensures ValueOf(s, known) == Ok(Money(Decimal(DigitsValue(s[k..j]), 0), Currency(code)))
  {
    FindAt(s, k, j);
    ReadFound(s, k, j, digits, code, known);
  }

  /** The pattern cannot match at a character that is not a digit. */
  lemma NoMatchAtNonDigit(s: string, k: nat)
    requires k < |s| && !IsDigit(s[k])
    ensures MatchAt(s, k).None?
  {
    assert s[k..][0] == s[k];
  }

  /** What `valueOf` makes of the match `find` reports. */
  lemma ReadFound(s: string, i: nat, j: nat, digits: string, code: string, known: set<string>)
    requires Find(s, 0) == Some((i, j))
    requires AllDigits(digits) && s[i..j] == digits && s[j + 1..j + 4] == code && code in known
    ensures ValueOf(s, known) == Ok(Money(Decimal(DigitsValue(s[i..j]), 0), Currency(code)))
  {
  }

  /**
   * Whole digits, a point, fraction digits, a space and a code: the point
   * stops the first digit run short of a space, so only the fraction digits
   * are read, as a whole number.
   */
  lemma ValueOfDropsWholePart(s: string, p: nat, f: string, code: string, known: set<string>)
    requires p < |s| && s[p] == '.' && AllDigits(s[..p]) && s[p + 1..] == f + (" " + code)
    requires AllDigits(f) && |f| > 0 && IsCode(code) && code in known
    ensures ValueOf(s, known) == Ok(Money(Decimal(DigitsValue(s[p + 1..p + 1 + |f|]), 0), Currency(code)))
  {
    forall x | 0 <= x < p + 1 ensures MatchAt(s, x).None? {
      NoMatchBeforePoint(s, p, x);
    }
    ReadFrom(s, p + 1, f, code, known);
  }

  /** A string without digits never matches, so `valueOf` rejects it with the format message. */
  lemma ValueOfNeedsDigits(s: string, known: set<string>)
    requires forall i :: 0 <= i < |s| ==> !IsDigit(s[i])
    ensures ValueOf(s, known) == Err(Failed(IllegalArgument(FormatMessage)))
  {
    forall k | 0 <= k <= |s|
      ensures MatchAt(s, k).None?
    {
      if k < |s| {
        assert s[k..][0] == s[k];
      }
    }
  }

  /**
   * The corrected reading of the text form: everything before the last
   * space is the amount, read by `new BigDecimal(String)` with its sign and
   * fraction, and the three word characters after it are the currency code.
   */
  function ParseMoney(s: string, known: set<string>): (r: Result<Money, MoneyError>)
    ensures r.Ok? ==> IsCode(r.value.currency.code) && r.value.currency.code in known
    ensures r.Ok? ==> |s| >= 4 && s[|s| - 4..] == " " + r.value.currency.code
    ensures r.Ok? ==> ParseDecimal(s[..|s| - 4]) == Ok(r.value.amount)
  {
    if |s| < 4 || s[|s| - 4] != ' ' || !IsCode(s[|s| - 3..]) then
      Err(Failed(IllegalArgument(FormatMessage)))
    else
      match ParseDecimal(s[..|s| - 4])
      case Err(_) => Err(Failed(IllegalArgument(FormatMessage)))
      case Ok(amount) =>
        match CurrencyInstance(s[|s| - 3..], known)
        case Ok(c) => Ok(Money(amount, c))
        case Err(e) => Err(Failed(e))
  }

  /** Every money whose amount prints in plain notation reads back as itself, scale and sign included. */
  lemma ParseMoneyRoundTrip(m: Money, known: set<string>)
    requires PlainNotation(m.amount)
    requires IsCode(m.currency.code) && m.currency.code in known
    ensures ParseMoney(MoneyText(m), known) == Ok(m)
  {
    ParsePlainText(m.amount);
    ParseMoneyOf(ToText(m.amount), m.amount, m.currency.code, known);
  }

  /** A decimal text, a space and a known code read as that amount of that currency. */
  lemma ParseMoneyOf(text: string, amount: Decimal, code: string, known: set<string>)
    requires ParseDecimal(text) == Ok(amount)
    requires IsCode(code) && code in known
    ensures ParseMoney(text + " " + code, known) == Ok(Money(amount, Currency(code)))
  {
    var s := text + " " + code;
    assert s[|s| - 4] == ' ';
    assert s[..|s| - 4] == text;
    assert s[|s| - 3..] == code;
    assert CurrencyInstance(code, known) == Ok(Currency(code));
  }

  /**
   * Ten and a half dollars print as "10.50 USD", which `valueOf` reads as
   * fifty dollars, a money not equal to the original, while the corrected
   * reading gives the original back.
   */
  lemma ValueOfLosesFraction()
    ensures var m := Money(Decimal(1050, 2), Currency("USD"));
      MoneyText(m) == "10.50 USD"
      && ValueOf(MoneyText(m), {"USD"}) == Ok(Money(Decimal(50, 0), Currency("USD")))
      && !EqualsIntended(m, Money(Decimal(50, 0), Currency("USD")))
      && ParseMoney(MoneyText(m), {"USD"}) == Ok(m)
  {
    var m := Money(Decimal(1050, 2), Currency("USD"));
    TenFiftyText();
    TenFiftyValueOf();
    ParseMoneyRoundTrip(m, {"USD"});
  }

  lemma TenFiftyText()
    ensures MoneyText(Money(Decimal(1050, 2), Currency("USD"))) == "10.50 USD"
  {
    TenFiftyAmountText();
  }

  lemma TenFiftyAmountText()
    ensures ToText(Decimal(1050, 2)) == "10.50"
  {
    assert NatText(1050) == "1050";
    assert ToText(Decimal(1050, 2)) == "10" + "." + "50";
  }

  lemma TenFiftyValueOf()
    ensures ValueOf("10.50 USD", {"USD"}) == Ok(Money(Decimal(50, 0), Currency("USD")))
  {
    TenFiftyPieces();
    ValueOfDropsWholePart("10.50 USD", 2, "50", "USD", {"USD"});
    FiftyValue();
  }

  lemma TenFiftyPieces()
    ensures var s := "10.50 USD";
      && s[2] == '.' && AllDigits(s[..2]) && s[3..] == "50" + (" " + "USD") && s[3..3 + |"50"|] == "50"
  {
    var s := "10.50 USD";
    assert s[..2] == "10";
    assert s[3..] == "50" + (" " + "USD");
    assert s[3..5] == "50";
  }

  lemma FiftyValue()
    ensures DigitsValue("50") == 50
  {
    assert "50"[..1] == "5";
  }

  // ---------------------------------------------------------------------------
  // Worked examples
  // ---------------------------------------------------------------------------

  /** "10 USD" reads as ten dollars. */
  lemma ValueOfExample()
    ensures ValueOf("10 USD", {"USD"}) == Ok(Money(Decimal(10, 0), Currency("USD")))
  {
    assert "10 USD"[0..] == "10" + (" " + "USD");
    ReadFrom("10 USD", 0, "10", "USD", {"USD"});
    assert DigitsValue("10") == 10;
  }

  /** "USD" alone is not in the format. */
  lemma ValueOfRejectsExample()
    ensures ValueOf("USD", {"USD"}) == Err(Failed(IllegalArgument(FormatMessage)))
  {
    ValueOfNeedsDigits("USD", {"USD"});
  }

  /** The amount's scale shows in the text: "10.000 USD", "10 JPY". */
  lemma TextExamples()
    ensures MoneyText(Money(Decimal(10000, 3), Currency("USD"))) == "10.000 USD"
    ensures MoneyText(Money(Decimal(10, 0), Currency("JPY"))) == "10 JPY"
  {
    assert NatText(10000) == "10000";
    assert NatText(10) == "10";
  }

  /** 2.525 × 7.575 is exactly 19.126875; 25% of 250 is 57.50; 100 compounded by 10% is 110. */
  lemma ArithmeticExamples()
    ensures Multiply(Money(Decimal(2525, 3), Currency("USD")), Decimal(7575, 3)) == Money(Decimal(19126875, 6), Currency("USD"))
    ensures PercentageOf(Money(Decimal(250, 0), Currency("USD")), Percentage(Decimal(23, 2))) == Money(Decimal(5750, 2), Currency("USD"))
    ensures EqualsIntended(Compound(Money(Decimal(100, 0), Currency("USD")), Percentage(Decimal(10, 2))), Money(Decimal(110, 0), Currency("USD")))
  {
    var m := Money(Decimal(100, 0), Currency("USD"));
    var p := Percentage(Decimal(10, 2));
    var r := Compound(m, p);
    assert Decimals.Multiply(m.amount, p.value) == Decimal(1000, 2);
    assert Decimals.Add(m.amount, Decimal(1000, 2)) == Decimal(11000, 2);
    assert SameValue(Decimal(11000, 2), Decimal(110, 0));
    SameValueTransitive(r.amount, Decimal(11000, 2), Decimal(110, 0));
  }

  /** 100.75 divided by 5.05000001 keeps two fraction digits: 19.95. */
  lemma DivideExample()
    ensures Divide(Money(Decimal(10075, 2), Currency("USD")), Decimal(505000001, 8)) == Ok(Money(Decimal(1995, 2), Currency("USD")))
  {
    var a, b := Decimal(10075, 2), Decimal(505000001, 8);
    assert Units(a, 8) == 10075000000 by {
      assert Pow10(6) == 1000000;
    }
    assert Units(b, 8) == 505000001;
    assert Pow10(Positive(2)) == 100 && Pow10(Positive(-2)) == 1;
    assert HalfEvenQuotient(1007500000000, 505000001, 1995);
    DivideToScaleIs(a, b, 2, 1995);
  }

  /** Two pounds at a rate of 1.5 are worth three dollars; pounds stay pounds; zero pounds are zero yen. */
  lemma ValueInCurrencyExamples(rate: (Currency, Currency) -> Decimal)
    requires rate(Currency("GBP"), Currency("USD")) == Decimal(15, 1)
    ensures SameValue(ValueInCurrency(Money(Decimal(2, 0), Currency("GBP")), Currency("USD"), rate).amount, Decimal(3, 0))
    ensures ValueInCurrency(Money(Decimal(2, 0), Currency("GBP")), Currency("GBP"), rate) == Money(Decimal(2, 0), Currency("GBP"))
    ensures ValueInCurrency(Money(Decimal(0, 0), Currency("GBP")), Currency("JPY"), rate) == Money(Decimal(0, 0), Currency("JPY"))
  {
    var r := ValueInCurrency(Money(Decimal(2, 0), Currency("GBP")), Currency("USD"), rate);
    assert r.amount == Decimal(30, 1);
  }
}
