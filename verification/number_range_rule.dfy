/**
 * pantheon-common's `NumberRangeRule`: a range rule for numbers that steps by
 * a fixed increment, reading every number as a `BigDecimal` through its
 * `toString`.  Values are modelled as those decimals; the increment keeps its
 * Java class as well, because two rules are equal only when their increments
 * have the same class.
 */
module NumberRangeRules {
  import opened Wrappers
  import opened Digits
  import opened Decimals
  import opened DecimalText
  import opened Ranges

  /** A boxed Java `Number`: its class and the decimal its `toString` denotes. */
  datatype Number = Number(kind: NumberType, value: Decimal)

  /** `NumberRangeRule.create(increment)`; `increment()` reads it back unchanged. */
  datatype NumberRangeRule = NumberRangeRule(increment: Number)

  /** `incrementBD`: the increment as a `BigDecimal`, trailing zeros stripped. */
  function IncrementBD(rule: NumberRangeRule): Decimal {
    StripTrailingZeros(rule.increment.value)
  }

  /** `next(x)`: `x` plus the increment, exactly, at the larger of the two scales. */
  function Next(rule: NumberRangeRule, x: Decimal): (y: Decimal)
    ensures SameValue(y, Add(x, rule.increment.value))
    ensures y.scale == Max(x.scale, IncrementBD(rule).scale)
  {
    var y := Add(x, IncrementBD(rule));
    AddSameValue(x, IncrementBD(rule), rule.increment.value);
    y
  }

  /** `prior(x)`: `x` minus the increment, exactly, at the larger of the two scales. */
  function Prior(rule: NumberRangeRule, x: Decimal): (y: Decimal)
    ensures SameValue(y, Subtract(x, rule.increment.value))
    ensures y.scale == Max(x.scale, IncrementBD(rule).scale)
  {
    var y := Subtract(x, IncrementBD(rule));
    SubtractSameValue(x, IncrementBD(rule), rule.increment.value);
    y
  }

  const MinLong: int := -0x8000_0000_0000_0000
  const MaxLong: int := 0x7fff_ffff_ffff_ffff

  const NotCreatable: string := "NumberRangeRule trying to operate on a class that cannot be created from a string."

  /**
   * Whether the `String` constructor of a class accepts `amount.toString()`.
   * The integer classes take only plain digits, so an amount with fraction
   * digits (or the exponent form of a negative scale) is refused, and
   * `Integer` and `Long` refuse what does not fit their width; `BigDecimal`
   * takes every amount.
   */
  predicate Creatable(kind: NumberType, amount: Decimal) {
    match kind
    case IntegerType => amount.scale == 0 && IsJavaInt(amount.unscaled)
    case LongType => amount.scale == 0 && MinLong <= amount.unscaled <= MaxLong
    case BigIntegerType => amount.scale == 0
    case BigDecimalType => true
  }

  /**
   * `createTypedInstance(from, amount)`: a number of the class of `from`
   * built from the text of `amount`, or the `IllegalStateException` that
   * wraps the constructor's failure.
   */
  function CreateTyped(kind: NumberType, amount: Decimal): (r: Result<Number, Failure>)
    ensures r.Ok? <==> Creatable(kind, amount)
    ensures r.Ok? ==> r.value == Number(kind, amount)
    ensures r.Err? ==> r.error == IllegalState(NotCreatable)
  {
    if Creatable(kind, amount) then Ok(Number(kind, amount)) else Err(IllegalState(NotCreatable))
  }

  /** `next(from)` on a boxed number: the sum as a number of the class of `from`, or `IllegalStateException`. */
  function NextTyped(rule: NumberRangeRule, from: Number): (r: Result<Number, Failure>)
    ensures r.Ok? ==> r.value.kind == from.kind && SameValue(r.value.value, Add(from.value, rule.increment.value))
    ensures r.Err? ==> r.error == IllegalState(NotCreatable)
  {
    CreateTyped(from.kind, Next(rule, from.value))
  }

  /** `prior(from)` on a boxed number: the difference as a number of the class of `from`, or `IllegalStateException`. */
  function PriorTyped(rule: NumberRangeRule, from: Number): (r: Result<Number, Failure>)
    ensures r.Ok? ==> r.value.kind == from.kind && SameValue(r.value.value, Subtract(from.value, rule.increment.value))
    ensures r.Err? ==> r.error == IllegalState(NotCreatable)
  {
    CreateTyped(from.kind, Prior(rule, from.value))
  }

  /** A `BigDecimal` value always steps: the result is exactly what the rule on decimals gives. */
  lemma BigDecimalSteps(rule: NumberRangeRule, x: Decimal)
    ensures NextTyped(rule, Number(BigDecimalType, x)) == Ok(Number(BigDecimalType, Next(rule, x)))
    ensures PriorTyped(rule, Number(BigDecimalType, x)) == Ok(Number(BigDecimalType, Prior(rule, x)))
  {
  }

  /**
   * A whole `Integer` value with a whole increment steps exactly when the
   * result fits an `int`; otherwise the rule throws.
   */
  lemma IntegerSteps(rule: NumberRangeRule, x: int)
    requires IncrementBD(rule).scale <= 0
    ensures var sum := x + Units(IncrementBD(rule), 0);
      && (NextTyped(rule, Number(IntegerType, Decimal(x, 0))).Ok? <==> IsJavaInt(sum))
      && (NextTyped(rule, Number(IntegerType, Decimal(x, 0))).Ok? ==>
            NextTyped(rule, Number(IntegerType, Decimal(x, 0))).value == Number(IntegerType, Decimal(sum, 0)))
  {
    WholeSum(x, IncrementBD(rule));
  }

  /** The same for `prior`: a whole `Integer` value steps back exactly when the result fits an `int`. */
  lemma IntegerPriorSteps(rule: NumberRangeRule, x: int)
    requires IncrementBD(rule).scale <= 0
    ensures var difference := x - Units(IncrementBD(rule), 0);
      && (PriorTyped(rule, Number(IntegerType, Decimal(x, 0))).Ok? <==> IsJavaInt(difference))
      && (PriorTyped(rule, Number(IntegerType, Decimal(x, 0))).Ok? ==>
            PriorTyped(rule, Number(IntegerType, Decimal(x, 0))).value == Number(IntegerType, Decimal(difference, 0)))
  {
    WholeDifference(x, IncrementBD(rule));
  }

  lemma WholeDifference(x: int, inc: Decimal)
    requires inc.scale <= 0
    ensures Subtract(Decimal(x, 0), inc) == Decimal(x - Units(inc, 0), 0)
  {
    assert Pow10(0) == 1;
  }

  /** A whole number plus a whole decimal is the whole number of their units. */
  lemma WholeSum(x: int, inc: Decimal)
    requires inc.scale <= 0
    ensures Add(Decimal(x, 0), inc) == Decimal(x + Units(inc, 0), 0)
  {
    assert Pow10(0) == 1;
  }

  /** `next(Integer.MAX_VALUE)` with increment 1 overflows `int` and throws. */
  lemma IntegerNextOverflows()
    ensures NextTyped(NumberRangeRule(Number(IntegerType, Decimal(1, 0))), Number(IntegerType, Decimal(MaxInt, 0)))
      == Err(IllegalState(NotCreatable))
  {
    var rule := NumberRangeRule(Number(IntegerType, Decimal(1, 0)));
    StripStripped(Decimal(1, 0));
    IntegerSteps(rule, MaxInt);
  }

  /** An `Integer` value cannot step by one half: `1.5` is not an `Integer` text. */
  lemma IntegerHalfStepThrows()
    ensures NextTyped(NumberRangeRule(Number(BigDecimalType, Decimal(5, 1))), Number(IntegerType, Decimal(1, 0)))
      == Err(IllegalState(NotCreatable))
  {
    StripStripped(Decimal(5, 1));
    assert Next(NumberRangeRule(Number(BigDecimalType, Decimal(5, 1))), Decimal(1, 0)).scale == 1;
  }

  /** `compare` orders by numeric value alone: replacing either side by an equal value of another scale changes nothing. */
  lemma CompareByValue(a: Decimal, a2: Decimal, b: Decimal, b2: Decimal)
    requires SameValue(a, a2) && SameValue(b, b2)
    ensures Decimals.Compare(a, b) == Decimals.Compare(a2, b2)
  {
    var t := Max(Max(a.scale, a2.scale), Max(b.scale, b2.scale));
    SameValueAt(a, a2, t);
    SameValueAt(b, b2, t);
  }

  /** `prior(next(x))` has the value of `x`, and is `x` itself unless the increment has more fraction digits than `x`. */
  lemma PriorAfterNext(rule: NumberRangeRule, x: Decimal)
    ensures SameValue(Prior(rule, Next(rule, x)), x)
    ensures IncrementBD(rule).scale <= x.scale ==> Prior(rule, Next(rule, x)) == x
  {
    var y := Prior(rule, Next(rule, x));
    var t := Max(x.scale, IncrementBD(rule).scale);
    assert y.scale == t;
    assert Units(y, t) == Units(x, t);
    SameValueAt(y, x, t);
  }

  /** `next(prior(x))` has the value of `x`, and is `x` itself unless the increment has more fraction digits than `x`. */
  lemma NextAfterPrior(rule: NumberRangeRule, x: Decimal)
    ensures SameValue(Next(rule, Prior(rule, x)), x)
    ensures IncrementBD(rule).scale <= x.scale ==> Next(rule, Prior(rule, x)) == x
  {
    var y := Next(rule, Prior(rule, x));
    var t := Max(x.scale, IncrementBD(rule).scale);
    assert y.scale == t;
    assert Units(y, t) == Units(x, t);
    SameValueAt(y, x, t);
  }

  /** With increment one half, `prior(next(1))` is `1.0`: the same value as `1`, but not `equals` to it. */
  lemma PriorAfterNextKeepsScale()
    ensures Prior(NumberRangeRule(Number(BigDecimalType, Decimal(5, 1))), Next(NumberRangeRule(Number(BigDecimalType, Decimal(5, 1))), Decimal(1, 0))) == Decimal(10, 1)
  {
    var rule := NumberRangeRule(Number(BigDecimalType, Decimal(5, 1)));
    assert IncrementBD(rule) == Decimal(5, 1);
    assert Next(rule, Decimal(1, 0)) == Decimal(15, 1);
  }

  /** A decimal already in stripped form is left alone by `stripTrailingZeros`. */
  lemma StripStripped(d: Decimal)
    requires Stripped(d)
    ensures IncrementBD(NumberRangeRule(Number(BigDecimalType, d))) == d
  {
    StrippedUnique(StripTrailingZeros(d), d);
  }

  lemma WholeSteps(rule: NumberRangeRule, x: int, inc: int)
    requires IncrementBD(rule) == Decimal(inc, 0)
    ensures Next(rule, Decimal(x, 0)) == Decimal(x + inc, 0)
    ensures Prior(rule, Decimal(x, 0)) == Decimal(x - inc, 0)
  {
    assert Pow10(0) == 1;
  }

  /** With increment 7, 1 steps to 8 and -6, and 339 to 346 and 332. */
  lemma NextPriorBySeven()
    ensures Next(NumberRangeRule(Number(IntegerType, Decimal(7, 0))), Decimal(1, 0)) == Decimal(8, 0)
    ensures Prior(NumberRangeRule(Number(IntegerType, Decimal(7, 0))), Decimal(1, 0)) == Decimal(-6, 0)
    ensures Next(NumberRangeRule(Number(IntegerType, Decimal(7, 0))), Decimal(339, 0)) == Decimal(346, 0)
    ensures Prior(NumberRangeRule(Number(IntegerType, Decimal(7, 0))), Decimal(339, 0)) == Decimal(332, 0)
  {
    var rule := NumberRangeRule(Number(IntegerType, Decimal(7, 0)));
    StripStripped(Decimal(7, 0));
    WholeSteps(rule, 1, 7);
    WholeSteps(rule, 339, 7);
  }

  /** With the `BigInteger` increment 10, stripped to one ten, 15 steps to 25 and 5. */
  lemma NextPriorByTen()
    ensures Next(NumberRangeRule(Number(BigIntegerType, Decimal(10, 0))), Decimal(15, 0)) == Decimal(25, 0)
    ensures Prior(NumberRangeRule(Number(BigIntegerType, Decimal(10, 0))), Decimal(15, 0)) == Decimal(5, 0)
  {
    var rule := NumberRangeRule(Number(BigIntegerType, Decimal(10, 0)));
    var ten := Decimal(1, -1);
    assert SameValue(ten, Decimal(10, 0)) by {
      assert Pow10(1) == 10 && Pow10(0) == 1;
    }
    StrippedUnique(IncrementBD(rule), ten);
    assert Units(ten, 0) == 10 by {
      assert Pow10(1) == 10;
    }
    assert Units(Decimal(15, 0), 0) == 15 by {
      assert Pow10(0) == 1;
    }
  }

  /** The rule as a `RangeRule` on decimals; its identity is what `equals` compares. */
  function AsRangeRule(rule: NumberRangeRule): RangeRule<Decimal> {
    RangeRule(
      Numeric(rule.increment.kind, IncrementBD(rule)),
      (a: Decimal, b: Decimal) => Decimals.Compare(a, b),
      (x: Decimal) => Next(rule, x),
      (x: Decimal) => Prior(rule, x))
  }

  /** A positive increment meets the `RangeRule` contract: a comparator, with `next` strictly after and `prior` strictly before. */
  lemma NumberRuleValid(rule: NumberRangeRule)
    requires rule.increment.value.unscaled > 0
    ensures ValidRule(AsRangeRule(rule))
  {
    var compare := AsRangeRule(rule).compare;
    forall a, b ensures Sign(compare(a, b)) == -Sign(compare(b, a)) {
      var t := Max(a.scale, b.scale);
      assert compare(a, b) == Sign(Units(a, t) - Units(b, t));
      assert compare(b, a) == Sign(Units(b, t) - Units(a, t));
    }
    forall a, b, c | compare(a, b) <= 0 && compare(b, c) <= 0 ensures compare(a, c) <= 0 {
      var t := Max(Max(a.scale, b.scale), c.scale);
      assert compare(a, b) == Sign(Units(a, t) - Units(b, t));
      assert compare(b, c) == Sign(Units(b, t) - Units(c, t));
      assert compare(a, c) == Sign(Units(a, t) - Units(c, t));
    }
    var inc := IncrementBD(rule);
    assert inc.unscaled > 0;
    forall x ensures compare(x, Next(rule, x)) < 0 && compare(x, Prior(rule, x)) > 0 {
      var t := Max(x.scale, inc.scale);
      PositiveUnits(inc, t);
      assert Units(Next(rule, x), t) == Units(x, t) + Units(inc, t);
      assert Units(Prior(rule, x), t) == Units(x, t) - Units(inc, t);
    }
  }

  lemma PositiveUnits(d: Decimal, t: int)
    requires d.unscaled > 0 && d.scale <= t
    ensures Units(d, t) > 0
  {
  }

  /** `equals`: the increments have the same class and equal stripped decimals. */
  predicate Equals(a: NumberRangeRule, b: NumberRangeRule) {
    a.increment.kind == b.increment.kind && IncrementBD(a) == IncrementBD(b)
  }

  /** Two rules are equal exactly when their increments have the same class and the same numeric value, whatever the scales. */
  lemma EqualsByValue(a: NumberRangeRule, b: NumberRangeRule)
    ensures Equals(a, b) <==> a.increment.kind == b.increment.kind && SameValue(a.increment.value, b.increment.value)
  {
    StripCanonical(a.increment.value, b.increment.value);
  }

  /** The identity a rule gives its ranges tells rules apart exactly as `equals` does. */
  lemma RuleIdentity(a: NumberRangeRule, b: NumberRangeRule)
    ensures AsRangeRule(a).id == AsRangeRule(b).id <==> Equals(a, b)
  {
  }

  /** 10.0 and 10 give equal rules; the `Integer` 1 and the `BigDecimal` 1 do not; nor do 1 and 3. */
  lemma EqualsExamples()
    ensures Equals(NumberRangeRule(Number(BigDecimalType, Decimal(100, 1))), NumberRangeRule(Number(BigDecimalType, Decimal(10, 0))))
    ensures !Equals(NumberRangeRule(Number(IntegerType, Decimal(1, 0))), NumberRangeRule(Number(BigDecimalType, Decimal(1, 0))))
    ensures !Equals(NumberRangeRule(Number(IntegerType, Decimal(1, 0))), NumberRangeRule(Number(IntegerType, Decimal(3, 0))))
  {
    EqualsByValue(NumberRangeRule(Number(BigDecimalType, Decimal(100, 1))), NumberRangeRule(Number(BigDecimalType, Decimal(10, 0))));
    EqualsByValue(NumberRangeRule(Number(IntegerType, Decimal(1, 0))), NumberRangeRule(Number(IntegerType, Decimal(3, 0))));
  }

  const Description: string := "NumberRangeRule with increment of "

  /** `toString`: the description followed by the stripped increment as `MessageFormat` writes a number. */
  function ToString(rule: NumberRangeRule): string {
    Description + FormatNumber(IncrementBD(rule))
  }

  /** For a non-negative whole increment, the text is the description followed by the increment's digits, give or take grouping commas. */
  lemma ToStringWhole(rule: NumberRangeRule, n: nat)
    requires rule.increment.value.scale <= 0
    requires n == rule.increment.value.unscaled * Pow10(-rule.increment.value.scale)
    ensures ToString(rule)[..|Description|] == Description
    ensures WithoutChar(ToString(rule)[|Description|..], ',') == NatText(n)
  {
    var inc := IncrementBD(rule);
    var m := WholeIncrement(rule.increment.value, n);
    FormatWholeNumber(m, inc.scale);
    assert ToString(rule)[|Description|..] == FormatNumber(inc);
  }

  /** A whole increment strips to a whole decimal with the same count of ones. */
  lemma WholeIncrement(v: Decimal, n: nat) returns (m: nat)
    requires v.scale <= 0 && n == v.unscaled * Pow10(-v.scale)
    ensures StripTrailingZeros(v) == Decimal(m, StripTrailingZeros(v).scale)
    ensures StripTrailingZeros(v).scale <= 0 && m * Pow10(-StripTrailingZeros(v).scale) == n
  {
    var inc := StripTrailingZeros(v);
    if v.unscaled == 0 {
      m := 0;
    } else {
      SameValueAt(inc, v, 0);
      assert v.unscaled > 0 by {
        if v.unscaled < 0 {
          NegativeUnits(v, 0);
        }
      }
      m := inc.unscaled;
    }
  }

  lemma NegativeUnits(d: Decimal, t: int)
    requires d.unscaled < 0 && d.scale <= t
    ensures Units(d, t) < 0
  {
  }

  /** `create(10).toString()` is "NumberRangeRule with increment of 10". */
  lemma ToStringExample()
    ensures ToString(NumberRangeRule(Number(IntegerType, Decimal(10, 0)))) == "NumberRangeRule with increment of 10"
  {
    var inc := IncrementBD(NumberRangeRule(Number(IntegerType, Decimal(10, 0))));
    assert StripTrailingZeros(Decimal(1, -1)) == Decimal(1, -1);
    assert inc == Decimal(1, -1);
    assert Thousandths(inc) == 10000;
    assert ZeroPad(0, 3) == "000";
    assert TrimZeros("000") == "";
    assert NatText(10) == "10";
    assert Grouped("10") == "10";
  }

  /** `createRange(from, to, increment)`: the range between the two values under the rule for `increment`. */
  function CreateRange(from: Decimal, to: Decimal, increment: Number): Range<Decimal> {
    Range(from, to, AsRangeRule(NumberRangeRule(increment)))
  }

  /** Two created ranges are equal exactly when their bounds are and their increments have the same class and value. */
  lemma CreateRangeEquals(from: Decimal, to: Decimal, a: Number, from2: Decimal, to2: Decimal, b: Number)
    ensures RangeEquals(CreateRange(from, to, a), CreateRange(from2, to2, b))
        <==> from == from2 && to == to2 && a.kind == b.kind && SameValue(a.value, b.value)
  {
    EqualsByValue(NumberRangeRule(a), NumberRangeRule(b));
  }

  lemma HalfStep(u: int)
    ensures Next(NumberRangeRule(Number(BigDecimalType, Decimal(5, 1))), Decimal(u, 1)) == Decimal(u + 5, 1)
  {
    StripStripped(Decimal(5, 1));
    assert Pow10(0) == 1;
  }

  /** The range from 0 to 1 stepping by one half. */
  function HalfSteps(): Range<Decimal> {
    CreateRange(Decimal(0, 0), Decimal(1, 0), Number(BigDecimalType, Decimal(5, 1)))
  }

  lemma HalfStepsItems()
    ensures DirectionOf(HalfSteps()) == Forwards
    ensures Item(HalfSteps(), 0) == Decimal(0, 0)
    ensures Item(HalfSteps(), 1) == Decimal(5, 1)
    ensures Item(HalfSteps(), 2) == Decimal(10, 1)
    ensures Item(HalfSteps(), 3) == Decimal(15, 1)
  {
    var r := HalfSteps();
    assert Pow10(0) == 1 && Pow10(1) == 10;
    assert Decimals.Compare(Decimal(0, 0), Decimal(1, 0)) == -1;
    StripStripped(Decimal(5, 1));
    assert Next(NumberRangeRule(Number(BigDecimalType, Decimal(5, 1))), Decimal(0, 0)) == Decimal(5, 1);
    HalfStep(5);
    HalfStep(10);
  }

  lemma CompareToOne(u: int)
    ensures HalfSteps().rule.compare(Decimal(u, 0), Decimal(1, 0)) == Sign(u - 1)
    ensures HalfSteps().rule.compare(Decimal(u, 1), Decimal(1, 0)) == Sign(u - 10)
  {
    assert Pow10(0) == 1 && Pow10(1) == 10;
  }

  lemma HalfStepsReachesOne()
    ensures HasNextAt(HalfSteps(), 2)
  {
    HalfStepsItems();
    CompareToOne(10);
  }

  lemma HalfStepsEnd()
    ensures !HasNextAt(HalfSteps(), 3)
  {
    HalfStepsItems();
    CompareToOne(15);
  }

  /** Every item after `from` has the larger of the scales of `from` and the stripped increment. */
  lemma {:induction false} ItemScale(from: Decimal, to: Decimal, increment: Number, k: nat)
    requires k > 0
    ensures Item(CreateRange(from, to, increment), k).scale == Max(from.scale, IncrementBD(NumberRangeRule(increment)).scale)
  {
    if k > 1 {
      ItemScale(from, to, increment, k - 1);
    }
  }

  /**
   * Membership is `equals` on `BigDecimal`, which sees the scale: a bound
   * written with fewer fraction digits than the items reaching it is never an
   * element, even when an element has its value.
   */
  lemma ScaleHidesBound(from: Decimal, to: Decimal, increment: Number)
    requires Finite(CreateRange(from, to, increment))
    requires to != from
    requires to.scale < Max(from.scale, IncrementBD(NumberRangeRule(increment)).scale)
    ensures to !in Elements(CreateRange(from, to, increment))
  {
    var r := CreateRange(from, to, increment);
    var e := Elements(r);
    forall i | 0 <= i < |e| ensures e[i] != to {
      if i > 0 {
        ItemScale(from, to, increment, i);
      }
    }
  }

  /** 0 to 1 by one half reaches 1.0 as its third item and stops after it. */
  lemma HalfStepsWalk()
    ensures Item(HalfSteps(), 2) == Decimal(10, 1) && HasNextAt(HalfSteps(), 2) && !HasNextAt(HalfSteps(), 3)
  {
    HalfStepsItems();
    HalfStepsReachesOne();
    HalfStepsEnd();
  }

  /** 0 to 1 by one half does not contain 1: the item with that value is written 1.0. */
  lemma HalfStepsMissesOne()
    ensures Finite(HalfSteps()) && Decimal(1, 0) !in Elements(HalfSteps())
  {
    HalfStepsEnd();
    StripStripped(Decimal(5, 1));
    ScaleHidesBound(Decimal(0, 0), Decimal(1, 0), Number(BigDecimalType, Decimal(5, 1)));
  }
}
