/**
 * `FinancialCalculator.compoundedReturns`: a starting value compounded once
 * for every period a range yields, at that period's return.  The source of
 * returns and the value's own `compound` are parameters: `Returns` is an
 * interface with no logic here, and `compound` is the monetary value's method
 * (`Money.compound` or `MoneyBag.compound`).
 */
module FinancialCalculators {
  import opened Wrappers
  import opened Digits
  import opened Decimals
  import opened Percentages
  import opened Monies
  import opened Ranges
  import opened Periods
  import MoneyBags

  /** The value after compounding it at the return of each period in turn. */
  function CompoundedOver<P, V>(compound: (V, Percentage) -> V, returnFor: P -> Percentage, periods: seq<P>, start: V): V
    decreases |periods|
  {
    if |periods| == 0 then start
    else CompoundedOver(compound, returnFor, periods[1..], compound(start, returnFor(periods[0])))
  }

  /**
   * `compoundedReturns(returns, overPeriod, startingValue)`: a for-each loop
   * over the range.  The periods whose return was asked for are reported in
   * `asked`: exactly the periods the range yields, once each, in order.
   */
  method CompoundedReturns<P, V>(returnFor: P -> Percentage, overPeriod: Range<P>, start: V, compound: (V, Percentage) -> V)
    returns (value: V, asked: seq<P>)
    requires Finite(overPeriod)
    ensures asked == Elements(overPeriod)
    ensures value == CompoundedOver(compound, returnFor, Elements(overPeriod), start)
  {
    ghost var all := Elements(overPeriod);
    var c := Iterator(overPeriod);
    value := start;
    asked := [];
    while HasNext(overPeriod, c)
      invariant |asked| <= |all|
      invariant c == Cursor(Item(overPeriod, |asked|), |asked|)
      invariant asked == all[..|asked|]
      invariant CompoundedOver(compound, returnFor, all, start) == CompoundedOver(compound, returnFor, all[|asked|..], value)
      decreases |all| - |asked|
    {
      var k := |asked|;
      assert k < |all|;
      var step := Ranges.Next(overPeriod, c);
      assert all[k..][0] == step.0 && all[k..][1..] == all[k + 1..];
      value := compound(value, returnFor(step.0));
      asked := asked + [step.0];
      c := step.1;
    }
    assert |asked| == |all|;
  }

  /** The first period of the range is always yielded, so at least one compounding happens. */
  lemma AtLeastOnce<P(!new)>(r: Range<P>)
    requires ValidRule(r.rule) && Finite(r)
    ensures |Elements(r)| >= 1 && Elements(r)[0] == r.from
  {
    IteratorStart(r);
    assert HasNextAt(r, 0);
  }

  /** Compounding over a list of periods is compounding over its first part, then over the rest. */
  lemma {:induction false} CompoundedOverSplit<P, V>(compound: (V, Percentage) -> V, returnFor: P -> Percentage,
                                                    ps: seq<P>, qs: seq<P>, start: V)
    ensures CompoundedOver(compound, returnFor, ps + qs, start)
         == CompoundedOver(compound, returnFor, qs, CompoundedOver(compound, returnFor, ps, start))
    decreases |ps|
  {
    if |ps| > 0 {
      assert (ps + qs)[0] == ps[0] && (ps + qs)[1..] == ps[1..] + qs;
      CompoundedOverSplit(compound, returnFor, ps[1..], qs, compound(start, returnFor(ps[0])));
    } else {
      assert ps + qs == qs;
    }
  }

  /**
   * Compounding a bag over the periods compounds every total over them on its
   * own: `MoneyBag.compound` works total by total.
   */
  lemma {:induction false} BagCompoundsTotalwise(returnFor: Period -> Percentage, ps: seq<Period>, b: MoneyBags.MoneyBag)
    ensures var r := CompoundedOver(MoneyBags.Compound, returnFor, ps, b);
      && r.totals.Keys == b.totals.Keys
      && forall c :: c in b.totals ==> r.totals[c] == CompoundedOver(Monies.Compound, returnFor, ps, b.totals[c])
    decreases |ps|
  {
    if |ps| > 0 {
      var next := MoneyBags.Compound(b, returnFor(ps[0]));
      BagCompoundsTotalwise(returnFor, ps[1..], next);
    }
  }

  // ---------------------------------------------------------------------------
  // The calculator's own test: 100 USD at a fixed 10% over months
  // ---------------------------------------------------------------------------

  /** A fixed rate: the same return for every period. */
  function FixedRate(p: Percentage): Period -> Percentage {
    _ => p
  }

  /** Ten percent, as "10%" reads. */
  const TenPercent: Percentage := Percentage(Decimal(10, 2))

  lemma OneCompounding(usd: Currency)
    ensures Monies.Compound(Money(Decimal(100, 0), usd), TenPercent) == Money(Decimal(11000, 2), usd)
  {
    assert Decimals.Multiply(Decimal(100, 0), TenPercent.value) == Decimal(1000, 2);
    assert Pow10(2) == 100;
    assert Decimals.Add(Decimal(100, 0), Decimal(1000, 2)) == Decimal(11000, 2);
  }

  lemma TwoCompoundings(usd: Currency)
    ensures Monies.Compound(Money(Decimal(11000, 2), usd), TenPercent) == Money(Decimal(1210000, 4), usd)
  {
    assert Decimals.Multiply(Decimal(11000, 2), TenPercent.value) == Decimal(110000, 4);
    assert Pow10(2) == 100;
    assert Decimals.Add(Decimal(11000, 2), Decimal(110000, 4)) == Decimal(1210000, 4);
  }

  /** 110.00 and 1.21 at scale four equal 110 and 121 under `Money.equals`. */
  lemma CompoundedEqualsExpected(usd: Currency)
    ensures Monies.Equals(Money(Decimal(110, 0), usd), Money(Decimal(11000, 2), usd))
    ensures Monies.Equals(Money(Decimal(121, 0), usd), Money(Decimal(1210000, 4), usd))
  {
    assert Pow10(2) == 100 && Pow10(4) == 10000;
  }

  /** Compounding over two periods applies the two returns in order. */
  lemma OverTwo<P, V>(compound: (V, Percentage) -> V, returnFor: P -> Percentage, p: P, q: P, start: V)
    ensures CompoundedOver(compound, returnFor, [p, q], start) == compound(compound(start, returnFor(p)), returnFor(q))
  {
    var once := compound(start, returnFor(p));
    assert [p, q][0] == p && [p, q][1..] == [q] && [q][1..] == [];
    assert CompoundedOver(compound, returnFor, [q], once) == CompoundedOver(compound, returnFor, [], compound(once, returnFor(q)));
  }

  /** The months the one-month and two-month ranges of the test yield. */
  lemma MonthRanges(i: int)
    ensures var month := Period(MonthKind, i);
      var one := Range(month, month, NaturalRule());
      var two := Range(month, Periods.Next(month), NaturalRule());
      && Finite(one) && Finite(two)
      && Elements(one) == [month] && Elements(two) == [month, Period(MonthKind, i + 1)]
  {
    KindRangeElements(MonthKind, i, i);
    KindRangeElements(MonthKind, i, i + 1);
  }

  /** A one-month range at 10% turns 100 USD into 110 USD; a two-month range into 121 USD. */
  lemma MonthlyExample(usd: Currency, i: int)
    ensures var month := Period(MonthKind, i);
      var one := Range(month, month, NaturalRule());
      var two := Range(month, Periods.Next(month), NaturalRule());
      && Finite(one) && Finite(two)
      && Monies.Equals(Money(Decimal(110, 0), usd),
                       CompoundedOver(Monies.Compound, FixedRate(TenPercent), Elements(one), Money(Decimal(100, 0), usd)))
      && Monies.Equals(Money(Decimal(121, 0), usd),
                       CompoundedOver(Monies.Compound, FixedRate(TenPercent), Elements(two), Money(Decimal(100, 0), usd)))
  {
    var month := Period(MonthKind, i);
    var start := Money(Decimal(100, 0), usd);
    MonthRanges(i);
    OneCompounding(usd);
    TwoCompoundings(usd);
    assert CompoundedOver(Monies.Compound, FixedRate(TenPercent), [month], start) == Money(Decimal(11000, 2), usd);
    OverTwo(Monies.Compound, FixedRate(TenPercent), month, Period(MonthKind, i + 1), start);
    CompoundedEqualsExpected(usd);
  }
}
