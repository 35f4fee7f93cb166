# Pantheon core, modelled in Dafny

Pantheon is a small Java library in three parts.

- `pantheon-common` holds:
  - generic ranges (`Range` over a `RangeRule`, with `NumberRangeRule` for numbers);
  - `FunctionMap`, a map whose `put` combines old and new values;
  - predicate combinators and collection quantifiers (`Predicates`, `CommonUtil`);
  - `Percentage`, a `BigDecimal` percentage.
- `pantheon-janus` holds calendar periods:
  - `SimplePeriod` and its kinds `Day`, `Week`, `Month`, `Quarter` and `Year`;
  - their ordering, stepping and rolling;
  - their ISO-8601-style text forms.
- `pantheon-plutus` holds:
  - `Money`, an amount in a currency;
  - `MoneyBag`, one total per currency;
  - `CachingExchange`, a memoising exchange-rate source;
  - `FinancialCalculator.compoundedReturns`.

This project models these classes as immutable Dafny datatypes and pure functions. Each operation's contract states what the Java code does, including its error paths (a `Result` carrying the Java exception). Lemmas relate operations to one another: inverses, round trips through the text forms, order independence, and the invariants of the cache and the iterators.

## Building blocks

- `Decimals` models `java.math.BigDecimal` as an unscaled integer and a scale. It covers:
  - exact `add`, `subtract` and `multiply`;
  - `compareTo`, `stripTrailingZeros`, `setScale` and `movePointLeft`;
  - `divide(x, scale, ROUND_HALF_EVEN)`.
- `DecimalText` models the text side of `BigDecimal`:
  - `toString`;
  - `new BigDecimal(String)`;
  - the default `NumberFormat` output.
- `Digits` is decimal digit strings and zero padding.
- `Gregorian` is the proleptic Gregorian calendar on day numbers. It covers:
  - dates and month indices;
  - weekdays with Monday first;
  - week-of-year with a minimum of four days in the first week, as `Calendar` is configured in `SimplePeriod.getCalibratedCalendar`;
  - `Calendar.add` for days, months and years.
- `DateFields` is the lenient field reading of `SimpleDateFormat.parse` for the numeric patterns the periods use. Each field is read by `DecimalFormat`, which also takes an exponent: `E`, an optional minus sign and digits.
- `Wrappers` holds `Option`, `Result`, the Java exceptions that can occur, and Java `int` wrap-around.

Each source class maps to one module:

| Module | Source class |
|---|---|
| `Ranges` | `Range` and `RangeRule` |
| `RangeExamples` | the integer rules that `RangeTest` uses |
| `NumberRangeRules` | `NumberRangeRule` |
| `FunctionMaps` | `FunctionMap` |
| `CommonUtil` | `CommonUtil` |
| `Predicates` | `Predicates` |
| `Percentages` | `Percentage` |
| `Monies` | `Money` |
| `MoneyBags` | `MoneyBag` |
| `CachingExchanges` | `CachingExchange` |
| `FinancialCalculators` | `FinancialCalculator` |
| `Periods` | `SimplePeriod` |
| `PeriodKinds` | the kind-specific operations of `Day`, `Week`, `Month`, `Quarter` and `Year` |
| `PeriodText` | the text forms and `valueOf` of the periods |

A period is a kind and an index:
- days are day numbers;
- weeks count Mondays;
- months, quarters and years count from year 0.

`First` and `Last` are the period's start and stop days.

Some things that Java takes from its environment become parameters:
- `HashMap` iteration order becomes an explicit `order` sequence, and the lemmas show that results do not depend on it;
- exchange rates become a rate function;
- the currently known currencies become a `known` set;
- the clock becomes a day number, or the day of month for `Quarter.valueOf`.

## Model

| member | source | states |
|---|---|---|
| Wrappers.WrapInt | pantheon-janus/src/main/java/org/paritybits/pantheon/janus/simple/Month.java:72-74 | Java `int` multiplication wraps: the result is a 32-bit value congruent to the exact product modulo 2^32, and equal to it whenever the product fits |
| Digits.NatTextValue | pantheon-janus/src/main/java/org/paritybits/pantheon/janus/simple/Day.java:33-35 | the decimal digits printed for a number read back as that number |
| Digits.ZeroPadValue | pantheon-janus/src/main/java/org/paritybits/pantheon/janus/simple/Day.java:33-35 | zero-padding a field to a fixed width (`yyyy`, `MM`, `dd`) does not change the number it denotes |
| Digits.ZeroPadLength | pantheon-janus/src/main/java/org/paritybits/pantheon/janus/simple/Day.java:33-35 | a number below 10^width is printed in exactly `width` digits |
| Decimals.Add | pantheon-common/src/main/java/org/paritybits/pantheon/common/Percentage.java:102-104 | `BigDecimal.add` is exact: the scale is the larger scale, and at every finer scale the units of the sum are the sum of the units |
| Decimals.Subtract | pantheon-common/src/main/java/org/paritybits/pantheon/common/Percentage.java:112-114 | `BigDecimal.subtract` is exact: the units of the difference are the difference of the units at every common scale |
| Decimals.Negate | pantheon-plutus/src/main/java/org/paritybits/pantheon/plutus/Money.java:177-179 | `BigDecimal.negate` keeps the scale and negates the value |
| Decimals.Multiply | pantheon-common/src/main/java/org/paritybits/pantheon/common/Percentage.java:122-124 | `BigDecimal.multiply` is exact: scales add and the value is the product of the values |
| Decimals.Compare | pantheon-common/src/main/java/org/paritybits/pantheon/common/Percentage.java:167-169 | `compareTo` answers -1, 0 or 1 by the sign of the difference of the values whatever the scales; 0 exactly for equal values |
| Decimals.AddCommutative | pantheon-plutus/src/main/java/org/paritybits/pantheon/plutus/MoneyBag.java:198-204 | the order in which amounts are summed does not change the sum, scale included |
| Decimals.AddAssociative | pantheon-plutus/src/main/java/org/paritybits/pantheon/plutus/MoneyBag.java:198-204 | regrouping a running sum does not change it, scale included |
| Decimals.StripTrailingZeros | pantheon-common/src/main/java/org/paritybits/pantheon/common/NumberRangeRule.java:24-27 | `stripTrailingZeros` keeps the value and sign and leaves no trailing zero in the unscaled value |
| Decimals.StrippedUnique | pantheon-common/src/main/java/org/paritybits/pantheon/common/NumberRangeRule.java:90-98 | two stripped decimals of the same value are identical |
| Decimals.StripCanonical | pantheon-common/src/main/java/org/paritybits/pantheon/common/Percentage.java:69-73 | two decimals strip to the same form exactly when their values are equal, which is why the hash taken from the stripped value agrees with value equality |
| Decimals.SetScale | pantheon-common/src/main/java/org/paritybits/pantheon/common/Percentage.java:145-147 | `setScale(s)` without a rounding mode succeeds exactly when the value is representable at scale s, and then keeps the value |
| Decimals.SetScaleFailsOnlyWhenInexact | pantheon-common/src/main/java/org/paritybits/pantheon/common/Percentage.java:145-147 | when `setScale` fails, no decimal at that scale has the value |
| Decimals.RoundHalfEven | pantheon-common/src/main/java/org/paritybits/pantheon/common/Percentage.java:133-135 | the half-even quotient exists: the nearest integer to n/d, ties going to the even neighbour |
| Decimals.HalfEvenQuotientUnique | pantheon-common/src/main/java/org/paritybits/pantheon/common/Percentage.java:133-135 | that rounded quotient is unique |
| Decimals.HalfEvenQuotientScaled | pantheon-plutus/src/main/java/org/paritybits/pantheon/plutus/Money.java:77-81 | scaling numerator and divisor by the same factor leaves the half-even quotient unchanged |
| Decimals.DivideToScale | pantheon-common/src/main/java/org/paritybits/pantheon/common/Percentage.java:133-135 | `divide(x, scale, ROUND_HALF_EVEN)` fails exactly for a zero divisor; otherwise the result has the requested scale and is the half-even rounding of the exact quotient |
| Decimals.ExactDivision | pantheon-common/src/main/java/org/paritybits/pantheon/common/Percentage.java:133-135 | when the quotient is exact at the requested scale, division returns exactly it |
| Decimals.MovePointLeft | pantheon-common/src/main/java/org/paritybits/pantheon/common/Percentage.java:254 | `movePointLeft(n)` divides the value by 10^n, with scale max(scale + n, 0) |
| Decimals.MultiplySameValue | pantheon-plutus/src/main/java/org/paritybits/pantheon/plutus/Money.java:187-189 | multiplying equal values gives equal values, whatever their scales |
| Decimals.MultiplyCommutative | pantheon-plutus/src/main/java/org/paritybits/pantheon/plutus/Money.java:187-189 | multiplication does not depend on operand order, scale included |
| Decimals.AddSameValue | pantheon-plutus/src/main/java/org/paritybits/pantheon/plutus/Money.java:197-199 | adding equal values gives equal values, whatever their scales |
| Decimals.SubtractSameValue | pantheon-common/src/main/java/org/paritybits/pantheon/common/NumberRangeRule.java:62-65 | subtracting equal values gives equal differences, whatever their scales |
| DecimalText.ParsePlain | pantheon-plutus/src/main/java/org/paritybits/pantheon/plutus/Money.java:97-103 | `new BigDecimal(String)` reads the plain text of any decimal with non-negative scale back as the same unscaled value and scale |
| DecimalText.ParseDecimal | pantheon-plutus/src/main/java/org/paritybits/pantheon/plutus/Money.java:320 | `new BigDecimal(String)` on plain decimal text: a parsed number has a non-negative scale shorter than the text, and a rejected text fails with `NumberFormatException`; DecimalText.ParsePlain states it reads a plain text back to the same number |
| DecimalText.ToText | pantheon-plutus/src/main/java/org/paritybits/pantheon/plutus/Money.java:101 | `BigDecimal.toString`; DecimalText.ParsePlainText states that its plain form reads back to the same number |
| DecimalText.ParsePlainText | pantheon-plutus/src/main/java/org/paritybits/pantheon/plutus/Money.java:97-103 | text that `BigDecimal.toString` writes in plain notation reads back as exactly the same decimal |
| DecimalText.GroupedDigits | pantheon-common/src/main/java/org/paritybits/pantheon/common/Percentage.java:254 | removing the commas from a thousands-grouped digit string gives back the digits |
| DecimalText.WithoutChar | pantheon-common/src/main/java/org/paritybits/pantheon/common/Percentage.java:254 | `replaceAll(",", "")` leaves no comma and never lengthens the text |
| DecimalText.FormatWholeNumber | pantheon-common/src/main/java/org/paritybits/pantheon/common/NumberRangeRule.java:102-104 | `MessageFormat` renders a non-negative whole number as its digits, grouped by thousands |
| DecimalText.FormatNumber | pantheon-common/src/main/java/org/paritybits/pantheon/common/NumberRangeRule.java:102-104 | the default `NumberFormat` text; DecimalText.FormatWholeNumber states it is the digits of a whole number with separators |
| Percentages.Add | pantheon-common/src/main/java/org/paritybits/pantheon/common/Percentage.java:102-104 | the value of the sum is the sum of the values, at the larger scale |
| Percentages.Subtract | pantheon-common/src/main/java/org/paritybits/pantheon/common/Percentage.java:112-114 | the value of the difference is the difference of the values, at the larger scale |
| Percentages.Multiply | pantheon-common/src/main/java/org/paritybits/pantheon/common/Percentage.java:122-124 | the value of the product is the value times the amount, scales adding |
| Percentages.Divide | pantheon-common/src/main/java/org/paritybits/pantheon/common/Percentage.java:133-135 | fails exactly for a zero divisor; otherwise rounds half-even to the larger of the two scales |
| Percentages.Of | pantheon-common/src/main/java/org/paritybits/pantheon/common/Percentage.java:145-147 | `of(a)` is a times the value at a's scale; it fails with "Rounding necessary" when that scale cannot hold the product |
| Percentages.OfFailsOnlyWhenInexact | pantheon-common/src/main/java/org/paritybits/pantheon/common/Percentage.java:145-147 | `of` fails only when no decimal at the amount's scale equals the product |
| Percentages.Change | pantheon-common/src/main/java/org/paritybits/pantheon/common/Percentage.java:157-159 | `change(a)` succeeds exactly when `of(a)` does and is a + a times the value, at a's scale |
| Percentages.CompareTo | pantheon-common/src/main/java/org/paritybits/pantheon/common/Percentage.java:167-169 | orders by value ignoring scale; 0 exactly when the percentages are equal |
| Percentages.CompareToAntisymmetric | pantheon-common/src/main/java/org/paritybits/pantheon/common/Percentage.java:167-169 | swapping the operands negates the comparison |
| Percentages.EqualsEquivalence | pantheon-common/src/main/java/org/paritybits/pantheon/common/Percentage.java:182-189 | `equals` (value comparison) is reflexive, symmetric and transitive |
| Percentages.HashMatchesEquals | pantheon-common/src/main/java/org/paritybits/pantheon/common/Percentage.java:172-174 | the stripped values that feed `hashCode` agree exactly when `equals` holds |
| Percentages.Equals | pantheon-common/src/main/java/org/paritybits/pantheon/common/Percentage.java:182-189 | equality of value whatever the scale; Percentages.EqualsEquivalence states it is an equivalence and Percentages.CompareTo that it is `compareTo == 0` |
| Percentages.SubtractUndoesAdd | pantheon-common/src/main/java/org/paritybits/pantheon/common/Percentage.java:102-114 | subtracting what was added gives an equal percentage |
| Percentages.DivideUndoesMultiply | pantheon-common/src/main/java/org/paritybits/pantheon/common/Percentage.java:122-135 | dividing by the amount just multiplied by gives an equal percentage back |
| Percentages.OfOneHundredAndZero | pantheon-common/src/main/java/org/paritybits/pantheon/common/Percentage.java:36-41 | 100% of an amount is that amount, and a 0% change leaves it unchanged |
| Percentages.RunMaximal | pantheon-common/src/main/java/org/paritybits/pantheon/common/Percentage.java:31 | the pattern's character class is matched greedily: every character of the run belongs to it and the next one does not |
| Percentages.LeadingNumber | pantheon-common/src/main/java/org/paritybits/pantheon/common/Percentage.java:31 | the pattern's match is a prefix of the input |
| Percentages.ParsePercentage | pantheon-common/src/main/java/org/paritybits/pantheon/common/Percentage.java:249-259 | input with no leading number fails with IllegalArgument "[s] not in <value>% format."; a result always has scale at least 2 |
| Percentages.ParsePlainPercent | pantheon-common/src/main/java/org/paritybits/pantheon/common/Percentage.java:249-259 | plain decimal text followed by `%` parses to that value divided by one hundred, two places more scale |
| Percentages.ParseGroupedPercent | pantheon-common/src/main/java/org/paritybits/pantheon/common/Percentage.java:249-259 | a thousands-grouped whole number followed by `%` parses as that number of hundredths |
| Percentages.PercentTextRoundTrip | pantheon-common/src/main/java/org/paritybits/pantheon/common/Percentage.java:75-80 | the text form reads back (`valueOf`) as an equal percentage |
| Percentages.PercentText | pantheon-common/src/main/java/org/paritybits/pantheon/common/Percentage.java:75-80 | the US percent text; Percentages.PercentTextRoundTrip states that `valueOf` reads it back to an equal percentage |
| Percentages.PercentageChange | pantheon-common/src/main/java/org/paritybits/pantheon/common/Percentage.java:268-271 | fails exactly when `from` is zero; otherwise is (to − from) / from rounded half-even at scale max(2, both scales) |
| Percentages.PercentageChangeRecoversRate | pantheon-common/src/main/java/org/paritybits/pantheon/common/Percentage.java:268-271 | the change from x to `p.change(x)` is p again, for a rate no finer than the result's scale |
| Percentages.ZeroPercentParses | pantheon-common/src/main/java/org/paritybits/pantheon/common/Percentage.java:36 | "0%" reads as the zero percentage |
| Percentages.OneHundredPercentParses | pantheon-common/src/main/java/org/paritybits/pantheon/common/Percentage.java:41 | "100%" reads as one hundred percent |
| Percentages.FivePercentParses | pantheon-common/src/test/java/org/paritybits/pantheon/common/PercentageTest.java:75-78 | "5%" reads as .05 |
| Percentages.GroupedPercentParses | pantheon-common/src/test/java/org/paritybits/pantheon/common/PercentageTest.java:79-86 | "1,000%" reads as 10 |
| Percentages.ParseRejectsExample | pantheon-common/src/test/java/org/paritybits/pantheon/common/PercentageTest.java:108-113 | "what the hell is this." is rejected with the documented message |
| Percentages.ArithmeticExamples | pantheon-common/src/test/java/org/paritybits/pantheon/common/PercentageTest.java:17-23 | 20% + 5% = 25%, 20% - 5% = 15%, 20% x 5 = 100% |
| Percentages.DivideExamples | pantheon-common/src/test/java/org/paritybits/pantheon/common/PercentageTest.java:24-26 | 20%/5 = 4%, 10%/3 = 3%, 10%/3.0000 = 3.33% |
| Percentages.OfExamples | pantheon-common/src/test/java/org/paritybits/pantheon/common/PercentageTest.java:30-42 | 10% of 100.0000 is 10.0000, -10% of 100 is -10, the changes are 110.0000 and 90; 10% of 5 at scale 0 fails with "Rounding necessary" |
| Percentages.PercentageChangeExactExamples | pantheon-common/src/test/java/org/paritybits/pantheon/common/PercentageTest.java:141-146 | 100 to 110 is 10%, 100 to 90 is -10% |
| Percentages.PercentageChangeRoundedExample | pantheon-common/src/test/java/org/paritybits/pantheon/common/PercentageTest.java:147-151 | 90 to 120 is 33% at two places |
| Percentages.PercentageChangeFinerExample | pantheon-common/src/test/java/org/paritybits/pantheon/common/PercentageTest.java:147-151 | 90 to 120.0000 is 33.33% |
| Percentages.PercentTextExample | pantheon-common/src/test/java/org/paritybits/pantheon/common/PercentageTest.java:104-106 | "10.00000%" prints as "10%" |
| Monies.CurrencyInstance | pantheon-plutus/src/main/java/org/paritybits/pantheon/plutus/Money.java:354-356 | a currency code is accepted exactly when it is known; otherwise IllegalArgument |
| Monies.ZeroOf | pantheon-plutus/src/main/java/org/paritybits/pantheon/plutus/Money.java:344-346 | `zero(c)` is a zero amount in c |
| Monies.ZeroOfCode | pantheon-plutus/src/main/java/org/paritybits/pantheon/plutus/Money.java:354-356 | `zero(code)` succeeds exactly for a known code and gives a zero amount in it |
| Monies.Eval | pantheon-plutus/src/main/java/org/paritybits/pantheon/plutus/Money.java:61-84 | a money operation fails only for division by zero |
| Monies.WithAmount | pantheon-plutus/src/main/java/org/paritybits/pantheon/plutus/Money.java:222-230 | an operation with a plain amount keeps the currency and fails only for division by zero |
| Monies.WithMoney | pantheon-plutus/src/main/java/org/paritybits/pantheon/plutus/Money.java:222-230 | an operation between monies fails with CurrencyMismatch(this, other) exactly when the currencies differ |
| Monies.Add | pantheon-plutus/src/main/java/org/paritybits/pantheon/plutus/Money.java:131-133 | same currency: the amounts add exactly and the currency is kept; different currencies: CurrencyMismatch carrying both monies |
| Monies.Subtract | pantheon-plutus/src/main/java/org/paritybits/pantheon/plutus/Money.java:143-145 | same currency: the amounts subtract exactly; different currencies: CurrencyMismatch carrying both monies |
| Monies.Multiply | pantheon-plutus/src/main/java/org/paritybits/pantheon/plutus/Money.java:155-157 | the amount is multiplied exactly and the currency kept |
| Monies.Divide | pantheon-plutus/src/main/java/org/paritybits/pantheon/plutus/Money.java:168-170 | fails with ArithmeticException exactly for a zero divisor; otherwise half-even at the money's own scale |
| Monies.Negate | pantheon-plutus/src/main/java/org/paritybits/pantheon/plutus/Money.java:177-179 | same currency and scale, negated value |
| Monies.PercentageOf | pantheon-plutus/src/main/java/org/paritybits/pantheon/plutus/Money.java:187-189 | `percentage(p)` is the amount times p's value, same currency |
| Monies.Compound | pantheon-plutus/src/main/java/org/paritybits/pantheon/plutus/Money.java:197-199 | `compound(p)` is the amount plus the amount times p's value, same currency |
| Monies.ValueInCurrency | pantheon-plutus/src/main/java/org/paritybits/pantheon/plutus/Money.java:211-220 | same currency gives the money itself; otherwise the amount times the rate, in the target currency |
| Monies.CompareTo | pantheon-plutus/src/main/java/org/paritybits/pantheon/plutus/Money.java:239-244 | fails with CurrencyMismatch exactly for different currencies; otherwise the sign of the difference, 0 exactly for equal values |
| Monies.CompareToAntisymmetric | pantheon-plutus/src/main/java/org/paritybits/pantheon/plutus/Money.java:239-244 | swapping the operands negates the comparison and keeps its failure |
| Monies.SubtractUndoesAdd | pantheon-plutus/src/main/java/org/paritybits/pantheon/plutus/Money.java:131-145 | subtracting what was added gives back the same value |
| Monies.NegateInvolution | pantheon-plutus/src/main/java/org/paritybits/pantheon/plutus/Money.java:177-179 | negating twice gives the original money |
| Monies.DivideUndoesMultiply | pantheon-plutus/src/main/java/org/paritybits/pantheon/plutus/Money.java:155-170 | dividing by the factor just multiplied by gives back the same value |
| Monies.PercentageMatchesOf | pantheon-plutus/src/main/java/org/paritybits/pantheon/plutus/Money.java:187-189 | `percentage(p)` has the value of `p.of(amount)` whenever that is defined |
| Monies.CompoundMatchesChange | pantheon-plutus/src/main/java/org/paritybits/pantheon/plutus/Money.java:197-199 | `compound(p)` has the value of `p.change(amount)` whenever that is defined |
| Monies.EqualsMisjudgesZero | pantheon-plutus/src/main/java/org/paritybits/pantheon/plutus/Money.java:260-270 | as written, 0 USD equals 5 USD but 5 USD does not equal 0 USD, and their hash inputs differ |
| Monies.EqualsAgreeOffZero | pantheon-plutus/src/main/java/org/paritybits/pantheon/plutus/Money.java:260-270 | for a non-zero receiver the written and the intended equality agree |
| Monies.EqualsIntendedEquivalence | pantheon-plutus/src/main/java/org/paritybits/pantheon/plutus/Money.java:260-270 | the intended equality is reflexive, symmetric and transitive |
| Monies.HashMatchesEqualsIntended | pantheon-plutus/src/main/java/org/paritybits/pantheon/plutus/Money.java:272-274 | intended-equal monies have equal hash inputs |
| Monies.EqualsExamples | pantheon-plutus/src/test/java/org/paritybits/pantheon/plutus/MoneyTest.java:215-227 | 0 USD equals 0 JPY, 10 USD differs from 10 JPY, 10 USD equals 10.0 USD |
| Monies.Equals | pantheon-plutus/src/main/java/org/paritybits/pantheon/plutus/Money.java:260-270 | `equals` as written; its meaning is stated by Monies.EqualsMisjudgesZero (a zero receiver equals any money) and Monies.EqualsAgreeOffZero (off zero it is same value and same currency) |
| Monies.MismatchMessageIntended | pantheon-plutus/src/main/java/org/paritybits/pantheon/plutus/CurrencyMismatchException.java:20-27 | the intended message holds both monies' text forms at their places |
| Monies.MismatchMessageIgnoresMonies | pantheon-plutus/src/main/java/org/paritybits/pantheon/plutus/CurrencyMismatchException.java:20-27 | as written, the message is the same literal text for every pair of monies |
| Monies.MismatchMessage | pantheon-plutus/src/main/java/org/paritybits/pantheon/plutus/CurrencyMismatchException.java:20-27 | the message as the quoted template yields it; Monies.MismatchMessageIgnoresMonies states that it never contains the monies |
| Monies.CompareCodes | pantheon-plutus/src/main/java/org/paritybits/pantheon/plutus/Money.java:42-46 | currency codes compare as 0 exactly when equal |
| Monies.ByCurrencyOrder | pantheon-plutus/src/main/java/org/paritybits/pantheon/plutus/Money.java:42-46 | `BY_CURRENCY_ORDER` answers 0 exactly for the same currency |
| Monies.CompareCodesAntisymmetric | pantheon-plutus/src/main/java/org/paritybits/pantheon/plutus/Money.java:42-46 | swapping the codes negates the comparison |
| Monies.CompareCodesTransitive | pantheon-plutus/src/main/java/org/paritybits/pantheon/plutus/Money.java:42-46 | the code order is transitive |
| Monies.Find | pantheon-plutus/src/main/java/org/paritybits/pantheon/plutus/Money.java:314-324 | `Matcher.find` returns a position where the pattern matches |
| Monies.FindLeftmost | pantheon-plutus/src/main/java/org/paritybits/pantheon/plutus/Money.java:314-324 | `find` returns the leftmost match, and reports none only when no position matches |
| Monies.ValueOf | pantheon-plutus/src/main/java/org/paritybits/pantheon/plutus/Money.java:314-324 | no match fails with IllegalArgument; a result has a whole non-negative amount in a known currency |
| Monies.ValueOfWholeRoundTrip | pantheon-plutus/src/main/java/org/paritybits/pantheon/plutus/Money.java:283-285 | a whole, non-negative money reads back from its text |
| Monies.ValueOfDropsSign | pantheon-plutus/src/main/java/org/paritybits/pantheon/plutus/Money.java:314-324 | as written, "-n CODE" reads as +n |
| Monies.ValueOfDropsWholePart | pantheon-plutus/src/main/java/org/paritybits/pantheon/plutus/Money.java:314-324 | as written, "w.f CODE" reads as f units: the match starts after the point |
| Monies.ValueOfNeedsDigits | pantheon-plutus/src/main/java/org/paritybits/pantheon/plutus/Money.java:314-324 | text without digits is rejected with IllegalArgument |
| Monies.ParseMoney | pantheon-plutus/src/main/java/org/paritybits/pantheon/plutus/Money.java:314-324 | intended reading: the text is a decimal, a space and a known code, and the amount is that decimal |
| Monies.ParseMoneyRoundTrip | pantheon-plutus/src/main/java/org/paritybits/pantheon/plutus/Money.java:283-285 | intended reading: every money whose amount prints in plain notation reads back from its text as the same money |
| Monies.ParseMoneyOf | pantheon-plutus/src/main/java/org/paritybits/pantheon/plutus/Money.java:314-324 | intended reading: a decimal, a space and a known code read as exactly that money |
| Monies.ValueOfLosesFraction | pantheon-plutus/src/main/java/org/paritybits/pantheon/plutus/Money.java:314-324 | "10.50 USD", the text of 10.50 USD, reads as 50 USD as written and as 10.50 USD under the intended reading |
| Monies.ValueOfExample | pantheon-plutus/src/test/java/org/paritybits/pantheon/plutus/MoneyTest.java:45-66 | "10 USD" reads as 10 USD |
| Monies.ValueOfRejectsExample | pantheon-plutus/src/test/java/org/paritybits/pantheon/plutus/MoneyTest.java:45-66 | "USD" is rejected |
| Monies.TextExamples | pantheon-plutus/src/test/java/org/paritybits/pantheon/plutus/MoneyTest.java:184-191 | 10.000 USD prints as "10.000 USD" and 10 JPY as "10 JPY" |
| Monies.MoneyText | pantheon-plutus/src/main/java/org/paritybits/pantheon/plutus/Money.java:283-285 | `toString`, the amount text, a space and the code; Monies.ParseMoneyRoundTrip states that `valueOf` reads it back to the same money |
| Monies.ArithmeticExamples | pantheon-plutus/src/test/java/org/paritybits/pantheon/plutus/MoneyTest.java:122-163 | 2.525 x 7.575 USD, 23% of 250 USD and 100 USD compounded at 10% |
| Monies.DivideExample | pantheon-plutus/src/test/java/org/paritybits/pantheon/plutus/MoneyTest.java:132-138 | 100.75 USD / 5.05000001 is 19.95 USD at the receiver's scale |
| Monies.ValueInCurrencyExamples | pantheon-plutus/src/test/java/org/paritybits/pantheon/plutus/MoneyTest.java:167-180 | conversion at a rate, to the same currency, and of zero |
| MoneyBags.FoldPermutation | pantheon-plutus/src/main/java/org/paritybits/pantheon/plutus/MoneyBag.java:82-89 | a fold whose steps commute gives the same result over any permutation of its inputs, so HashMap iteration order cannot matter |
| MoneyBags.EnumerationsPermute | pantheon-plutus/src/main/java/org/paritybits/pantheon/plutus/MoneyBag.java:82-89 | two iteration orders of the same key set are permutations of each other |
| MoneyBags.AddFunction | pantheon-plutus/src/main/java/org/paritybits/pantheon/plutus/MoneyBag.java:36-41 | the bag's put function keeps the stored total's currency |
| MoneyBags.AddFunctionIsMoneyAdd | pantheon-plutus/src/main/java/org/paritybits/pantheon/plutus/MoneyBag.java:36-41 | the put function is `Money.add`, which cannot fail on totals stored under their own currency |
| MoneyBags.AddMoney | pantheon-plutus/src/main/java/org/paritybits/pantheon/plutus/MoneyBag.java:68-74 | `add(m)` adds m's currency key, stores m when the currency was absent, and leaves every other total alone |
| MoneyBags.AddMoneyAddsToTotal | pantheon-plutus/src/main/java/org/paritybits/pantheon/plutus/MoneyBag.java:68-74 | for a present currency the new total is old total + m |
| MoneyBags.AddMoneyIsPut | pantheon-plutus/src/main/java/org/paritybits/pantheon/plutus/MoneyBag.java:68-74 | `add(m)` is a `FunctionMap.put` with the adding function |
| MoneyBags.AddMoneyCommutes | pantheon-plutus/src/main/java/org/paritybits/pantheon/plutus/MoneyBag.java:68-74 | adding two monies in either order gives the same bag |
| MoneyBags.AddBag | pantheon-plutus/src/main/java/org/paritybits/pantheon/plutus/MoneyBag.java:82-89 | `add(bag)` has both key sets; each of the other bag's totals is merged into the receiver's, the rest are kept |
| MoneyBags.AddBagOrderIndependent | pantheon-plutus/src/main/java/org/paritybits/pantheon/plutus/MoneyBag.java:82-89 | the result does not depend on the other bag's iteration order |
| MoneyBags.EmptyBagAddsNothing | pantheon-plutus/src/main/java/org/paritybits/pantheon/plutus/MoneyBag.java:44 | adding a bag to the empty bag gives that bag |
| MoneyBags.SubtractMoney | pantheon-plutus/src/main/java/org/paritybits/pantheon/plutus/MoneyBag.java:97-99 | `subtract(m)` is `add(m.negate())` |
| MoneyBags.SubtractUndoesAdd | pantheon-plutus/src/main/java/org/paritybits/pantheon/plutus/MoneyBag.java:97-99 | adding then subtracting m leaves every total's value unchanged, with a zero total for a new currency |
| MoneyBags.MapTotals | pantheon-plutus/src/main/java/org/paritybits/pantheon/plutus/MoneyBag.java:180-187 | `operateOnTotals` applies the operation to every total and keeps the currency keys |
| MoneyBags.Negate | pantheon-plutus/src/main/java/org/paritybits/pantheon/plutus/MoneyBag.java:144-150 | negation keeps the currencies, and each new total added to the old one is zero |
| MoneyBags.NegateInvolution | pantheon-plutus/src/main/java/org/paritybits/pantheon/plutus/MoneyBag.java:144-150 | negating a bag twice gives the bag back |
| MoneyBags.SubtractBag | pantheon-plutus/src/main/java/org/paritybits/pantheon/plutus/MoneyBag.java:107-109 | `subtract(bag)` is `add(bag.negate())` |
| MoneyBags.SubtractSelfIsZero | pantheon-plutus/src/main/java/org/paritybits/pantheon/plutus/MoneyBag.java:107-109 | a bag minus itself has the same currencies, every total zero |
| MoneyBags.Multiply | pantheon-plutus/src/main/java/org/paritybits/pantheon/plutus/MoneyBag.java:117-123 | multiplication keeps the currencies, and each total is the exact product: unscaled values multiply and scales add |
| MoneyBags.PercentageOf | pantheon-plutus/src/main/java/org/paritybits/pantheon/plutus/MoneyBag.java:158-164 | taking a percentage keeps the currencies, and each total has the value of `p.of(total)` wherever that is defined |
| MoneyBags.Compound | pantheon-plutus/src/main/java/org/paritybits/pantheon/plutus/MoneyBag.java:172-178 | compounding keeps the currencies, and each total has the value of `p.change(total)` wherever that is defined |
| MoneyBags.CompoundIsAddingPercentage | pantheon-plutus/src/main/java/org/paritybits/pantheon/plutus/MoneyBag.java:158-178 | compounding a bag is adding its percentage bag to it |
| MoneyBags.Divide | pantheon-plutus/src/main/java/org/paritybits/pantheon/plutus/MoneyBag.java:131-137 | fails, with the first total's ArithmeticException, exactly when dividing a non-empty bag by zero; otherwise each total is `Money.divide` of the old one |
| MoneyBags.ValueInCurrency | pantheon-plutus/src/main/java/org/paritybits/pantheon/plutus/MoneyBag.java:198-204 | the value is in the target currency, and the empty bag is exactly zero in it |
| MoneyBags.ValueInCurrencyOrderIndependent | pantheon-plutus/src/main/java/org/paritybits/pantheon/plutus/MoneyBag.java:198-204 | the value does not depend on the iteration order of the totals |
| MoneyBags.ValueInCurrencyAdditive | pantheon-plutus/src/main/java/org/paritybits/pantheon/plutus/MoneyBag.java:198-204 | adding a money in a new currency adds exactly its converted amount to the bag's value |
| MoneyBags.ValueOfSingleTotal | pantheon-plutus/src/main/java/org/paritybits/pantheon/plutus/MoneyBag.java:198-204 | a bag whose only total is in the target currency is worth that total |
| MoneyBags.Containing | pantheon-plutus/src/main/java/org/paritybits/pantheon/plutus/MoneyBag.java:281-288 | `containing(ms)` has exactly the currencies of ms |
| MoneyBags.ContainingTotals | pantheon-plutus/src/main/java/org/paritybits/pantheon/plutus/MoneyBag.java:281-288 | adding monies one by one gives the union of the starting and the added currencies |
| MoneyBags.ContainingOrderIndependent | pantheon-plutus/src/main/java/org/paritybits/pantheon/plutus/MoneyBag.java:281-288 | the order of the monies given does not change the bag |
| MoneyBags.ContainingRepeat | pantheon-plutus/src/test/java/org/paritybits/pantheon/plutus/MoneyBagTest.java:206-218 | a repeated money is added again to its currency's total |
| MoneyBags.EqualsAgreeOffZero | pantheon-plutus/src/main/java/org/paritybits/pantheon/plutus/MoneyBag.java:231-238 | when no total is zero, the written and the intended bag equality agree |
| MoneyBags.EqualsMisjudgesZeroTotal | pantheon-plutus/src/main/java/org/paritybits/pantheon/plutus/MoneyBag.java:231-238 | as written, {USD: 0} equals {USD: 5} but not the reverse; intended equality says no both ways |
| MoneyBags.EqualsIntendedEquivalence | pantheon-plutus/src/main/java/org/paritybits/pantheon/plutus/MoneyBag.java:231-238 | the intended bag equality is reflexive, symmetric and transitive |
| MoneyBags.Equals | pantheon-plutus/src/main/java/org/paritybits/pantheon/plutus/MoneyBag.java:231-238 | `equals` as written, totals compared by `Money.equals`; MoneyBags.EqualsMisjudgesZeroTotal and MoneyBags.EqualsAgreeOffZero state where it departs from and agrees with same-valued totals |
| MoneyBags.SameKeysBySize | pantheon-plutus/src/main/java/org/paritybits/pantheon/plutus/MoneyBag.java:231-238 | equal sizes plus one inclusion are the same as equal key sets, as `AbstractMap.equals` checks them |
| MoneyBags.Sort | pantheon-plutus/src/main/java/org/paritybits/pantheon/plutus/MoneyBag.java:212-223 | sorting is a permutation of the totals' currencies |
| MoneyBags.SortAscending | pantheon-plutus/src/main/java/org/paritybits/pantheon/plutus/MoneyBag.java:212-223 | sorting distinct currencies lists them in ascending code order |
| MoneyBags.AscendingUnique | pantheon-plutus/src/main/java/org/paritybits/pantheon/plutus/MoneyBag.java:212-223 | only one ascending list holds a given set of currencies |
| MoneyBags.BagText | pantheon-plutus/src/main/java/org/paritybits/pantheon/plutus/MoneyBag.java:212-223 | the text is bracketed, and the empty bag prints "[]" |
| MoneyBags.BagTextOrderIndependent | pantheon-plutus/src/main/java/org/paritybits/pantheon/plutus/MoneyBag.java:212-223 | the text does not depend on the totals' iteration order |
| MoneyBags.BagTextLists | pantheon-plutus/src/main/java/org/paritybits/pantheon/plutus/MoneyBag.java:212-223 | the text lists the totals in ascending currency-code order, comma-separated, inside brackets |
| MoneyBags.BagTextByAscending | pantheon-plutus/src/main/java/org/paritybits/pantheon/plutus/MoneyBag.java:212-223 | any ascending listing of the currencies gives the text |
| MoneyBags.ValueExample | pantheon-plutus/src/test/java/org/paritybits/pantheon/plutus/MoneyBagTest.java:84-95 | 10 USD + 10 GBP - 50 JPY at the test's rates is worth 25 USD |
| MoneyBags.TextExample | pantheon-plutus/src/test/java/org/paritybits/pantheon/plutus/MoneyBagTest.java:221-226 | the bag of 10 USD, 20 JPY and 15 EUR prints as "[15 EUR, 20 JPY, 10 USD]" |
| FunctionMaps.SimpleReplace | pantheon-common/src/main/java/org/paritybits/pantheon/common/FunctionMap.java:70-74 | the default put function returns the new value |
| FunctionMaps.Create | pantheon-common/src/main/java/org/paritybits/pantheon/common/FunctionMap.java:108-112 | the map with a wrapped map and a default function; FunctionMaps.Put and FunctionMaps.SetKeyFunction state what later calls do to it |
| FunctionMaps.Get | pantheon-common/src/main/java/org/paritybits/pantheon/common/FunctionMap.java:132 | the stored value of a key; FunctionMaps.Put states how a put changes it |
| FunctionMaps.Put | pantheon-common/src/main/java/org/paritybits/pantheon/common/FunctionMap.java:129-137 | `put` returns the old value; an absent key gets the value, a present one gets its key function (or the default) applied to old and new; no other key changes |
| FunctionMaps.SetKeyFunction | pantheon-common/src/main/java/org/paritybits/pantheon/common/FunctionMap.java:153-155 | the key's function becomes f; every other key keeps its function and the entries are untouched |
| FunctionMaps.PutWithSimpleReplace | pantheon-common/src/main/java/org/paritybits/pantheon/common/FunctionMap.java:79-81 | with plain replacement, `put` is ordinary map update |
| FunctionMaps.PutsCommute | pantheon-common/src/main/java/org/paritybits/pantheon/common/FunctionMap.java:129-137 | puts to different keys commute |
| FunctionMaps.SummingExample | pantheon-common/src/test/java/org/paritybits/pantheon/common/FunctionMapTest.java:41-73 | a summing default and a multiplying key function give 45, 1500 and 20 as in the test |
| CommonUtil.BetweenByKey | pantheon-common/src/main/java/org/paritybits/pantheon/common/CommonUtil.java:202-213 | non-strict `between` is true exactly when the item lies between the bounds, inclusive, in either order |
| CommonUtil.Between | pantheon-common/src/main/java/org/paritybits/pantheon/common/CommonUtil.java:202-213 | `between` under a comparator; CommonUtil.BetweenByKey and CommonUtil.StrictBetweenByKey state it is interval membership under a key order |
| CommonUtil.StrictBetweenByKey | pantheon-common/src/main/java/org/paritybits/pantheon/common/CommonUtil.java:202-213 | strict `between` excludes both bounds |
| CommonUtil.BetweenSymmetric | pantheon-common/src/main/java/org/paritybits/pantheon/common/CommonUtil.java:202-213 | swapping the bounds does not change the answer |
| CommonUtil.BetweenLastDigitExample | pantheon-common/src/test/java/org/paritybits/pantheon/common/CommonUtilTest.java:167-181 | under last-digit order 16 is not between 0 and 25, 34 is, in either bound order |
| CommonUtil.CountWherePositive | pantheon-common/src/main/java/org/paritybits/pantheon/common/CommonUtil.java:257-259 | some item satisfies the predicate exactly when the count is positive |
| CommonUtil.InBetween | pantheon-common/src/main/java/org/paritybits/pantheon/common/CommonUtil.java:320-337 | IllegalArgument exactly for a negative bound or atMost < atLeast; otherwise whether the count of satisfying items is in [atLeast, atMost], the early exit notwithstanding |
| CommonUtil.Any | pantheon-common/src/main/java/org/paritybits/pantheon/common/CommonUtil.java:257-259 | true exactly when some item satisfies the predicate |
| CommonUtil.None | pantheon-common/src/main/java/org/paritybits/pantheon/common/CommonUtil.java:271-273 | true exactly when no item satisfies the predicate |
| CommonUtil.AtLeast | pantheon-common/src/main/java/org/paritybits/pantheon/common/CommonUtil.java:287-289 | fails for a negative n; otherwise whether at least n items satisfy the predicate |
| CommonUtil.AtMost | pantheon-common/src/main/java/org/paritybits/pantheon/common/CommonUtil.java:303-305 | fails for a negative n; otherwise whether at most n items satisfy the predicate |
| CommonUtil.All | pantheon-common/src/main/java/org/paritybits/pantheon/common/CommonUtil.java:242-245 | true exactly when every item satisfies the predicate, so true on no items |
| CommonUtil.Contains | pantheon-common/src/main/java/org/paritybits/pantheon/common/CommonUtil.java:226-230 | true exactly when some iterated item equals the one sought |
| CommonUtil.GetValue | pantheon-common/src/main/java/org/paritybits/pantheon/common/CommonUtil.java:35-44 | a null key throws NullPointerException; a present key gives its value, an absent one the default |
| CommonUtil.GetValueAfterUpdate | pantheon-common/src/main/java/org/paritybits/pantheon/common/CommonUtil.java:35-44 | after storing v under k, k reads v and other keys read as before |
| CommonUtil.Reverse | pantheon-common/src/main/java/org/paritybits/pantheon/common/CommonUtil.java:117-123 | the keys of the result are the values of the map, each mapping back to a key that holds it; for an injective map it is the inverse |
| Predicates.Tautology | pantheon-common/src/main/java/org/paritybits/pantheon/common/Predicates.java:19-21 | true on every input |
| Predicates.Contradiction | pantheon-common/src/main/java/org/paritybits/pantheon/common/Predicates.java:30-32 | false on every input |
| Predicates.Negate | pantheon-common/src/main/java/org/paritybits/pantheon/common/Predicates.java:41-43 | the negated predicate answers the opposite on every input |
| Predicates.And | pantheon-common/src/main/java/org/paritybits/pantheon/common/Predicates.java:55-71 | true exactly when every predicate is true, hence true on an empty list |
| Predicates.Or | pantheon-common/src/main/java/org/paritybits/pantheon/common/Predicates.java:83-99 | true exactly when the list is empty or some predicate is true |
| Predicates.ScanMeaning | pantheon-common/src/main/java/org/paritybits/pantheon/common/Predicates.java:101-117 | the grouped scan returns `returnWhen` exactly when some predicate gives it |
| Predicates.Grouped | pantheon-common/src/main/java/org/paritybits/pantheon/common/Predicates.java:101-118 | `groupedPredicate`; Predicates.ScanMeaning states it returns `returnWhen` exactly when some predicate yields it |
| Predicates.ScanStopsAtFirstDecisive | pantheon-common/src/main/java/org/paritybits/pantheon/common/Predicates.java:101-117 | the scan evaluates no predicate after the first that gives `returnWhen` |
| Predicates.DeMorgan | pantheon-common/src/main/java/org/paritybits/pantheon/common/Predicates.java:55-117 | the negation of `or` is the `and` of the negations on a non-empty list, but not on the empty list, where both `and` and `or` are true |
| Ranges.IteratorStart | pantheon-common/src/main/java/org/paritybits/pantheon/common/Range.java:148-183 | a fresh iterator has a next item, `from`, no previous item, next index 0 and previous index -1 |
| Ranges.Iterator | pantheon-common/src/main/java/org/paritybits/pantheon/common/Range.java:148-150 | a fresh iterator; Ranges.IteratorStart states it yields `from` first, has no previous item and sits at index 0 |
| Ranges.HasNext | pantheon-common/src/main/java/org/paritybits/pantheon/common/Range.java:170-172 | `hasNext`; Ranges.HasNextAhead states it holds exactly while the item has not passed `to` in the range direction |
| Ranges.Next | pantheon-common/src/main/java/org/paritybits/pantheon/common/Range.java:174-179 | `next`; Ranges.ItemCursor states that k calls yield the k-th item, and Ranges.NextThenPrevious that `previous` undoes it |
| Ranges.HasPrevious | pantheon-common/src/main/java/org/paritybits/pantheon/common/Range.java:155-157 | `hasPrevious`; Ranges.HasPreviousAt states it holds exactly after a positive number of `next` calls, and Ranges.WalkBack that walking back replays the items in reverse |
| Ranges.HasPreviousAt | pantheon-common/src/main/java/org/paritybits/pantheon/common/Range.java:155-157 | after k calls of `next` on a range, `hasPrevious()` holds exactly when k > 0 |
| Ranges.PreviousAt | pantheon-common/src/main/java/org/paritybits/pantheon/common/Range.java:159-163 | after k > 0 calls of `next`, `previous()` returns item k - 1, the last one `next` returned, and steps the cursor back onto it |
| Ranges.RetreatFrom | pantheon-common/src/main/java/org/paritybits/pantheon/common/Range.java:159-167 | m calls of `previous()` after n >= m calls of `next` return items n - 1 down to n - m and leave the cursor at index n - m |
| Ranges.WalkBack | pantheon-common/src/main/java/org/paritybits/pantheon/common/Range.java:155-167 | `while (hasPrevious()) previous()` after n calls of `next` runs exactly n times, returns the first n items in reverse order, and ends on a fresh iterator with `previousIndex()` -1 |
| Ranges.Previous | pantheon-common/src/main/java/org/paritybits/pantheon/common/Range.java:159-163 | `previous`; Ranges.PreviousThenNext states that `next` undoes it |
| Ranges.NextIndex | pantheon-common/src/main/java/org/paritybits/pantheon/common/Range.java:181-183 | `nextIndex`; Ranges.ItemCursor states it counts the calls of `next` |
| Ranges.PreviousIndex | pantheon-common/src/main/java/org/paritybits/pantheon/common/Range.java:165-167 | `previousIndex`, one less than `nextIndex`; Ranges.IteratorStart states it is -1 on a fresh iterator |
| Ranges.ItemCursor | pantheon-common/src/main/java/org/paritybits/pantheon/common/Range.java:174-179 | after k calls of `next` the cursor holds item k at index k |
| Ranges.NextThenPrevious | pantheon-common/src/main/java/org/paritybits/pantheon/common/Range.java:159-179 | `previous` right after `next` returns the same item and restores the cursor |
| Ranges.PreviousThenNext | pantheon-common/src/main/java/org/paritybits/pantheon/common/Range.java:159-179 | `next` right after `previous` returns the same item and restores the cursor |
| Ranges.AheadFacts | pantheon-common/src/main/java/org/paritybits/pantheon/common/Range.java:52-98 | the direction's order is reflexive, antisymmetric and transitive, and each step moves strictly forward |
| Ranges.HasNextAhead | pantheon-common/src/main/java/org/paritybits/pantheon/common/Range.java:170-172 | `hasNext` holds exactly while the item has not passed `to` in the direction |
| Ranges.ItemsAscend | pantheon-common/src/main/java/org/paritybits/pantheon/common/Range.java:174-179 | iterated items strictly advance in the range's direction |
| Ranges.Elements | pantheon-common/src/main/java/org/paritybits/pantheon/common/Range.java:244-246 | the listed items are items 0, 1, ... in iteration order, and iteration stops right after them |
| Ranges.ElementsUnique | pantheon-common/src/main/java/org/paritybits/pantheon/common/Range.java:244-246 | only one list has that property |
| Ranges.AsList | pantheon-common/src/main/java/org/paritybits/pantheon/common/Range.java:260-265 | `fillCollection` collects exactly the iterated items in order |
| Ranges.WithinAhead | pantheon-common/src/main/java/org/paritybits/pantheon/common/Range.java:211-213 | `hasWithin` is the inclusive bounds test in either direction |
| Ranges.ElementsWithin | pantheon-common/src/main/java/org/paritybits/pantheon/common/Range.java:211-225 | every iterated item is within the range |
| Ranges.HasWithin | pantheon-common/src/main/java/org/paritybits/pantheon/common/Range.java:211-213 | `hasWithin`; Ranges.WithinAhead states it is membership between `from` and `to` in the range direction, and Ranges.ElementsWithin that every iterated item satisfies it |
| Ranges.OutsideNotWithin | pantheon-common/src/main/java/org/paritybits/pantheon/common/Range.java:211-213 | the step before `from` and the step after `to` are not within |
| Ranges.Contains | pantheon-common/src/main/java/org/paritybits/pantheon/common/Range.java:223-225 | `contains` is true exactly for an iterated item |
| Ranges.ContainsWithin | pantheon-common/src/main/java/org/paritybits/pantheon/common/Range.java:211-225 | a contained item is within |
| Ranges.Reverse | pantheon-common/src/main/java/org/paritybits/pantheon/common/Range.java:232-234 | `reverse` swaps `from` and `to` and keeps the rule |
| Ranges.ReverseTwice | pantheon-common/src/main/java/org/paritybits/pantheon/common/Range.java:232-234 | reversing twice gives the original range |
| Ranges.RangeEquals | pantheon-common/src/main/java/org/paritybits/pantheon/common/Range.java:285-294 | `equals` on ranges; NumberRangeRules.CreateRangeEquals states when two number ranges are equal |
| Ranges.ReverseElements | pantheon-common/src/main/java/org/paritybits/pantheon/common/Range.java:232-234 | when iteration reaches `to` exactly, the reversed range yields the same items in reverse order |
| Ranges.JavaAbs | pantheon-common/src/main/java/org/paritybits/pantheon/common/Range.java:378 | `Math.abs` is the absolute value except on `Integer.MIN_VALUE`, where it stays negative |
| Ranges.StepsFrom | pantheon-common/src/main/java/org/paritybits/pantheon/common/Range.java:374-382 | a null start or rule throws NullPointerException; otherwise `steps` applications of `next` (or `prior` for negative steps), and none for `Integer.MIN_VALUE` |
| Ranges.StepsSucc | pantheon-common/src/main/java/org/paritybits/pantheon/common/Range.java:374-382 | one more step is one more `next`, one fewer is one `prior` |
| Ranges.StepsCompose | pantheon-common/src/main/java/org/paritybits/pantheon/common/Range.java:374-382 | stepping a then b is stepping a + b |
| Ranges.ItemSteps | pantheon-common/src/main/java/org/paritybits/pantheon/common/Range.java:374-382 | item k of a range is `from` stepped k times in its direction |
| RangeExamples.OneToTen | pantheon-common/src/test/java/org/paritybits/pantheon/common/RangeTest.java:112-131 | 1 to 10 by one yields 1..10 |
| RangeExamples.TenToOne | pantheon-common/src/test/java/org/paritybits/pantheon/common/RangeTest.java:215-219 | 10 to 1 yields 10..1 and is the reverse of 1 to 10 |
| RangeExamples.ByTwoWithinButNotContained | pantheon-common/src/test/java/org/paritybits/pantheon/common/RangeTest.java:439-452 | 0 to 10 by two yields 0, 2, ..., 10; 1 is within but not contained; -2 and 12 are not within |
| RangeExamples.StepsFromZero | pantheon-common/src/test/java/org/paritybits/pantheon/common/RangeTest.java:360-395 | n steps by one from 0 reach n |
| NumberRangeRules.Next | pantheon-common/src/main/java/org/paritybits/pantheon/common/NumberRangeRule.java:53-56 | `next(x)` has the value x + increment and scale max(x's scale, the stripped increment's) |
| NumberRangeRules.Prior | pantheon-common/src/main/java/org/paritybits/pantheon/common/NumberRangeRule.java:62-65 | `prior(x)` has the value x - increment and that scale |
| NumberRangeRules.CreateTyped | pantheon-common/src/main/java/org/paritybits/pantheon/common/NumberRangeRule.java:67-76 | a value is rebuilt in its own numeric type exactly when that type can hold it; otherwise IllegalState |
| NumberRangeRules.NextTyped | pantheon-common/src/main/java/org/paritybits/pantheon/common/NumberRangeRule.java:53-56 | `next` in the value's own type: the sum when representable, IllegalState otherwise |
| NumberRangeRules.PriorTyped | pantheon-common/src/main/java/org/paritybits/pantheon/common/NumberRangeRule.java:62-65 | `prior` in the value's own type: the difference when representable, IllegalState otherwise |
| NumberRangeRules.BigDecimalSteps | pantheon-common/src/main/java/org/paritybits/pantheon/common/NumberRangeRule.java:53-65 | for BigDecimal values the typed steps never fail |
| NumberRangeRules.IntegerSteps | pantheon-common/src/main/java/org/paritybits/pantheon/common/NumberRangeRule.java:53-76 | an Integer `next` succeeds exactly when the sum fits in an int |
| NumberRangeRules.IntegerPriorSteps | pantheon-common/src/main/java/org/paritybits/pantheon/common/NumberRangeRule.java:62-76 | an Integer `prior` succeeds exactly when the difference fits in an int |
| NumberRangeRules.IntegerNextOverflows | pantheon-common/src/main/java/org/paritybits/pantheon/common/NumberRangeRule.java:67-76 | Integer `next(2147483647)` by 1 throws IllegalState |
| NumberRangeRules.IntegerHalfStepThrows | pantheon-common/src/main/java/org/paritybits/pantheon/common/NumberRangeRule.java:67-76 | an Integer stepped by 0.5 throws IllegalState |
| NumberRangeRules.CompareByValue | pantheon-common/src/main/java/org/paritybits/pantheon/common/NumberRangeRule.java:44-47 | `compare` sees only values, not scales |
| NumberRangeRules.PriorAfterNext | pantheon-common/src/main/java/org/paritybits/pantheon/common/NumberRangeRule.java:53-65 | `prior(next(x))` has x's value, and is x when x's scale is at least the increment's |
| NumberRangeRules.NextAfterPrior | pantheon-common/src/main/java/org/paritybits/pantheon/common/NumberRangeRule.java:53-65 | `next(prior(x))` has x's value, and is x under the same scale condition |
| NumberRangeRules.PriorAfterNextKeepsScale | pantheon-common/src/main/java/org/paritybits/pantheon/common/NumberRangeRule.java:53-65 | by 0.5 from 1, `prior(next(1))` is 1.0, equal in value but not in scale |
| NumberRangeRules.NextPriorBySeven | pantheon-common/src/test/java/org/paritybits/pantheon/common/NumberRangeRuleTest.java:21-51 | by 7: 1 goes to 8 and -6, 339 to 346 and 332 |
| NumberRangeRules.NextPriorByTen | pantheon-common/src/test/java/org/paritybits/pantheon/common/NumberRangeRuleTest.java:21-51 | BigInteger by 10: 15 goes to 25 and 5 |
| NumberRangeRules.NumberRuleValid | pantheon-common/src/main/java/org/paritybits/pantheon/common/NumberRangeRule.java:44-65 | a positive increment satisfies the range-rule contract |
| NumberRangeRules.EqualsByValue | pantheon-common/src/main/java/org/paritybits/pantheon/common/NumberRangeRule.java:90-98 | two rules are equal exactly when the increments have the same type and value |
| NumberRangeRules.RuleIdentity | pantheon-common/src/main/java/org/paritybits/pantheon/common/NumberRangeRule.java:90-98 | range equality sees exactly the rules' equality |
| NumberRangeRules.EqualsExamples | pantheon-common/src/test/java/org/paritybits/pantheon/common/NumberRangeRuleTest.java:59-81 | 10.0 equals 10; Integer 1 differs from BigDecimal 1 and from Integer 3 |
| NumberRangeRules.Equals | pantheon-common/src/main/java/org/paritybits/pantheon/common/NumberRangeRule.java:90-98 | `equals`; NumberRangeRules.EqualsByValue states it is same increment class and same increment value |
| NumberRangeRules.ToString | pantheon-common/src/main/java/org/paritybits/pantheon/common/NumberRangeRule.java:101-104 | `toString`; NumberRangeRules.ToStringWhole states the text for a whole increment |
| NumberRangeRules.ToStringWhole | pantheon-common/src/main/java/org/paritybits/pantheon/common/NumberRangeRule.java:102-104 | the text is the description followed by the whole increment's digits, grouped by thousands |
| NumberRangeRules.ToStringExample | pantheon-common/src/test/java/org/paritybits/pantheon/common/NumberRangeRuleTest.java:54-55 | increment 10 prints "NumberRangeRule with increment of 10" |
| NumberRangeRules.CreateRangeEquals | pantheon-common/src/main/java/org/paritybits/pantheon/common/NumberRangeRule.java:119-122 | created ranges are equal exactly when the bounds match and the increments have the same type and value |
| NumberRangeRules.CreateRange | pantheon-common/src/main/java/org/paritybits/pantheon/common/NumberRangeRule.java:119-123 | `createRange`; NumberRangeRules.CreateRangeEquals states when two created ranges are equal |
| NumberRangeRules.ItemScale | pantheon-common/src/main/java/org/paritybits/pantheon/common/NumberRangeRule.java:53-56 | every item after the first has scale max(from's scale, the increment's) |
| NumberRangeRules.ScaleHidesBound | pantheon-common/src/main/java/org/paritybits/pantheon/common/Range.java:223-225 | a bound written with fewer decimals than the items is never contained, since `BigDecimal.equals` compares scale |
| NumberRangeRules.HalfStepsMissesOne | pantheon-common/src/main/java/org/paritybits/pantheon/common/Range.java:223-225 | 0 to 1 by 0.5 yields 0, 0.5, 1.0 but does not contain 1 |
| Periods.IndexBounds | pantheon-janus/src/main/java/org/paritybits/pantheon/janus/simple/SimplePeriod.java:111-133 | every day lies in the period its index names, between that period's start and the next one's |
| Periods.IndexUnique | pantheon-janus/src/main/java/org/paritybits/pantheon/janus/simple/SimplePeriod.java:111-133 | only that period contains the day |
| Periods.Create | pantheon-janus/src/main/java/org/paritybits/pantheon/janus/simple/SimplePeriod.java:52-57 | construction from an instant gives a period of that kind containing it |
| Periods.CreateWithin | pantheon-janus/src/main/java/org/paritybits/pantheon/janus/simple/SimplePeriod.java:52-57 | constructing again from any day of a period gives the same period |
| Periods.Index | pantheon-janus/src/main/java/org/paritybits/pantheon/janus/simple/SimplePeriod.java:51-56 | the period holding a day; Periods.Create states that the day lies between the period's first and last day |
| Periods.First | pantheon-janus/src/main/java/org/paritybits/pantheon/janus/simple/SimplePeriod.java:63-65 | `start()`; Periods.FirstBeforeLast states it is never after `stop()`, and Periods.Next that the next period starts the day after this one stops |
| Periods.Last | pantheon-janus/src/main/java/org/paritybits/pantheon/janus/simple/SimplePeriod.java:70-72 | `stop()`; Periods.FirstBeforeLast states it is never before `start()` |
| Periods.FirstBeforeLast | pantheon-janus/src/main/java/org/paritybits/pantheon/janus/simple/SimplePeriod.java:51-56 | a period never ends before it starts |
| Periods.Next | pantheon-janus/src/main/java/org/paritybits/pantheon/janus/simple/SimplePeriod.java:85-87 | `next` starts the day after this period stops |
| Periods.Prior | pantheon-janus/src/main/java/org/paritybits/pantheon/janus/simple/SimplePeriod.java:78-80 | `prior` stops the day before this period starts |
| Periods.PriorNext | pantheon-janus/src/main/java/org/paritybits/pantheon/janus/simple/SimplePeriod.java:78-87 | `prior` and `next` undo each other |
| Periods.CompareByIndex | pantheon-janus/src/main/java/org/paritybits/pantheon/janus/simple/SimplePeriod.java:218-239 | same kind: `compareTo` is the order of the starts, 0 exactly when `equals`, which is identity |
| Periods.Compare | pantheon-janus/src/main/java/org/paritybits/pantheon/janus/simple/SimplePeriod.java:218-220 | `compareTo` by start; Periods.CompareByIndex states it orders periods of a kind by position and is zero exactly on equal periods |
| Periods.Equals | pantheon-janus/src/main/java/org/paritybits/pantheon/janus/simple/SimplePeriod.java:228-239 | `equals`, same kind, start and stop; Periods.CompareByIndex states it is equality of periods |
| Periods.KindsNeverEqual | pantheon-janus/src/main/java/org/paritybits/pantheon/janus/simple/SimplePeriod.java:228-239 | periods of different kinds are never equal |
| Periods.StepsCompare | pantheon-janus/src/main/java/org/paritybits/pantheon/janus/simple/SimplePeriod.java:218-220 | `next` compares above and `prior` below |
| Periods.CompareTransitive | pantheon-janus/src/main/java/org/paritybits/pantheon/janus/simple/SimplePeriod.java:218-220 | the order of starts is transitive |
| Periods.CompareAntisymmetric | pantheon-janus/src/main/java/org/paritybits/pantheon/janus/simple/SimplePeriod.java:218-220 | swapping the operands negates the comparison |
| Periods.NaturalRuleValid | pantheon-common/src/main/java/org/paritybits/pantheon/common/Range.java:34-46 | the natural rule over periods satisfies the range-rule contract |
| Periods.StepsIndex | pantheon-common/src/main/java/org/paritybits/pantheon/common/Range.java:374-382 | stepping a period n times moves its index by n |
| Periods.Roll | pantheon-janus/src/main/java/org/paritybits/pantheon/janus/simple/SimplePeriod.java:144-146 | `roll(n)` is `stepsFrom(this, n)`: n periods on, or none for `Integer.MIN_VALUE` |
| Periods.RollAt | pantheon-janus/src/main/java/org/paritybits/pantheon/janus/simple/SimplePeriod.java:169-177 | rolling by 0 gives the period back; otherwise the period containing the date moved by the amount of the field |
| Periods.RollField | pantheon-janus/src/main/java/org/paritybits/pantheon/janus/simple/SimplePeriod.java:156-158 | `roll(field, n)` moves the period's start by n units of the field and takes the period containing it |
| Periods.DayBounds | pantheon-janus/src/main/java/org/paritybits/pantheon/janus/simple/Day.java:19-20 | a day starts and stops on its own date |
| Periods.WeekBounds | pantheon-janus/src/main/java/org/paritybits/pantheon/janus/simple/Week.java:36-44 | a week runs from its Monday to the following Sunday |
| Periods.MonthBounds | pantheon-janus/src/main/java/org/paritybits/pantheon/janus/simple/Month.java:20-21 | a month runs from the first to its last day |
| Periods.QuarterAlignment | pantheon-janus/src/main/java/org/paritybits/pantheon/janus/simple/Quarter.java:36-54 | a quarter runs from the first of month 3q-2 to the end of month 3q |
| Periods.YearBounds | pantheon-janus/src/main/java/org/paritybits/pantheon/janus/simple/Year.java:21-22 | a year runs from 1 January to 31 December |
| Periods.KindRangeElements | pantheon-janus/src/main/java/org/paritybits/pantheon/janus/simple/Year.java:50-66 | a range of periods of one kind yields each period from the first to the last |
| Periods.PartsTile | pantheon-janus/src/main/java/org/paritybits/pantheon/janus/simple/Year.java:50-66 | the smaller periods of a period tile it: consecutive, first starting with it and last ending with it |
| Periods.Enclosing | pantheon-janus/src/main/java/org/paritybits/pantheon/janus/simple/Day.java:48-64 | the larger period built from a period's start encloses it |
| PeriodKinds.EnclosingPeriod | pantheon-janus/src/main/java/org/paritybits/pantheon/janus/simple/Day.java:48-64 | `month()`, `quarter()`, `year()` enclose the period |
| PeriodKinds.EnclosingUnique | pantheon-janus/src/main/java/org/paritybits/pantheon/janus/simple/Day.java:48-64 | only one period of the larger kind does |
| PeriodKinds.EnclosingYear | pantheon-janus/src/main/java/org/paritybits/pantheon/janus/simple/Month.java:56-65 | the enclosing year is the calendar year of both ends |
| PeriodKinds.MiddleOfWeek | pantheon-janus/src/main/java/org/paritybits/pantheon/janus/simple/Week.java:61-63 | the middle day of a week is its Wednesday |
| PeriodKinds.WeekYearPeriod | pantheon-janus/src/main/java/org/paritybits/pantheon/janus/simple/Week.java:77-79 | `year()` of a week is the calendar year of its Wednesday |
| PeriodKinds.WeekYearAgreesWithIso | pantheon-janus/src/main/java/org/paritybits/pantheon/janus/simple/Week.java:77-79 | that year is the ISO week-based year, except when the Wednesday is 31 December |
| PeriodKinds.WeekDays | pantheon-janus/src/main/java/org/paritybits/pantheon/janus/simple/Week.java:68-70 | `days()` yields the week's seven days in order |
| PeriodKinds.MonthDays | pantheon-janus/src/main/java/org/paritybits/pantheon/janus/simple/Month.java:49-51 | `days()` yields each day of the month in order |
| PeriodKinds.DaysOf | pantheon-janus/src/main/java/org/paritybits/pantheon/janus/simple/Quarter.java:82-84 | `asDays()` yields every day of the period in order |
| PeriodKinds.QuarterMonths | pantheon-janus/src/main/java/org/paritybits/pantheon/janus/simple/Quarter.java:75-77 | `asMonths()` yields the quarter's three months |
| PeriodKinds.YearMonths | pantheon-janus/src/main/java/org/paritybits/pantheon/janus/simple/Year.java:57-59 | `months()` yields the twelve months |
| PeriodKinds.YearQuarters | pantheon-janus/src/main/java/org/paritybits/pantheon/janus/simple/Year.java:50-52 | `quarters()` yields the four quarters |
| PeriodKinds.DayRollWeeks | pantheon-janus/src/main/java/org/paritybits/pantheon/janus/simple/Day.java:72-74 | `rollWeeks(n)` moves 7n days and keeps the weekday |
| PeriodKinds.DayRollMonths | pantheon-janus/src/main/java/org/paritybits/pantheon/janus/simple/Day.java:85-87 | `rollMonths(n)` moves n months and keeps the day of month, pinned to the target month's length |
| PeriodKinds.DayRollMonthsBack | pantheon-janus/src/main/java/org/paritybits/pantheon/janus/simple/Day.java:85-87 | up to the 28th, rolling n months and back returns the same day |
| PeriodKinds.DayRollQuarters | pantheon-janus/src/main/java/org/paritybits/pantheon/janus/simple/Day.java:98-100 | `rollQuarters(n)` is `rollMonths` by the int product 3n, pinned the same way |
| PeriodKinds.DayRollYears | pantheon-janus/src/main/java/org/paritybits/pantheon/janus/simple/Day.java:109-111 | `rollYears(n)` keeps month and day, pinning 29 February |
| PeriodKinds.MonthRollQuarters | pantheon-janus/src/main/java/org/paritybits/pantheon/janus/simple/Month.java:72-74 | `rollQuarters(n)` moves by the int product 3n months |
| PeriodKinds.MonthRollYears | pantheon-janus/src/main/java/org/paritybits/pantheon/janus/simple/Month.java:81-83 | `rollYears(n)` moves 12n months |
| PeriodKinds.QuarterRollYears | pantheon-janus/src/main/java/org/paritybits/pantheon/janus/simple/Quarter.java:98-100 | `rollYears(n)` keeps the quarter number |
| PeriodKinds.WeekRollYears | pantheon-janus/src/main/java/org/paritybits/pantheon/janus/simple/Week.java:87-89 | `rollYears(n)` moves the Wednesday's date n years, pinned, and takes the week containing it |
| PeriodKinds.WeekRollYearsWeekday | pantheon-janus/src/main/java/org/paritybits/pantheon/janus/simple/Week.java:87-89 | the rolled week starts on a Monday |
| PeriodKinds.WeekRollYearsIntended | pantheon-janus/src/main/java/org/paritybits/pantheon/janus/simple/Week.java:82-86 | the documented roll keeps the week when n is 0 |
| PeriodKinds.WeekRollYearsIntendedKeepsWeek | pantheon-janus/src/main/java/org/paritybits/pantheon/janus/simple/Week.java:82-86 | the documented roll keeps the week number and moves the week-based year by n, for weeks 1 to 52 |
| PeriodKinds.WeekRollYearsMissesWeek | pantheon-janus/src/main/java/org/paritybits/pantheon/janus/simple/Week.java:82-89 | as written, 2008-W03 rolled by 2 lands in 2010-W02 |
| PeriodKinds.WeekRollYearsIntendedOf2008W03 | pantheon-janus/src/main/java/org/paritybits/pantheon/janus/simple/Week.java:82-86 | the documented roll takes 2008-W03 to 2010-W03 |
| PeriodText.LenientValid | pantheon-janus/src/main/java/org/paritybits/pantheon/janus/simple/Day.java:136-142 | a lenient reading of a valid date is that date |
| PeriodText.LenientOverflow | pantheon-janus/src/main/java/org/paritybits/pantheon/janus/simple/Day.java:136-142 | a day past the month's end carries into the next month |
| PeriodText.DayText | pantheon-janus/src/main/java/org/paritybits/pantheon/janus/simple/Day.java:33-35 | a day prints as at least ten characters (`yyyy-MM-dd`) |
| PeriodText.ParseDay | pantheon-janus/src/main/java/org/paritybits/pantheon/janus/simple/Day.java:136-142 | `valueOf` succeeds exactly when three dash-separated numbers can be read, and gives the lenient day they name; otherwise IllegalArgument |
| PeriodText.DayTextRoundTrip | pantheon-janus/src/main/java/org/paritybits/pantheon/janus/simple/Day.java:33-35 | a day of year 1 or later reads back from its text |
| PeriodText.DayTextLenient | pantheon-janus/src/main/java/org/paritybits/pantheon/janus/simple/Day.java:136-142 | "2008-1-5" and "2008-01-05T10:00" read as 2008-01-05 |
| PeriodText.DayTextExponent | pantheon-janus/src/main/java/org/paritybits/pantheon/janus/simple/Day.java:136-142 | "2008E1-01-05" reads as 20080-01-05 |
| PeriodText.ParseMonth | pantheon-janus/src/main/java/org/paritybits/pantheon/janus/simple/Month.java:102-107 | `valueOf` succeeds exactly when two dash-separated numbers can be read, and gives the month containing their lenient first day |
| PeriodText.MonthTextRoundTrip | pantheon-janus/src/main/java/org/paritybits/pantheon/janus/simple/Month.java:34-36 | a month of year 1 or later reads back from its text |
| PeriodText.MonthText | pantheon-janus/src/main/java/org/paritybits/pantheon/janus/simple/Month.java:34-36 | `Month.toString()`, at least `yyyy-MM` long; PeriodText.MonthTextRoundTrip states that `Month.valueOf` reads it back to the same month |
| PeriodText.ParseYear | pantheon-janus/src/main/java/org/paritybits/pantheon/janus/simple/Year.java:83-88 | a successful `valueOf` is the year given by the leading number |
| PeriodText.ParseYearOf | pantheon-janus/src/main/java/org/paritybits/pantheon/janus/simple/Year.java:83-88 | digits followed by text that neither continues them nor starts an exponent read as that year when that text is empty or starts with a dash; otherwise the text fails |
| PeriodText.DashEndsField | pantheon-janus/src/main/java/org/paritybits/pantheon/janus/simple/Year.java:83-88 | a dash after the year's digits neither continues them nor starts an exponent |
| PeriodText.YearTextExponent | pantheon-janus/src/main/java/org/paritybits/pantheon/janus/simple/Year.java:83-88 | "2008E1" reads as the year 20080 and "2008E-1" as the year 200 |
| PeriodText.YearTextRoundTrip | pantheon-janus/src/main/java/org/paritybits/pantheon/janus/simple/Year.java:35-37 | a year of 1 or later reads back from its text |
| PeriodText.YearText | pantheon-janus/src/main/java/org/paritybits/pantheon/janus/simple/Year.java:35-37 | `Year.toString()`, at least four digits; PeriodText.YearTextRoundTrip states that `Year.valueOf` reads it back to the same year |
| PeriodText.YearTextFiveDigits | pantheon-janus/src/main/java/org/paritybits/pantheon/janus/simple/Year.java:83-88 | "12345" reads as the year 12345 |
| PeriodText.YearTextWithMonth | pantheon-janus/src/main/java/org/paritybits/pantheon/janus/simple/Year.java:83-88 | "2008-05" reads as 2008 |
| PeriodText.YearTextTrailing | pantheon-janus/src/main/java/org/paritybits/pantheon/janus/simple/Year.java:83-88 | "2008x" is rejected |
| PeriodText.WeekTextDigits | pantheon-janus/src/main/java/org/paritybits/pantheon/janus/simple/Week.java:107-113 | removing `W` from "yyyy-Www" leaves "yyyy-ww" |
| PeriodText.WeekText | pantheon-janus/src/main/java/org/paritybits/pantheon/janus/simple/Week.java:46-48 | `Week.toString()` as written, at least `yyyy-Www` long; PeriodText.WeekTextMisreads states the weeks it names wrongly and PeriodText.WeekTextAgrees where it agrees with the ISO text |
| PeriodText.WeekTextIso | pantheon-janus/src/main/java/org/paritybits/pantheon/janus/simple/Week.java:46-48 | the evidently intended `Week.toString()`, ISO week-based year and week; PeriodText.WeekTextIsoRoundTrip states that `Week.valueOf` reads it back to the same week |
| PeriodText.ParseWeek | pantheon-janus/src/main/java/org/paritybits/pantheon/janus/simple/Week.java:107-113 | `valueOf` succeeds exactly when two numbers can be read once `W` is removed, and gives the week that many weeks after the first ISO week of that year |
| PeriodText.WeekTextIsoFields | pantheon-janus/src/main/java/org/paritybits/pantheon/janus/simple/Week.java:46-48 | the ISO text is the week-based year and the week number, zero-padded |
| PeriodText.WeekTextIsoRoundTrip | pantheon-janus/src/main/java/org/paritybits/pantheon/janus/simple/Week.java:107-113 | the ISO text of any week reads back as that week |
| PeriodText.WeekTextAgrees | pantheon-janus/src/main/java/org/paritybits/pantheon/janus/simple/Week.java:46-48 | the text as written is the ISO text unless the Wednesday is 31 December |
| PeriodText.WeekTextMisreads | pantheon-janus/src/main/java/org/paritybits/pantheon/janus/simple/Week.java:46-48 | when the Wednesday is 31 December the text reads back as a week about a year earlier |
| PeriodText.WeekOfDecember29 | pantheon-janus/src/main/java/org/paritybits/pantheon/janus/simple/Week.java:46-48 | a week starting Monday 29 December does not read back as itself |
| PeriodText.WeekTextMisreadExample | pantheon-janus/src/main/java/org/paritybits/pantheon/janus/simple/Week.java:46-48 | the week starting 2014-12-29 prints "2014-W01" and reads back as a different week |
| PeriodText.DecodeYear | pantheon-janus/src/main/java/org/paritybits/pantheon/janus/simple/Quarter.java:121-122 | `Integer.decode` reads four digits as decimal, or as octal after a leading 0, failing on non-octal digits |
| PeriodText.DecodeYearExamples | pantheon-janus/src/main/java/org/paritybits/pantheon/janus/simple/Quarter.java:121-122 | "2006" is 2006, "0123" is 83, "0999" fails |
| PeriodText.QuarterText | pantheon-janus/src/main/java/org/paritybits/pantheon/janus/simple/Quarter.java:60-66 | the text ends in "-Q" and a digit |
| PeriodText.ParseQuarterOn | pantheon-janus/src/main/java/org/paritybits/pantheon/janus/simple/Quarter.java:117-129 | as written, with today's day of month: malformed text fails; otherwise the quarter containing that day of month 3q of the year |
| PeriodText.ParseQuarter | pantheon-janus/src/main/java/org/paritybits/pantheon/janus/simple/Quarter.java:117-129 | intended reading: malformed text fails, otherwise quarter q of the decoded year |
| PeriodText.ParseQuarterOnAgrees | pantheon-janus/src/main/java/org/paritybits/pantheon/janus/simple/Quarter.java:117-129 | on days 1 to 30 the two readings agree |
| PeriodText.QuarterTextRoundTrip | pantheon-janus/src/main/java/org/paritybits/pantheon/janus/simple/Quarter.java:60-66 | a quarter of a four-digit year reads back from its text |
| PeriodText.QuarterTextMisreadOn31st | pantheon-janus/src/main/java/org/paritybits/pantheon/janus/simple/Quarter.java:117-129 | on the 31st, the text of Q2 or Q3 reads as the next quarter |
| DateFields.ReadNumber | pantheon-janus/src/main/java/org/paritybits/pantheon/janus/simple/Day.java:136-142 | a field read skips blanks and takes a sign, every digit that follows and then an exponent `E[-]digits` if one is there |
| DateFields.ReadExponent | pantheon-janus/src/main/java/org/paritybits/pantheon/janus/simple/Day.java:136-142 | an exponent is `E`, an optional minus and at least one digit, and what follows it starts with a non-digit |
| DateFields.ScaledByPower | pantheon-janus/src/main/java/org/paritybits/pantheon/janus/simple/Day.java:136-142 | an exponent e multiplies the digits' value by 10^e, and a negative one divides it by 10^-e, dropping the fraction |
| DateFields.ReadExponentOf | pantheon-janus/src/main/java/org/paritybits/pantheon/janus/simple/Day.java:136-142 | `E` and digits read as that exponent, stopping at the first non-digit |
| DateFields.ReadScaled | pantheon-janus/src/main/java/org/paritybits/pantheon/janus/simple/Day.java:136-142 | digits followed by an exponent read as the digits' value scaled by that exponent |
| DateFields.ReadAfterBlanks | pantheon-janus/src/main/java/org/paritybits/pantheon/janus/simple/Day.java:136-142 | blanks in front of a field are skipped |
| DateFields.ReadNumberOf | pantheon-janus/src/main/java/org/paritybits/pantheon/janus/simple/Day.java:136-142 | blanks, an optional minus and digits read as that signed number, stopping at the first non-digit and scaled by an exponent if one follows |
| DateFields.NoNumberAt | pantheon-janus/src/main/java/org/paritybits/pantheon/janus/simple/Day.java:136-142 | a field cannot start with anything but a blank, a minus or a digit |
| DateFields.ReadDashedThree | pantheon-janus/src/main/java/org/paritybits/pantheon/janus/simple/Day.java:136-142 | "a-b-c" followed by text that neither continues the digits nor starts an exponent reads as the three numbers |
| DateFields.ReadDashedTwo | pantheon-janus/src/main/java/org/paritybits/pantheon/janus/simple/Month.java:102-107 | "a-b" followed by text that neither continues the digits nor starts an exponent reads as the two numbers |
| Gregorian.MonthLength | pantheon-janus/src/main/java/org/paritybits/pantheon/janus/simple/SimplePeriod.java:271-276 | every month has 28 to 31 days |
| Gregorian.YearStartClosedForm | pantheon-janus/src/main/java/org/paritybits/pantheon/janus/simple/SimplePeriod.java:271-276 | the day number of 1 January is the Gregorian leap-year count |
| Gregorian.DateOf | pantheon-janus/src/main/java/org/paritybits/pantheon/janus/simple/SimplePeriod.java:271-276 | every day number has a valid date that maps back to it |
| Gregorian.DateRoundTrip | pantheon-janus/src/main/java/org/paritybits/pantheon/janus/simple/SimplePeriod.java:271-276 | a valid date maps to a day number and back to itself |
| Gregorian.DayNumberInjective | pantheon-janus/src/main/java/org/paritybits/pantheon/janus/simple/SimplePeriod.java:271-276 | different valid dates have different day numbers |
| Gregorian.YearOfBounds | pantheon-janus/src/main/java/org/paritybits/pantheon/janus/simple/SimplePeriod.java:271-276 | a day lies between the start of its year and the next |
| Gregorian.WeekStart | pantheon-janus/src/main/java/org/paritybits/pantheon/janus/simple/SimplePeriod.java:271-276 | the Monday-first week containing a day starts on a Monday at most six days earlier |
| Gregorian.FirstThursday | pantheon-janus/src/main/java/org/paritybits/pantheon/janus/simple/SimplePeriod.java:271-276 | week 1 (minimal days 4) starts on the Monday before the year's first Thursday |
| Gregorian.WeekNumbering | pantheon-janus/src/main/java/org/paritybits/pantheon/janus/simple/SimplePeriod.java:271-276 | a day's week starts `WeekOfYear - 1` weeks after week 1 of its week-based year, with at most 53 weeks |
| Gregorian.AddMonthsMeaning | pantheon-janus/src/main/java/org/paritybits/pantheon/janus/simple/Day.java:85-87 | `Calendar.add(MONTH, k)` moves the month index by k and pins the day of month to the target month's length |
| Gregorian.AddMonthsCompose | pantheon-janus/src/main/java/org/paritybits/pantheon/janus/simple/Day.java:85-87 | up to the 28th, adding a then b months is adding a + b |
| Gregorian.AddYearsDate | pantheon-janus/src/main/java/org/paritybits/pantheon/janus/simple/Day.java:109-111 | `Calendar.add(YEAR, k)` moves the year by k, keeps the month, and pins the day |
| Gregorian.AddYearsAsMonths | pantheon-janus/src/main/java/org/paritybits/pantheon/janus/simple/Day.java:109-111 | adding k years is adding 12k months |
| Gregorian.AddWeeks | pantheon-janus/src/main/java/org/paritybits/pantheon/janus/simple/Day.java:72-74 | adding whole weeks keeps the weekday |
| CachingExchanges.CalculateRate | pantheon-plutus/src/main/java/org/paritybits/pantheon/plutus/exchange/CachingExchange.java:42-50 | the wrapped exchange is asked exactly when no rate is cached for the ordered pair; the answer is then cached, and no other pair changes |
| CachingExchanges.EqualsEquivalence | pantheon-plutus/src/main/java/org/paritybits/pantheon/plutus/exchange/CachingExchange.java:53-60 | equality by wrapped exchange is an equivalence, and caching a rate never changes it |
| CachingExchanges.Create | pantheon-plutus/src/main/java/org/paritybits/pantheon/plutus/exchange/CachingExchange.java:29-31 | a new caching exchange; CachingExchanges.EqualsEquivalence states it equals any exchange wrapping the same one |
| CachingExchanges.Cached | pantheon-plutus/src/main/java/org/paritybits/pantheon/plutus/exchange/CachingExchange.java:44 | `cache.get`; CachingExchanges.CalculateRate and CachingExchanges.CachedRateStays state how it changes across requests |
| CachingExchanges.Equals | pantheon-plutus/src/main/java/org/paritybits/pantheon/plutus/exchange/CachingExchange.java:53-60 | `equals`; CachingExchanges.EqualsEquivalence states it is an equivalence that ignores the cache |
| CachingExchanges.RepeatUsesCache | pantheon-plutus/src/main/java/org/paritybits/pantheon/plutus/exchange/CachingExchange.java:42-50 | a second request for a cached pair does not ask and returns the cached rate |
| CachingExchanges.ReversePairSeparate | pantheon-plutus/src/main/java/org/paritybits/pantheon/plutus/exchange/CachingExchange.java:66-83 | a request for (from, to) leaves (to, from) alone |
| CachingExchanges.CachedRateStays | pantheon-plutus/src/main/java/org/paritybits/pantheon/plutus/exchange/CachingExchange.java:42-50 | a cached rate is returned for that pair by every later request and never re-asked |
| CachingExchanges.AskedAtMostOnce | pantheon-plutus/src/main/java/org/paritybits/pantheon/plutus/exchange/CachingExchange.java:42-50 | the wrapped exchange is asked at most once per pair, as long as it answers |
| CachingExchanges.CachingExample | pantheon-plutus/src/test/java/org/paritybits/pantheon/plutus/exchange/CachingExchangeTest.java:22-73 | two pairs, each asked twice: two calls to the wrapped exchange, four answers |
| FinancialCalculators.CompoundedReturns | pantheon-plutus/src/main/java/org/paritybits/pantheon/plutus/calculations/FinancialCalculator.java:14-22 | the loop asks for each period the range yields, in order, and compounds the value once per period |
| FinancialCalculators.AtLeastOnce | pantheon-plutus/src/main/java/org/paritybits/pantheon/plutus/calculations/FinancialCalculator.java:14-22 | a range yields at least its first period, so the value is compounded at least once |
| FinancialCalculators.CompoundedOverSplit | pantheon-plutus/src/main/java/org/paritybits/pantheon/plutus/calculations/FinancialCalculator.java:14-22 | compounding over two runs of periods is compounding over the first and then the second |
| FinancialCalculators.BagCompoundsTotalwise | pantheon-plutus/src/main/java/org/paritybits/pantheon/plutus/calculations/FinancialCalculator.java:14-22 | compounding a money bag compounds each total independently |
| FinancialCalculators.MonthlyExample | pantheon-plutus/src/test/java/org/paritybits/pantheon/plutus/calculations/FinancialCalculatorTest.java:16-25 | 100 USD at 10% is 110 USD over one month and 121 USD over two |
| Wrappers.Sign | pantheon-common/src/main/java/org/paritybits/pantheon/common/Percentage.java:167-169 | the sign a `compareTo` reports: -1, 0 or 1 as the number is negative, zero or positive |
| Digits.NatTextNoLeadingZero | pantheon-janus/src/main/java/org/paritybits/pantheon/janus/simple/Year.java:35-37 | a positive number prints without a leading zero |
| Gregorian.MonthIndex | pantheon-janus/src/main/java/org/paritybits/pantheon/janus/simple/SimplePeriod.java:271-276 | every day lies in the month its month index names |
| Gregorian.MonthIndexUnique | pantheon-janus/src/main/java/org/paritybits/pantheon/janus/simple/SimplePeriod.java:271-276 | and in no other month |
| Gregorian.YearOfUnique | pantheon-janus/src/main/java/org/paritybits/pantheon/janus/simple/SimplePeriod.java:271-276 | a day lies in exactly one calendar year |
| Gregorian.AddMonthsToDate | pantheon-janus/src/main/java/org/paritybits/pantheon/janus/simple/Day.java:85-87 | adding months to a valid date gives a valid date k months on, its day of month pinned to the month's length |
| Periods.QuarterOfYear | pantheon-janus/src/main/java/org/paritybits/pantheon/janus/simple/Quarter.java:36-45 | quarter q of year y runs from the first of month 3q-2 to the last day of month 3q |
| Periods.KindRangeEnds | pantheon-janus/src/main/java/org/paritybits/pantheon/janus/simple/Year.java:50-66 | a range of periods of one kind is finite, has b - a + 1 items, and runs from a to b |
| Ranges.ReverseDirection | pantheon-common/src/main/java/org/paritybits/pantheon/common/Range.java:100-105 | a range of more than one item runs the other way once reversed |
| RangeExamples.IntItems | pantheon-common/src/test/java/org/paritybits/pantheon/common/RangeTest.java:111-133 | with an integer rule, item k is from + k x increment forwards and from - k x increment backwards |
| PeriodText.RemoveW | pantheon-janus/src/main/java/org/paritybits/pantheon/janus/simple/Week.java:107-113 | `replace("W", "")` leaves no `W`, keeps every other character and never lengthens the text |
| PeriodKinds.MonthsOfGroup | pantheon-janus/src/main/java/org/paritybits/pantheon/janus/simple/Quarter.java:75-77 | the months of quarter (or year) i are months 3i to 3i+2 (or 12i to 12i+11) |
| PeriodKinds.Week3Of2008 | pantheon-janus/src/main/java/org/paritybits/pantheon/janus/simple/Week.java:82-86 | the week containing 2008-01-14 is week 3 of 2008 |
| NumberRangeRules.HalfStepsItems | pantheon-common/src/main/java/org/paritybits/pantheon/common/NumberRangeRule.java:53-56 | 0 to 1 by 0.5 runs forwards through 0, 0.5, 1.0, 1.5 |
| CachingExchanges.Run | pantheon-plutus/src/main/java/org/paritybits/pantheon/plutus/exchange/CachingExchange.java:42-50 | a run of requests gives one rate per request, asks the wrapped exchange at most once per request, and keeps the wrapped exchange |
| FinancialCalculators.OverTwo | pantheon-plutus/src/main/java/org/paritybits/pantheon/plutus/calculations/FinancialCalculator.java:14-22 | over two periods the value is compounded by the first period's return and then the second's |
| FinancialCalculators.MonthRanges | pantheon-plutus/src/test/java/org/paritybits/pantheon/plutus/calculations/FinancialCalculatorTest.java:16-25 | the one-month range yields that month and the two-month range that month and the next |
| FinancialCalculators.OneCompounding | pantheon-plutus/src/test/java/org/paritybits/pantheon/plutus/calculations/FinancialCalculatorTest.java:18-22 | 100 USD compounded at 10% is 110.00 USD |
| FinancialCalculators.TwoCompoundings | pantheon-plutus/src/test/java/org/paritybits/pantheon/plutus/calculations/FinancialCalculatorTest.java:23-24 | 110.00 USD compounded at 10% is 121.0000 USD |

## Left out

**Calendar**
- Julian dates. `GregorianCalendar` switches to the Julian calendar before 1582-10-15. `Gregorian` is proleptic, so periods before that date do not match Java's.
- Time zones, daylight saving and milliseconds. Period start and stop instants become whole day numbers in one fixed zone, so `start()` and `stop()` are `First` and `Last` days.
- The clock. `Day.today`, `Week.thisWeek`, `Month.thisMonth`, `Quarter.thisQuarter` and `Year.thisYear` read the clock, so they are left out; `create(Date)` takes a day number. In `Quarter.valueOf`, `Calendar.getInstance()` supplies today's day of month. That becomes the `dayOfMonth` parameter of `PeriodText.ParseQuarterOn`.
- Locale and `Calendar` settings other than Monday-first weeks and a minimum of four days in the first week.
- Lenient date fields. The lenient reader models `DecimalFormat`'s exponent but not non-ASCII digits. Date fields that overflow a Java `int` are read as unbounded integers. `DecimalFormat` holds a large value as a `double` and an exponent as a `long` cast to `int`; neither limit is modelled.
- DecimalText.ParseDecimal: the `NumberFormatException` message is not modelled, because it is null in Java 8 and differs between later JDKs. Only the exception type is promised.

**Java integer width**
- Java `int` wrap-around is modelled only for `3 * rollAmount` in the `rollQuarters` methods (`Wrappers.WrapInt`). Other `int` arguments are only required to be Java ints.
- CommonUtil.InBetween: its Java loop counts in an `int`. The contract states the answer exactly only when the count or the bounds stay below `Integer.MAX_VALUE`.
- CommonUtil.AtLeast: the same `int` count; for n = 0 the answer is stated only when the count fits in an `int`.
- CommonUtil.AtMost: the same `int` count; the answer is stated when n or the count is below `Integer.MAX_VALUE`.
- NumberRangeRules.Next, NumberRangeRules.Prior and the range rule built from them use the exact `BigDecimal` step. The rebuild in the value's own class, including its `IllegalStateException`, is modelled separately in `NextTyped`, `PriorTyped` and `CreateTyped` for BigDecimal, BigInteger, Integer and Long. `Double`, `Float`, `Short` and `Byte` increments are not modelled, because they would need binary floating point and narrower widths.

**Money and exchange**
- `Currency.getInstance` is a `known` set of codes; currency metadata is not modelled.
- A `CurrencyExchange` becomes a total rate function. The `NullPointerException` that `Money.valueInCurrency` raises on a null rate (Money.java:217) is not modelled.
- Monies.ValueInCurrency: for a different currency, the result is stated up to equal value (`SameValue`), not up to scale.
- `HashMap` iteration order is the explicit `order` parameter. The lemmas prove that the results do not depend on it.
- `MoneyBag.hashCode` and `Money.hashCode` are not modelled as integers. The lemmas relate only the values hashed to equality.
- `CrossCurrencyComparator`, `CachingExchangeFactory`, `FixedRate` and the `Returns` interface are not part of this model. `FinancialCalculators.CompoundedReturns` takes the per-period returns as a function.

**Aliasing, nulls and objects**
- Aliasing. `FunctionMap` wraps the caller's map by reference, so writes through either are shared. The model's map is a value.
- Nulls. The model has no null values in maps and no null `PutFunction` results. A `Predicate` returning a null `Boolean` is not modelled. Nulls are modelled only where the source checks for them: `CommonUtil.getValue`, `Range.stepsFrom`, and `FunctionMap.put`'s absent key.
- Rule identity. Range equality compares rules by an identifier. Anonymous rules carry a tag standing in for Java object identity.
- Range.create is the `Range` constructor. The default rule for `Rangeable` items is `Periods.NaturalRule`.

**Text, serialization and hashing**
- `toString` and `hashCode` of `Range`, of the periods' `SimplePeriod` base, of `CachingExchange` and of `FixedRate` are not modelled, nor is `Range.asSortedSet`: it is a `TreeSet` copy of `asList`.
- Java serialization is not modelled: `writeObject`, `readObject` and `readResolve` everywhere.

**Other omissions**
- Iterator mutators. `add`, `set` and `remove` on the range iterator only throw `UnsupportedOperationException`.
- CommonUtil helpers. `CommonUtil.isImmutable` and the annotations are not modelled. Nor are `map`, `mapInto`, `collect` and `collectInto`, which are thin loops over `Function`.
- Floating point. `Percentage.valueOf(double)` and `Percentage.doubleValue` need it.

**Contracts proved for a restricted range**
- PeriodKinds.WeekRollYearsIntendedKeepsWeek: proved for week numbers 1 to 52 only. A week 53 has no counterpart in most years.
- PeriodText.QuarterTextRoundTrip: proved for years 1000 to 9999 only.
  - `Integer.decode` reads a leading `0` as octal, so a year below 1000 does not read back (`PeriodText.DecodeYearExamples`).
  - The pattern allows four digits only.
- PeriodText.DayTextRoundTrip: proved for years 1 and later. `SimpleDateFormat` prints earlier years by era.
- PeriodText.MonthTextRoundTrip: proved for years 1 and later, for the same reason.
- PeriodText.YearTextRoundTrip: proved for years 1 and later, for the same reason.
- PeriodText.WeekTextIsoRoundTrip: proved for week-based years 1 and later, for the same reason.
- Monies.ParseMoneyRoundTrip: proved for amounts that `BigDecimal.toString` prints in plain notation. Scientific notation such as `1E+3` is not read by the corrected parser.

## Findings

| source | as written | input that shows it | evidently intended | confidence | as-written member | corrected member |
|---|---|---|---|---|---|---|
| pantheon-plutus/src/main/java/org/paritybits/pantheon/plutus/CurrencyMismatchException.java:20-27 | the template quotes `'{0}'` and `'{1}'`; MessageFormat treats quoted text as literal, so the placeholders are never filled | any two monies in different currencies | the message names both monies | not executed | Monies.MismatchMessageIgnoresMonies | Monies.MismatchMessageIntended |
| pantheon-plutus/src/main/java/org/paritybits/pantheon/plutus/Money.java:260-270 | a receiver with a zero amount equals any money | `0 USD` equals `5 USD`, but `5 USD` does not equal `0 USD` | zero equals only zero, in any currency, and equality is symmetric | not executed | Monies.EqualsMisjudgesZero | Monies.EqualsIntendedEquivalence |
| pantheon-plutus/src/main/java/org/paritybits/pantheon/plutus/MoneyBag.java:231-238 | map equality calls `Money.equals` as written, so a zero total matches any total | `{USD: 0 USD}` equals `{USD: 5 USD}`, not the reverse | bags are equal when their totals are equal in value | not executed | MoneyBags.EqualsMisjudgesZeroTotal | MoneyBags.EqualsIntendedEquivalence |
| pantheon-plutus/src/main/java/org/paritybits/pantheon/plutus/Money.java:314-324 | `find()` with `(\d+) (\w\w\w)` matches only the digits just before the space | `"10.50 USD"`, the text of 10.50 USD, reads as 50 USD; `"-5 USD"` reads as 5 USD | `valueOf(m.toString())` gives back m | not executed | Monies.ValueOfLosesFraction | Monies.ParseMoneyRoundTrip |
| pantheon-janus/src/main/java/org/paritybits/pantheon/janus/simple/Week.java:46-48 | the text pairs the Wednesday's calendar year with its week of year | the week starting Monday 2014-12-29 prints `2014-W01`, which reads back as the week starting 2013-12-30 | the text uses the week-based year (`2015-W01`) and reads back as the same week | not executed | PeriodText.WeekTextMisreadExample | PeriodText.WeekTextIsoRoundTrip |
| pantheon-janus/src/main/java/org/paritybits/pantheon/janus/simple/Quarter.java:117-129 | `Calendar.getInstance()` keeps today's day of month when the month is set to the quarter's last month | `"2006-Q2"` read on the 31st of any month gives June 31, i.e. July 1, which is in Q3 | the text names quarter q whatever the day | not executed | PeriodText.QuarterTextMisreadOn31st | PeriodText.QuarterTextRoundTrip |
| pantheon-janus/src/main/java/org/paritybits/pantheon/janus/simple/Week.java:82-89 | `rollYears` moves the Wednesday's date by n years and takes that week | 2008-W03 rolled by 2: Wednesday 2008-01-16 becomes Saturday 2010-01-16, in 2010-W02 | the documented 2010-W03: same week number, n week-based years on | not executed | PeriodKinds.WeekRollYearsMissesWeek | PeriodKinds.WeekRollYearsIntendedKeepsWeek |
