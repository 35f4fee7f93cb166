/**
 * pantheon-plutus `MoneyBag`: totals in several currencies held side by side,
 * one `Money` per currency, never converted until `valueInCurrency` asks for a
 * single figure.  Every operation builds a new bag.
 *
 * The bag's `HashMap` hands out its totals in an order the program does not
 * control; wherever the source iterates over the totals, that order is a
 * parameter `order` listing each currency of the bag once, and the results
 * are shown not to depend on it.
 */
module MoneyBags {
  import opened Wrappers
  import opened Decimals
  import opened Percentages
  import opened Monies
  import opened Digits
  import FunctionMaps

  datatype MoneyBag = MoneyBag(totals: map<Currency, Money>)

  /** Each total is filed under its own currency, which every bag the source builds satisfies. */
  predicate Valid(b: MoneyBag) {
    forall c :: c in b.totals ==> b.totals[c].currency == c
  }

  /** `emptyBag()`. */
  const EmptyBag: MoneyBag := MoneyBag(map[])

  /** `order` lists every element of `keys` exactly once: one iteration order of a map with those keys. */
  predicate Enumerates<K>(order: seq<K>, keys: set<K>) {
    && (forall i, j :: 0 <= i < j < |order| ==> order[i] != order[j])
    && (forall i :: 0 <= i < |order| ==> order[i] in keys)
    && (forall k :: k in keys ==> k in order)
  }

  /** Maps with the same keys and the same value at each key are equal. */
  lemma SameEntries<K, V>(x: map<K, V>, y: map<K, V>)
    requires x.Keys == y.Keys && forall k :: k in x ==> x[k] == y[k]
    ensures x == y
  {
  }

  // ---------------------------------------------------------------------------
  // Folds over an iteration order
  // ---------------------------------------------------------------------------

  /** The running value of a `for` loop over `xs` that replaces `acc` by `step(acc, x)`. */
  function Fold<S, X>(step: (S, X) -> S, acc: S, xs: seq<X>): S
    decreases |xs|
  {
    if |xs| == 0 then acc else Fold(step, step(acc, xs[0]), xs[1..])
  }

  /** With a step whose order does not matter, any element can be taken first. */
  lemma {:induction false} FoldPull<S, X>(step: (S, X) -> S, acc: S, xs: seq<X>, i: nat)
    requires forall s, x, y :: step(step(s, x), y) == step(step(s, y), x)
    requires i < |xs|
    ensures Fold(step, acc, xs) == Fold(step, step(acc, xs[i]), xs[..i] + xs[i + 1..])
    decreases i
  {
    if i == 0 {
      assert xs[..0] + xs[1..] == xs[1..];
    } else {
      var rest := xs[..i] + xs[i + 1..];
      FoldPull(step, step(acc, xs[0]), xs[1..], i - 1);
      assert xs[1..][..i - 1] + xs[1..][i..] == rest[1..];
      assert rest[0] == xs[0];
    }
  }

  /** With a step whose order does not matter, the fold depends only on the multiset of its inputs. */
  lemma {:induction false} FoldPermutation<S, X>(step: (S, X) -> S, acc: S, xs: seq<X>, ys: seq<X>)
    requires forall s, x, y :: step(step(s, x), y) == step(step(s, y), x)
    requires multiset(xs) == multiset(ys)
    ensures Fold(step, acc, xs) == Fold(step, acc, ys)
    decreases |xs|
  {
    if |xs| == 0 {
      assert |ys| == |multiset(ys)| == 0;
    } else {
      var x := xs[0];
      assert x in multiset(ys);
      var i :| 0 <= i < |ys| && ys[i] == x;
      var rest := ys[..i] + ys[i + 1..];
      WithoutOne(ys, i);
      WithoutOne(xs, 0);
      assert xs[..0] + xs[1..] == xs[1..];
      calc {
        Fold(step, acc, xs);
        Fold(step, step(acc, x), xs[1..]);
        { FoldPermutation(step, step(acc, x), xs[1..], rest); }
        Fold(step, step(acc, x), rest);
        { FoldPull(step, acc, ys, i); }
        Fold(step, acc, ys);
      }
    }
  }

  /** Dropping the element at `i` removes one occurrence of it from the multiset. */
  lemma WithoutOne<X>(ys: seq<X>, i: nat)
    requires i < |ys|
    ensures multiset(ys[..i] + ys[i + 1..]) == multiset(ys) - multiset{ys[i]}
  {
    assert ys == ys[..i] + ([ys[i]] + ys[i + 1..]);
    assert multiset(ys) == multiset(ys[..i]) + multiset{ys[i]} + multiset(ys[i + 1..]);
  }

  /** An element listed once has count one; an unlisted one, count zero. */
  lemma {:induction false} DistinctCounts<K>(xs: seq<K>)
    requires forall i, j :: 0 <= i < j < |xs| ==> xs[i] != xs[j]
    ensures forall x :: multiset(xs)[x] == if x in xs then 1 else 0
  {
    if |xs| > 0 {
      DistinctCounts(xs[1..]);
      assert xs == [xs[0]] + xs[1..];
      assert xs[0] !in xs[1..];
    }
  }

  /** Two iteration orders of the same keys hold the same elements. */
  lemma EnumerationsPermute<K>(o1: seq<K>, o2: seq<K>, keys: set<K>)
    requires Enumerates(o1, keys) && Enumerates(o2, keys)
    ensures multiset(o1) == multiset(o2)
  {
    DistinctCounts(o1);
    DistinctCounts(o2);
    forall x ensures multiset(o1)[x] == multiset(o2)[x] {
      assert x in o1 <==> x in o2;
    }
  }

  /** An iteration order is empty exactly when the bag is. */
  lemma EnumeratesEmpty<K>(order: seq<K>, keys: set<K>)
    requires Enumerates(order, keys)
    ensures |order| == 0 <==> keys == {}
  {
    if keys != {} {
      var k :| k in keys;
      assert k in order;
    }
    if |order| > 0 {
      assert order[0] in keys;
    }
  }

  // ---------------------------------------------------------------------------
  // Adding
  // ---------------------------------------------------------------------------

  /**
   * `ADD_MAP_FUNCTION`: the stored total plus the newly put money, in the
   * stored total's currency.
   */
  function AddFunction(): (f: FunctionMaps.PutFunction<Money>)
    ensures forall stored, added :: f(stored, added).currency == stored.currency
  {
    (stored: Money, added: Money) => Money(Decimals.Add(stored.amount, added.amount), stored.currency)
  }

  /**
   * The put function is `Money.add` whenever the currencies agree, which they
   * always do in a bag; on a mismatch `Money.add` raises instead.
   */
  lemma AddFunctionIsMoneyAdd(stored: Money, added: Money)
    ensures stored.currency == added.currency ==> Monies.Add(stored, added) == Ok(AddFunction()(stored, added))
    ensures stored.currency != added.currency ==> Monies.Add(stored, added) == Err(CurrencyMismatch(stored, added))
  {
    if stored.currency == added.currency {
      var r := Monies.Add(stored, added).value;
      var s := AddFunction()(stored, added);
      assert r.amount.scale == s.amount.scale;
      assert Units(r.amount, r.amount.scale) == Units(s.amount, s.amount.scale);
    }
  }

  /** The total for `m`'s currency after `m` is put: merged into the stored total, or `m` itself. */
  function Merged(totals: map<Currency, Money>, m: Money): Money {
    if m.currency in totals then AddFunction()(totals[m.currency], m) else m
  }

  /**
   * `add(Money)`: the money joins the total of its currency, or starts one;
   * every other total stays as it was.
   */
  function AddMoney(b: MoneyBag, m: Money): (r: MoneyBag)
    ensures r.totals.Keys == b.totals.Keys + {m.currency}
    ensures forall c :: c in b.totals && c != m.currency ==> r.totals[c] == b.totals[c]
    ensures m.currency !in b.totals ==> r.totals[m.currency] == m
    ensures Valid(b) ==> Valid(r)
  {
    MoneyBag(b.totals[m.currency := Merged(b.totals, m)])
  }

  /** In a bag, the merged total is `Money.add` of the stored total and the money, which cannot mismatch. */
  lemma AddMoneyAddsToTotal(b: MoneyBag, m: Money)
    requires Valid(b) && m.currency in b.totals
    ensures Monies.Add(b.totals[m.currency], m) == Ok(AddMoney(b, m).totals[m.currency])
  {
    AddFunctionIsMoneyAdd(b.totals[m.currency], m);
  }

  /** A map's entries seen as a `FunctionMap`'s wrapped map. */
  function Wrap(totals: map<Currency, Money>): map<Currency, Option<Money>> {
    map c | c in totals :: Some(totals[c])
  }

  /** `add(Money)` is the `FunctionMap` put of the source: the bag's totals copied in, then the money put with `ADD_MAP_FUNCTION`. */
  lemma AddMoneyIsPut(b: MoneyBag, m: Money)
    ensures var fm := FunctionMaps.Put(FunctionMaps.Create(Wrap(b.totals), AddFunction()), m.currency, m).0;
      fm.wrapped == Wrap(AddMoney(b, m).totals)
  {
    var fm0 := FunctionMaps.Create(Wrap(b.totals), AddFunction());
    var fm := FunctionMaps.Put(fm0, m.currency, m).0;
    var r := AddMoney(b, m);
    forall c | c in fm.wrapped ensures fm.wrapped[c] == Some(r.totals[c]) {
      assert FunctionMaps.Get(fm, c) == fm.wrapped[c];
      if c == m.currency && c in b.totals {
        assert FunctionMaps.KeyFunction(fm0, c) == AddFunction();
      }
    }
  }

  /** Two monies of one currency merge into the same total in either order. */
  lemma SameCurrencyCommutes(t: map<Currency, Money>, m1: Money, m2: Money)
    requires m1.currency == m2.currency
    ensures Merged(t[m1.currency := Merged(t, m1)], m2) == Merged(t[m2.currency := Merged(t, m2)], m1)
  {
    var c := m1.currency;
    if c in t {
      var a := t[c].amount;
      AddAssociative(a, m1.amount, m2.amount);
      AddAssociative(a, m2.amount, m1.amount);
    }
    AddCommutative(m1.amount, m2.amount);
  }

  /** Puts commute: the order in which monies are added to a bag does not matter. */
  lemma AddMoneyCommutes(b: MoneyBag, m1: Money, m2: Money)
    ensures AddMoney(AddMoney(b, m1), m2) == AddMoney(AddMoney(b, m2), m1)
  {
    var t := b.totals;
    var c1, c2 := m1.currency, m2.currency;
    if c1 == c2 {
      SameCurrencyCommutes(t, m1, m2);
      assert AddMoney(AddMoney(b, m1), m2).totals == t[c1 := Merged(t[c1 := Merged(t, m1)], m2)];
      assert AddMoney(AddMoney(b, m2), m1).totals == t[c1 := Merged(t[c1 := Merged(t, m2)], m1)];
    } else {
      assert Merged(t[c1 := Merged(t, m1)], m2) == Merged(t, m2);
      assert Merged(t[c2 := Merged(t, m2)], m1) == Merged(t, m1);
      assert t[c1 := Merged(t, m1)][c2 := Merged(t, m2)] == t[c2 := Merged(t, m2)][c1 := Merged(t, m1)];
    }
  }

  /** The step of `add(MoneyBag)`: the other bag's total in currency `c` is added. */
  function AddStep(other: MoneyBag): (MoneyBag, Currency) -> MoneyBag {
    (bag: MoneyBag, c: Currency) => if c in other.totals then AddMoney(bag, other.totals[c]) else bag
  }

  lemma AddStepCommutes(other: MoneyBag)
    ensures forall s, x, y :: AddStep(other)(AddStep(other)(s, x), y) == AddStep(other)(AddStep(other)(s, y), x)
  {
    forall s, x, y ensures AddStep(other)(AddStep(other)(s, x), y) == AddStep(other)(AddStep(other)(s, y), x) {
      if x in other.totals && y in other.totals {
        AddMoneyCommutes(s, other.totals[x], other.totals[y]);
      }
    }
  }

  /**
   * Adding the other bag's totals listed in `xs`, each once: those currencies
   * end up merged, the rest as they were.
   */
  lemma {:induction false} AddStepTotals(acc: MoneyBag, other: MoneyBag, xs: seq<Currency>)
    requires Valid(other)
    requires forall i, j :: 0 <= i < j < |xs| ==> xs[i] != xs[j]
    requires forall i :: 0 <= i < |xs| ==> xs[i] in other.totals
    ensures forall c :: c in Fold(AddStep(other), acc, xs).totals <==> c in acc.totals || c in xs
    ensures forall c :: c in xs ==> Fold(AddStep(other), acc, xs).totals[c] == Merged(acc.totals, other.totals[c])
    ensures forall c :: c in acc.totals && c !in xs ==> Fold(AddStep(other), acc, xs).totals[c] == acc.totals[c]
    decreases |xs|
  {
    if |xs| > 0 {
      var c0, rest := xs[0], xs[1..];
      var next := AddMoney(acc, other.totals[c0]);
      assert AddStep(other)(acc, c0) == next;
      AddStepTotals(next, other, rest);
      var r := Fold(AddStep(other), next, rest);
      assert Fold(AddStep(other), acc, xs) == r;
      assert xs == [c0] + rest;
      assert c0 !in rest;
      forall c | c in xs ensures r.totals[c] == Merged(acc.totals, other.totals[c]) {
        if c != c0 {
          assert c in rest;
          assert other.totals[c].currency == c;
        }
      }
      forall c | c in acc.totals && c !in xs ensures r.totals[c] == acc.totals[c] {
        assert c !in rest && c != c0;
      }
    }
  }

  /**
   * `add(MoneyBag)`: the other bag's totals added one at a time in its
   * iteration order.  A currency in both bags ends with the sum of the two
   * totals; a currency in one bag keeps that bag's total.
   */
  function AddBag(b: MoneyBag, other: MoneyBag, order: seq<Currency>): (r: MoneyBag)
    requires Valid(other) && Enumerates(order, other.totals.Keys)
    ensures r.totals.Keys == b.totals.Keys + other.totals.Keys
    ensures forall c :: c in other.totals ==> r.totals[c] == Merged(b.totals, other.totals[c])
    ensures forall c :: c in b.totals && c !in other.totals ==> r.totals[c] == b.totals[c]
    ensures Valid(b) ==> Valid(r)
  {
    AddStepTotals(b, other, order);
    Fold(AddStep(other), b, order)
  }

  /** `add(MoneyBag)` gives the same bag whatever order the other bag's totals come in. */
  lemma AddBagOrderIndependent(b: MoneyBag, other: MoneyBag, o1: seq<Currency>, o2: seq<Currency>)
    requires Valid(other) && Enumerates(o1, other.totals.Keys) && Enumerates(o2, other.totals.Keys)
    ensures AddBag(b, other, o1) == AddBag(b, other, o2)
  {
    EnumerationsPermute(o1, o2, other.totals.Keys);
    AddStepCommutes(other);
    FoldPermutation(AddStep(other), b, o1, o2);
  }

  /** Adding a bag to the empty bag gives that bag back. */
  lemma EmptyBagAddsNothing(other: MoneyBag, order: seq<Currency>)
    requires Valid(other) && Enumerates(order, other.totals.Keys)
    ensures AddBag(EmptyBag, other, order) == other
  {
    assert AddBag(EmptyBag, other, order).totals == other.totals;
  }

  /** `subtract(Money)`: adds the negated money. */
  function SubtractMoney(b: MoneyBag, m: Money): (r: MoneyBag)
    ensures r == AddMoney(b, Monies.Negate(m))
  {
    AddMoney(b, Monies.Negate(m))
  }

  /**
   * Subtracting a money after adding it restores every total's value, and a
   * currency the bag did not hold before is left with a zero total.
   */
  lemma SubtractUndoesAdd(b: MoneyBag, m: Money)
    requires Valid(b)
    ensures var r := SubtractMoney(AddMoney(b, m), m);
      && r.totals.Keys == b.totals.Keys + {m.currency}
      && (forall c :: c in b.totals ==> SameValue(r.totals[c].amount, b.totals[c].amount))
      && (m.currency !in b.totals ==> IsZero(r.totals[m.currency].amount))
  {
    var c := m.currency;
    var r := SubtractMoney(AddMoney(b, m), m);
    var t := AddMoney(b, m).totals[c].amount;
    var n := Monies.Negate(m).amount;
    var s := r.totals[c].amount;
    assert s == Decimals.Add(t, n);
    if c in b.totals {
      var a := b.totals[c].amount;
      assert t == Decimals.Add(a, m.amount);
      var u := Max(s.scale, a.scale);
      assert Units(s, u) == Units(a, u) + Units(m.amount, u) - Units(m.amount, u);
      SameValueAt(s, a, u);
    } else {
      assert t == m.amount;
      assert Units(s, s.scale) == 0;
    }
  }

  // ---------------------------------------------------------------------------
  // Operations applied to every total
  // ---------------------------------------------------------------------------

  /**
   * `operateOnTotals(operation)`: a new bag holding the operation's result
   * for every total, under the same currency.  A bag stays valid under an
   * operation that keeps each money's currency.
   */
  function MapTotals(b: MoneyBag, f: Money -> Money): (r: MoneyBag)
    ensures r.totals.Keys == b.totals.Keys
    ensures forall c :: c in b.totals ==> r.totals[c] == f(b.totals[c])
    ensures Valid(b) && (forall m :: f(m).currency == m.currency) ==> Valid(r)
  {
    MoneyBag(map c | c in b.totals :: f(b.totals[c]))
  }

  /** `negate()`: every total negated. */
  function Negate(b: MoneyBag): (r: MoneyBag)
    ensures Valid(b) ==> Valid(r)
    ensures r.totals.Keys == b.totals.Keys
    ensures forall c :: c in b.totals ==> Decimals.IsZero(Decimals.Add(r.totals[c].amount, b.totals[c].amount))
  {
    MapTotals(b, Monies.Negate)
  }

  /** Negating twice gives the same bag back. */
  lemma NegateInvolution(b: MoneyBag)
    ensures Negate(Negate(b)) == b
  {
    assert Negate(Negate(b)).totals == b.totals;
  }

  /** `subtract(MoneyBag)`: adds the negated bag. */
  function SubtractBag(b: MoneyBag, other: MoneyBag, order: seq<Currency>): (r: MoneyBag)
    requires Valid(other) && Enumerates(order, other.totals.Keys)
    ensures r == AddBag(b, Negate(other), order)
  {
    AddBag(b, Negate(other), order)
  }

  /** A bag less itself holds a zero total in every one of its currencies. */
  lemma SubtractSelfIsZero(b: MoneyBag, order: seq<Currency>)
    requires Valid(b) && Enumerates(order, b.totals.Keys)
    ensures var r := SubtractBag(b, b, order);
      r.totals.Keys == b.totals.Keys && forall c :: c in r.totals ==> IsZero(r.totals[c].amount)
  {
    forall c | c in SubtractBag(b, b, order).totals ensures IsZero(SubtractBag(b, b, order).totals[c].amount) {
      SubtractSelfTotal(b, order, c);
    }
  }

  lemma SubtractSelfTotal(b: MoneyBag, order: seq<Currency>, c: Currency)
    requires Valid(b) && Enumerates(order, b.totals.Keys) && c in b.totals
    ensures IsZero(SubtractBag(b, b, order).totals[c].amount)
  {
    assert SubtractBag(b, b, order).totals[c] == Merged(b.totals, Negate(b).totals[c]);
    AddNegateIsZero(b.totals[c].amount);
  }

  lemma AddNegateIsZero(a: Decimal)
    ensures IsZero(Decimals.Add(a, Decimals.Negate(a)))
  {
    var s := Decimals.Add(a, Decimals.Negate(a));
    assert Units(s, s.scale) == 0;
  }

  /** `multiply(amount)`: every total multiplied. */
  function Multiply(b: MoneyBag, factor: Decimal): (r: MoneyBag)
    ensures Valid(b) ==> Valid(r)
    ensures r.totals.Keys == b.totals.Keys
    ensures forall c :: c in b.totals ==>
      r.totals[c].amount.unscaled == b.totals[c].amount.unscaled * factor.unscaled
      && r.totals[c].amount.scale == b.totals[c].amount.scale + factor.scale
  {
    MapTotals(b, (m: Money) => Monies.Multiply(m, factor))
  }

  /** `percentage(p)`: the percentage of every total. */
  function PercentageOf(b: MoneyBag, p: Percentage): (r: MoneyBag)
    ensures Valid(b) ==> Valid(r)
    ensures r.totals.Keys == b.totals.Keys
    ensures forall c :: c in b.totals && Percentages.Of(p, b.totals[c].amount).Ok? ==>
      SameValue(Percentages.Of(p, b.totals[c].amount).value, r.totals[c].amount)
  {
    MapTotals(b, (m: Money) => Monies.PercentageOf(m, p))
  }

  /** `compound(p)`: every total compounded. */
  function Compound(b: MoneyBag, p: Percentage): (r: MoneyBag)
    ensures Valid(b) ==> Valid(r)
    ensures r.totals.Keys == b.totals.Keys
    ensures forall c :: c in b.totals && Percentages.Change(p, b.totals[c].amount).Ok? ==>
      SameValue(Percentages.Change(p, b.totals[c].amount).value, r.totals[c].amount)
  {
    MapTotals(b, (m: Money) => Monies.Compound(m, p))
  }

  lemma CompoundTotal(b: MoneyBag, p: Percentage, order: seq<Currency>, c: Currency)
    requires Valid(b) && Enumerates(order, b.totals.Keys) && c in b.totals
    ensures Valid(PercentageOf(b, p))
    ensures Compound(b, p).totals[c] == AddBag(b, PercentageOf(b, p), order).totals[c]
  {
    var m := b.totals[c];
    var part := PercentageOf(b, p).totals[c];
    assert part == Monies.PercentageOf(m, p);
    assert part.amount == Decimals.Multiply(m.amount, p.value);
    assert AddBag(b, PercentageOf(b, p), order).totals[c] == Merged(b.totals, part);
  }

  lemma CompoundSameKeys(b: MoneyBag, p: Percentage, order: seq<Currency>)
    requires Valid(b) && Enumerates(order, b.totals.Keys)
    ensures Valid(PercentageOf(b, p))
    ensures Compound(b, p).totals.Keys == AddBag(b, PercentageOf(b, p), order).totals.Keys
  {
    assert PercentageOf(b, p).totals.Keys == b.totals.Keys;
  }

  /** Compounding a bag is adding its percentage to it. */
  lemma CompoundIsAddingPercentage(b: MoneyBag, p: Percentage, order: seq<Currency>)
    requires Valid(b) && Enumerates(order, b.totals.Keys)
    ensures Valid(PercentageOf(b, p))
    ensures Compound(b, p) == AddBag(b, PercentageOf(b, p), order)
  {
    CompoundSameKeys(b, p, order);
    forall c | c in b.totals ensures Compound(b, p).totals[c] == AddBag(b, PercentageOf(b, p), order).totals[c] {
      CompoundTotal(b, p, order, c);
    }
    SameEntries(Compound(b, p).totals, AddBag(b, PercentageOf(b, p), order).totals);
  }

  /**
   * `divide(amount)`: every total divided.  A zero divisor makes the first
   * total the iteration reaches raise `ArithmeticException`, so only the empty
   * bag survives it.
   */
  function Divide(b: MoneyBag, divisor: Decimal, order: seq<Currency>): (r: Result<MoneyBag, MoneyError>)
    requires Enumerates(order, b.totals.Keys)
    ensures r.Err? <==> IsZero(divisor) && b.totals != map[]
    ensures r.Err? ==> r.error == Monies.Divide(b.totals[order[0]], divisor).error
    ensures r.Ok? ==> r.value.totals.Keys == b.totals.Keys
    ensures r.Ok? ==> forall c :: c in b.totals ==> Monies.Divide(b.totals[c], divisor) == Ok(r.value.totals[c])
    ensures r.Ok? && Valid(b) ==> Valid(r.value)
  {
    EnumeratesEmpty(order, b.totals.Keys);
    if |order| > 0 && IsZero(divisor) then
      Err(Monies.Divide(b.totals[order[0]], divisor).error)
    else
      Ok(MoneyBag(map c | c in b.totals :: Monies.Divide(b.totals[c], divisor).value))
  }

  // ---------------------------------------------------------------------------
  // Value in one currency
  // ---------------------------------------------------------------------------

  /** The step of `valueInCurrency`: the running amount plus the total of currency `c` converted. */
  function ConvertStep(b: MoneyBag, to: Currency, rate: (Currency, Currency) -> Decimal): (Decimal, Currency) -> Decimal {
    (acc: Decimal, c: Currency) =>
      if c in b.totals then Decimals.Add(acc, Monies.ValueInCurrency(b.totals[c], to, rate).amount) else acc
  }

  lemma ConvertStepCommutes(b: MoneyBag, to: Currency, rate: (Currency, Currency) -> Decimal)
    ensures var f := ConvertStep(b, to, rate);
      forall s, x, y :: f(f(s, x), y) == f(f(s, y), x)
  {
    var f := ConvertStep(b, to, rate);
    forall s, x, y ensures f(f(s, x), y) == f(f(s, y), x) {
      if x in b.totals && y in b.totals {
        var u := Monies.ValueInCurrency(b.totals[x], to, rate).amount;
        var v := Monies.ValueInCurrency(b.totals[y], to, rate).amount;
        AddAssociative(s, u, v);
        AddAssociative(s, v, u);
        AddCommutative(u, v);
      }
    }
  }

  /**
   * `valueInCurrency(currency, exchange)`: zero in that currency plus every
   * total's value in it, summed in iteration order.  Each sum is `Money.add`
   * of two monies in the same currency, which never mismatches.
   */
  function ValueInCurrency(b: MoneyBag, to: Currency, rate: (Currency, Currency) -> Decimal, order: seq<Currency>): (r: Money)
    requires Enumerates(order, b.totals.Keys)
    ensures r.currency == to
    ensures b.totals == map[] ==> r == ZeroOf(to)
  {
    EnumeratesEmpty(order, b.totals.Keys);
    Money(Fold(ConvertStep(b, to, rate), Zero, order), to)
  }

  /** A bag holding only a total in the asked currency is worth that total. */
  lemma ValueOfSingleTotal(b: MoneyBag, to: Currency, rate: (Currency, Currency) -> Decimal, order: seq<Currency>)
    requires Enumerates(order, b.totals.Keys)
    requires Valid(b) && b.totals.Keys == {to}
    ensures SameValue(ValueInCurrency(b, to, rate, order).amount, b.totals[to].amount)
  {
    assert order == [to] by {
      assert Enumerates([to], b.totals.Keys);
      EnumerationsPermute(order, [to], b.totals.Keys);
      assert |order| == |multiset(order)| == 1;
      assert order[0] in b.totals.Keys;
    }
    var amount := ValueInCurrency(b, to, rate, order).amount;
    var a := b.totals[to].amount;
    var step := ConvertStep(b, to, rate);
    assert Monies.ValueInCurrency(b.totals[to], to, rate) == b.totals[to];
    assert to in b.totals;
    assert ConvertStep(b, to, rate)(Zero, to) == Decimals.Add(Zero, Monies.ValueInCurrency(b.totals[to], to, rate).amount);
    assert amount == Fold(step, Zero, order);
    assert order[0] == to && order[1..] == [];
    assert amount == Fold(step, step(Zero, to), []);
    var u := Max(amount.scale, a.scale);
    assert Units(amount, u) == Units(a, u);
    SameValueAt(amount, a, u);
  }

  /** The value does not depend on the order in which the totals are visited. */
  lemma ValueInCurrencyOrderIndependent(b: MoneyBag, to: Currency, rate: (Currency, Currency) -> Decimal, o1: seq<Currency>, o2: seq<Currency>)
    requires Enumerates(o1, b.totals.Keys) && Enumerates(o2, b.totals.Keys)
    ensures ValueInCurrency(b, to, rate, o1) == ValueInCurrency(b, to, rate, o2)
  {
    EnumerationsPermute(o1, o2, b.totals.Keys);
    ConvertStepCommutes(b, to, rate);
    FoldPermutation(ConvertStep(b, to, rate), Zero, o1, o2);
  }

  /** Folding over one more element is one more step. */
  lemma {:induction false} FoldAppend<S, X>(step: (S, X) -> S, acc: S, xs: seq<X>, x: X)
    ensures Fold(step, acc, xs + [x]) == step(Fold(step, acc, xs), x)
    decreases |xs|
  {
    if |xs| == 0 {
      assert xs + [x] == [x];
    } else {
      assert (xs + [x])[1..] == xs[1..] + [x];
      FoldAppend(step, step(acc, xs[0]), xs[1..], x);
    }
  }

  /** Two steps that agree on every element visited fold to the same result. */
  lemma {:induction false} FoldAgree<S, X>(f: (S, X) -> S, g: (S, X) -> S, acc: S, xs: seq<X>)
    requires forall s, i :: 0 <= i < |xs| ==> f(s, xs[i]) == g(s, xs[i])
    ensures Fold(f, acc, xs) == Fold(g, acc, xs)
    decreases |xs|
  {
    if |xs| > 0 {
      assert f(acc, xs[0]) == g(acc, xs[0]);
      forall s, i | 0 <= i < |xs[1..]| ensures f(s, xs[1..][i]) == g(s, xs[1..][i]) {
        assert xs[1..][i] == xs[i + 1];
      }
      FoldAgree(f, g, f(acc, xs[0]), xs[1..]);
    }
  }

  /**
   * The value is additive: adding money of a currency the bag does not hold
   * adds that money's value to the bag's, in whatever order the new bag's
   * totals are visited.
   */
  lemma ValueInCurrencyAdditive(b: MoneyBag, m: Money, to: Currency, rate: (Currency, Currency) -> Decimal,
                                order: seq<Currency>, order2: seq<Currency>)
    requires Enumerates(order, b.totals.Keys) && m.currency !in b.totals
    requires Enumerates(order2, AddMoney(b, m).totals.Keys)
    ensures ValueInCurrency(AddMoney(b, m), to, rate, order2).amount
      == Decimals.Add(ValueInCurrency(b, to, rate, order).amount, Monies.ValueInCurrency(m, to, rate).amount)
  {
    var b2 := AddMoney(b, m);
    var c := m.currency;
    var appended := order + [c];
    assert Enumerates(appended, b2.totals.Keys) by {
      forall i | 0 <= i < |order| ensures appended[i] == order[i] && appended[i] != c {
      }
      assert appended[|order|] == c;
      forall k | k in b2.totals.Keys ensures k in appended {
        if k != c {
          assert k in order;
          var i :| 0 <= i < |order| && order[i] == k;
          assert appended[i] == k;
        }
      }
    }
    ValueInCurrencyOrderIndependent(b2, to, rate, order2, appended);
    var f, g := ConvertStep(b2, to, rate), ConvertStep(b, to, rate);
    FoldAppend(f, Zero, order, c);
    forall s, i | 0 <= i < |order| ensures f(s, order[i]) == g(s, order[i]) {
      assert order[i] in b.totals && order[i] != c;
    }
    FoldAgree(f, g, Zero, order);
  }

  // ---------------------------------------------------------------------------
  // Building and comparing bags
  // ---------------------------------------------------------------------------

  /**
   * `containing(monies...)`: the empty bag with each money added in turn; the
   * bag holds one total for each currency among the monies.
   */
  function Containing(ms: seq<Money>): (r: MoneyBag)
    ensures Valid(r)
    ensures r.totals.Keys == set i | 0 <= i < |ms| :: ms[i].currency
  {
    ContainingTotals(EmptyBag, ms);
    Fold(AddMoney, EmptyBag, ms)
  }

  lemma {:induction false} ContainingTotals(acc: MoneyBag, ms: seq<Money>)
    requires Valid(acc)
    ensures Valid(Fold(AddMoney, acc, ms))
    ensures Fold(AddMoney, acc, ms).totals.Keys == acc.totals.Keys + set i | 0 <= i < |ms| :: ms[i].currency
    decreases |ms|
  {
    if |ms| > 0 {
      ContainingTotals(AddMoney(acc, ms[0]), ms[1..]);
      CurrenciesSplit(ms);
    }
  }

  lemma CurrenciesSplit(ms: seq<Money>)
    requires |ms| > 0
    ensures (set i | 0 <= i < |ms| :: ms[i].currency)
      == {ms[0].currency} + set i | 0 <= i < |ms[1..]| :: ms[1..][i].currency
  {
    var tail := set i | 0 <= i < |ms[1..]| :: ms[1..][i].currency;
    var all := set i | 0 <= i < |ms| :: ms[i].currency;
    forall c | c in all ensures c in {ms[0].currency} + tail {
      var i :| 0 <= i < |ms| && ms[i].currency == c;
      if i > 0 { assert ms[1..][i - 1].currency == c; }
    }
    forall c | c in tail ensures c in all {
      var i :| 0 <= i < |ms[1..]| && ms[1..][i].currency == c;
      assert ms[i + 1].currency == c;
    }
  }

  /** The monies can be given in any order. */
  lemma ContainingOrderIndependent(ms: seq<Money>, ns: seq<Money>)
    requires multiset(ms) == multiset(ns)
    ensures Containing(ms) == Containing(ns)
  {
    forall s, x, y ensures AddMoney(AddMoney(s, x), y) == AddMoney(AddMoney(s, y), x) {
      AddMoneyCommutes(s, x, y);
    }
    FoldPermutation(AddMoney, EmptyBag, ms, ns);
  }

  /**
   * `equals` as written: `HashMap.equals` on the totals, so the same
   * currencies, and each total of this bag `Money.equals` (as written, see
   * `Monies.Equals`) the other bag's total in that currency.
   */
  predicate Equals(b: MoneyBag, other: MoneyBag) {
    && b.totals.Keys == other.totals.Keys
    && forall c :: c in b.totals ==> Monies.Equals(b.totals[c], other.totals[c])
  }

  /** The evidently intended `equals`: the same currencies, with totals equal as `Monies.EqualsIntended` reads money. */
  predicate EqualsIntended(b: MoneyBag, other: MoneyBag) {
    && b.totals.Keys == other.totals.Keys
    && forall c :: c in b.totals ==> Monies.EqualsIntended(b.totals[c], other.totals[c])
  }

  /**
   * `HashMap.equals` asks for the same size and every key of this map in the
   * other; for finite maps that is having the same keys.
   */
  lemma SameKeysBySize(b: MoneyBag, other: MoneyBag)
    ensures (|b.totals| == |other.totals| && forall c :: c in b.totals ==> c in other.totals)
        <==> b.totals.Keys == other.totals.Keys
  {
    if |b.totals| == |other.totals| && forall c :: c in b.totals ==> c in other.totals {
      assert b.totals.Keys <= other.totals.Keys;
      assert |b.totals.Keys| == |other.totals.Keys|;
      SubsetOfSameSize(b.totals.Keys, other.totals.Keys);
    }
  }

  lemma {:induction false} SubsetOfSameSize<K>(x: set<K>, y: set<K>)
    requires x <= y && |x| == |y|
    ensures x == y
    decreases |x|
  {
    if x != {} {
      var k :| k in x;
      SubsetOfSameSize(x - {k}, y - {k});
      assert x == (x - {k}) + {k};
      assert y == (y - {k}) + {k};
    } else {
      assert |y| == 0;
    }
  }

  /** Where no total of the receiver is zero, the two readings agree. */
  lemma EqualsAgreeOffZero(b: MoneyBag, other: MoneyBag)
    requires forall c :: c in b.totals ==> !IsZero(b.totals[c].amount)
    ensures Equals(b, other) <==> EqualsIntended(b, other)
  {
    forall c | c in b.totals && c in other.totals
      ensures Monies.Equals(b.totals[c], other.totals[c]) <==> Monies.EqualsIntended(b.totals[c], other.totals[c])
    {
      Monies.EqualsAgreeOffZero(b.totals[c], other.totals[c]);
    }
  }

  /**
   * As written, a bag holding zero dollars equals a bag holding five dollars,
   * but not the other way round: bag equality is not symmetric.  The intended
   * reading tells them apart both ways.
   */
  lemma EqualsMisjudgesZeroTotal(usd: Currency)
    ensures var zero, five := MoneyBag(map[usd := Money(Decimal(0, 0), usd)]), MoneyBag(map[usd := Money(Decimal(5, 0), usd)]);
      && Equals(zero, five) && !Equals(five, zero)
      && !EqualsIntended(zero, five) && !EqualsIntended(five, zero)
  {
    var zero, five := MoneyBag(map[usd := Money(Decimal(0, 0), usd)]), MoneyBag(map[usd := Money(Decimal(5, 0), usd)]);
    assert five.totals[usd].amount == Decimal(5, 0);
    assert Pow10(0) == 1;
    assert !Monies.Equals(five.totals[usd], zero.totals[usd]);
    assert !Monies.EqualsIntended(zero.totals[usd], five.totals[usd]);
  }

  /** The intended bag equality is an equivalence. */
  lemma EqualsIntendedEquivalence(a: MoneyBag, b: MoneyBag, c: MoneyBag)
    ensures EqualsIntended(a, a)
    ensures EqualsIntended(a, b) ==> EqualsIntended(b, a)
    ensures EqualsIntended(a, b) && EqualsIntended(b, c) ==> EqualsIntended(a, c)
  {
    forall k | k in a.totals && k in b.totals && k in c.totals {
      Monies.EqualsIntendedEquivalence(a.totals[k], b.totals[k], c.totals[k]);
    }
  }

  // ---------------------------------------------------------------------------
  // Text form
  // ---------------------------------------------------------------------------

  /** Currencies strictly in `BY_CURRENCY_ORDER`, the alphabetical order of their codes. */
  predicate Ascending(cs: seq<Currency>) {
    forall i, j :: 0 <= i < j < |cs| ==> CompareCodes(cs[i].code, cs[j].code) < 0
  }

  /** One step of the sort: `c` placed before the first currency that follows it. */
  function Insert(c: Currency, cs: seq<Currency>): (r: seq<Currency>)
    ensures multiset(r) == multiset(cs) + multiset{c}
  {
    if |cs| == 0 then [c]
    else if CompareCodes(c.code, cs[0].code) < 0 then [c] + cs
    else
      assert cs == [cs[0]] + cs[1..];
      [cs[0]] + Insert(c, cs[1..])
  }

  /** `Collections.sort(values, BY_CURRENCY_ORDER)` on the currencies of the totals. */
  function Sort(cs: seq<Currency>): (r: seq<Currency>)
    ensures multiset(r) == multiset(cs)
  {
    if |cs| == 0 then []
    else
      assert cs == [cs[0]] + cs[1..];
      Insert(cs[0], Sort(cs[1..]))
  }

  lemma {:induction false} InsertAscending(c: Currency, cs: seq<Currency>)
    requires Ascending(cs) && c !in cs
    ensures Ascending(Insert(c, cs))
    decreases |cs|
  {
    if |cs| > 0 {
      CompareCodesAntisymmetric(c.code, cs[0].code);
      var r := Insert(c, cs);
      if CompareCodes(c.code, cs[0].code) < 0 {
        forall j | 1 <= j < |r| ensures CompareCodes(c.code, r[j].code) < 0 {
          if j > 1 { CompareCodesTransitive(c.code, cs[0].code, cs[j - 1].code); }
        }
      } else {
        InsertAscending(c, cs[1..]);
        forall j | 1 <= j < |r| ensures CompareCodes(cs[0].code, r[j].code) < 0 {
          assert r[j] in multiset(Insert(c, cs[1..]));
          if r[j] != c {
            assert r[j] in cs[1..];
          }
        }
      }
    }
  }

  lemma {:induction false} SortAscending(cs: seq<Currency>)
    requires forall i, j :: 0 <= i < j < |cs| ==> cs[i] != cs[j]
    ensures Ascending(Sort(cs))
    decreases |cs|
  {
    if |cs| > 0 {
      SortAscending(cs[1..]);
      assert cs[0] !in multiset(Sort(cs[1..]));
      InsertAscending(cs[0], Sort(cs[1..]));
    }
  }

  /** The first of an ascending sequence comes before any other element. */
  lemma FirstIsLeast(xs: seq<Currency>, c: Currency)
    requires Ascending(xs) && c in multiset(xs) && c != xs[0]
    ensures CompareCodes(xs[0].code, c.code) < 0
  {
    var i :| 0 <= i < |xs| && xs[i] == c;
  }

  /** Dropping the first of an ascending sequence leaves an ascending sequence of the other elements. */
  lemma AscendingTail(xs: seq<Currency>)
    requires Ascending(xs) && |xs| > 0
    ensures Ascending(xs[1..])
    ensures multiset(xs[1..]) == multiset(xs) - multiset{xs[0]}
  {
    assert xs == [xs[0]] + xs[1..];
  }

  /** Two strictly ascending sequences of the same currencies are the same sequence. */
  lemma {:induction false} AscendingUnique(xs: seq<Currency>, ys: seq<Currency>)
    requires Ascending(xs) && Ascending(ys) && multiset(xs) == multiset(ys)
    ensures xs == ys
    decreases |xs|
  {
    if |xs| == 0 {
      assert |ys| == |multiset(ys)| == 0;
    } else {
      assert |ys| == |multiset(ys)| == |xs|;
      if xs[0] != ys[0] {
        FirstIsLeast(xs, ys[0]);
        FirstIsLeast(ys, xs[0]);
        CompareCodesAntisymmetric(xs[0].code, ys[0].code);
        assert false;
      }
      AscendingTail(xs);
      AscendingTail(ys);
      AscendingUnique(xs[1..], ys[1..]);
    }
  }

  /** The totals of the listed currencies. */
  function Values(b: MoneyBag, cs: seq<Currency>): (vs: seq<Money>)
    requires forall i :: 0 <= i < |cs| ==> cs[i] in b.totals
    ensures |vs| == |cs| && forall i :: 0 <= i < |cs| ==> vs[i] == b.totals[cs[i]]
  {
    seq(|cs|, i requires 0 <= i < |cs| => b.totals[cs[i]])
  }

  /** `AbstractCollection.toString`'s element part: the texts separated by ", ". */
  function Joined(ms: seq<Money>): string {
    if |ms| == 0 then ""
    else if |ms| == 1 then MoneyText(ms[0])
    else MoneyText(ms[0]) + ", " + Joined(ms[1..])
  }

  /**
   * `toString()`: the totals sorted by currency code and written as a list,
   * "[15 EUR, 20 JPY, 10 USD]"; "[]" for the empty bag.
   */
  function BagText(b: MoneyBag, order: seq<Currency>): (s: string)
    requires Enumerates(order, b.totals.Keys)
    ensures |s| >= 2 && s[0] == '[' && s[|s| - 1] == ']'
    ensures b.totals == map[] ==> s == "[]"
  {
    EnumeratesEmpty(order, b.totals.Keys);
    var sorted := Sort(order);
    forall i | 0 <= i < |sorted| ensures sorted[i] in b.totals {
      assert sorted[i] in multiset(order);
    }
    "[" + Joined(Values(b, sorted)) + "]"
  }

  /** The text form lists the totals in currency order whatever order the map iterates in. */
  lemma BagTextOrderIndependent(b: MoneyBag, o1: seq<Currency>, o2: seq<Currency>)
    requires Enumerates(o1, b.totals.Keys) && Enumerates(o2, b.totals.Keys)
    ensures BagText(b, o1) == BagText(b, o2)
  {
    EnumerationsPermute(o1, o2, b.totals.Keys);
    SortAscending(o1);
    SortAscending(o2);
    AscendingUnique(Sort(o1), Sort(o2));
  }

  /** The text form lists each total, in strictly ascending currency order. */
  lemma BagTextLists(b: MoneyBag, order: seq<Currency>)
    requires Enumerates(order, b.totals.Keys)
    ensures var sorted := Sort(order);
      && Ascending(sorted) && Enumerates(sorted, b.totals.Keys)
      && BagText(b, order) == "[" + Joined(Values(b, sorted)) + "]"
  {
    var sorted := Sort(order);
    SortAscending(order);
    DistinctCounts(order);
    forall i, j | 0 <= i < j < |sorted| ensures sorted[i] != sorted[j] {
      CompareCodesAntisymmetric(sorted[i].code, sorted[j].code);
    }
    forall k | k in b.totals ensures k in sorted {
      assert k in multiset(order);
    }
    forall i | 0 <= i < |sorted| ensures sorted[i] in b.totals {
      assert sorted[i] in multiset(order);
    }
  }

  // ---------------------------------------------------------------------------
  // Examples
  // ---------------------------------------------------------------------------

  /** Ten dollars, ten pounds and fifty yen owed, as built by `add` and `subtract`. */
  lemma BuiltBag(usd: Currency, gbp: Currency, jpy: Currency)
    requires usd != gbp && usd != jpy && gbp != jpy
    ensures SubtractMoney(AddMoney(AddMoney(EmptyBag, Money(Decimal(10, 0), usd)), Money(Decimal(10, 0), gbp)),
                          Money(Decimal(50, 0), jpy))
      == SampleBag(usd, gbp, jpy)
  {
    var b1 := AddMoney(EmptyBag, Money(Decimal(10, 0), usd));
    assert b1.totals == map[usd := Money(Decimal(10, 0), usd)];
    var b2 := AddMoney(b1, Money(Decimal(10, 0), gbp));
    assert b2.totals == map[usd := Money(Decimal(10, 0), usd), gbp := Money(Decimal(10, 0), gbp)];
    assert Monies.Negate(Money(Decimal(50, 0), jpy)) == Money(Decimal(-50, 0), jpy);
    SameEntries(SubtractMoney(b2, Money(Decimal(50, 0), jpy)).totals, SampleBag(usd, gbp, jpy).totals);
  }

  /** The running sums 10, 30.00 and 25.00. */
  lemma FirstSum()
    ensures Decimals.Add(Zero, Decimal(10, 0)) == Decimal(10, 0)
  {
  }

  lemma SecondSum()
    ensures Decimals.Add(Decimal(10, 0), Decimal(2000, 2)) == Decimal(3000, 2)
  {
    assert Pow10(2) == 100;
  }

  lemma ThirdSum()
    ensures Decimals.Add(Decimal(3000, 2), Decimal(-50, 1)) == Decimal(2500, 2)
  {
    assert Pow10(1) == 10;
  }

  /** The bag of ten dollars, ten pounds and fifty yen owed. */
  function SampleBag(usd: Currency, gbp: Currency, jpy: Currency): MoneyBag {
    MoneyBag(map[usd := Money(Decimal(10, 0), usd), gbp := Money(Decimal(10, 0), gbp),
                 jpy := Money(Decimal(-50, 0), jpy)])
  }

  /** Each step of the sum in dollars. */
  lemma SampleSteps(usd: Currency, gbp: Currency, jpy: Currency, rate: (Currency, Currency) -> Decimal)
    requires usd != gbp && usd != jpy && gbp != jpy
    requires rate(gbp, usd) == Decimal(200, 2) && rate(jpy, usd) == Decimal(1, 1)
    ensures var step := ConvertStep(SampleBag(usd, gbp, jpy), usd, rate);
      && step(Zero, usd) == Decimal(10, 0)
      && step(Decimal(10, 0), gbp) == Decimal(3000, 2)
      && step(Decimal(3000, 2), jpy) == Decimal(2500, 2)
  {
    DollarStep(usd, gbp, jpy, rate, Zero);
    FirstSum();
    PoundStep(usd, gbp, jpy, rate, Decimal(10, 0));
    SecondSum();
    YenStep(usd, gbp, jpy, rate, Decimal(3000, 2));
    ThirdSum();
  }

  /** The dollars count as they are. */
  lemma DollarStep(usd: Currency, gbp: Currency, jpy: Currency, rate: (Currency, Currency) -> Decimal, acc: Decimal)
    requires usd != gbp && usd != jpy && gbp != jpy
    ensures ConvertStep(SampleBag(usd, gbp, jpy), usd, rate)(acc, usd) == Decimals.Add(acc, Decimal(10, 0))
  {
    assert SampleBag(usd, gbp, jpy).totals[usd] == Money(Decimal(10, 0), usd);
  }

  /** Ten pounds at 2.00 are 20.00 dollars. */
  lemma PoundStep(usd: Currency, gbp: Currency, jpy: Currency, rate: (Currency, Currency) -> Decimal, acc: Decimal)
    requires usd != gbp && usd != jpy && gbp != jpy
    requires rate(gbp, usd) == Decimal(200, 2)
    ensures ConvertStep(SampleBag(usd, gbp, jpy), usd, rate)(acc, gbp) == Decimals.Add(acc, Decimal(2000, 2))
  {
    assert SampleBag(usd, gbp, jpy).totals[gbp] == Money(Decimal(10, 0), gbp);
    assert Monies.ValueInCurrency(Money(Decimal(10, 0), gbp), usd, rate).amount == Decimal(2000, 2);
  }

  /** Fifty yen owed at 0.1 are 5.0 dollars owed. */
  lemma YenStep(usd: Currency, gbp: Currency, jpy: Currency, rate: (Currency, Currency) -> Decimal, acc: Decimal)
    requires usd != gbp && usd != jpy && gbp != jpy
    requires rate(jpy, usd) == Decimal(1, 1)
    ensures ConvertStep(SampleBag(usd, gbp, jpy), usd, rate)(acc, jpy) == Decimals.Add(acc, Decimal(-50, 1))
  {
    assert SampleBag(usd, gbp, jpy).totals[jpy] == Money(Decimal(-50, 0), jpy);
    assert Monies.ValueInCurrency(Money(Decimal(-50, 0), jpy), usd, rate).amount == Decimal(-50, 1);
  }

  /** Three steps of a fold. */
  lemma FoldThree<S, X>(step: (S, X) -> S, acc: S, x: X, y: X, z: X)
    ensures Fold(step, acc, [x, y, z]) == step(step(step(acc, x), y), z)
  {
    assert [x, y, z][0] == x && [x, y, z][1..] == [y, z];
    assert Fold(step, acc, [x, y, z]) == Fold(step, step(acc, x), [y, z]);
    assert [y, z][0] == y && [y, z][1..] == [z];
    assert Fold(step, step(acc, x), [y, z]) == Fold(step, step(step(acc, x), y), [z]);
    assert [z][0] == z && [z][1..] == [];
    assert Fold(step, step(step(acc, x), y), [z]) == Fold(step, step(step(step(acc, x), y), z), []);
  }

  /**
   * Ten dollars and ten pounds less fifty yen are worth 25 dollars when a
   * pound buys 2.00 dollars and a yen 0.1 dollars, in whatever order the
   * totals are visited.
   */
  lemma ValueExample(usd: Currency, gbp: Currency, jpy: Currency, rate: (Currency, Currency) -> Decimal, order: seq<Currency>)
    requires usd != gbp && usd != jpy && gbp != jpy
    requires rate(gbp, usd) == Decimal(200, 2) && rate(jpy, usd) == Decimal(1, 1)
    requires Enumerates(order, {usd, gbp, jpy})
    ensures SameValue(ValueInCurrency(SampleBag(usd, gbp, jpy), usd, rate, order).amount, Decimal(25, 0))
  {
    var b := SampleBag(usd, gbp, jpy);
    var fixed := [usd, gbp, jpy];
    assert Enumerates(fixed, b.totals.Keys);
    ValueInCurrencyOrderIndependent(b, usd, rate, order, fixed);
    SampleSteps(usd, gbp, jpy, rate);
    FoldThree(ConvertStep(b, usd, rate), Zero, usd, gbp, jpy);
    SameValueAt(Decimal(2500, 2), Decimal(25, 0), 2);
  }

  /** The codes EUR, JPY and USD in alphabetical order. */
  lemma CodeOrder()
    ensures CompareCodes("EUR", "JPY") < 0 && CompareCodes("JPY", "USD") < 0 && CompareCodes("EUR", "USD") < 0
  {
  }

  /** Three currencies given in descending order come out ascending. */
  lemma SortThree(x: Currency, y: Currency, z: Currency)
    requires CompareCodes(z.code, y.code) < 0 && CompareCodes(y.code, x.code) < 0 && CompareCodes(z.code, x.code) < 0
    ensures Sort([x, y, z]) == [z, y, x]
  {
    CompareCodesAntisymmetric(z.code, y.code);
    CompareCodesAntisymmetric(y.code, x.code);
    CompareCodesAntisymmetric(z.code, x.code);
    assert [x, y, z][0] == x && [x, y, z][1..] == [y, z];
    assert [y, z][0] == y && [y, z][1..] == [z];
    assert [z][0] == z && [z][1..] == [];
    assert Sort([z]) == [z];
    assert Sort([y, z]) == Insert(y, [z]) == [z] + Insert(y, []) == [z, y];
    assert [z, y][0] == z && [z, y][1..] == [y];
    assert Insert(x, [y]) == [y] + Insert(x, []) == [y, x];
    assert Insert(x, [z, y]) == [z] + Insert(x, [y]) == [z, y, x];
  }

  /** Three monies written as a list. */
  lemma JoinedThree(a: Money, b: Money, c: Money)
    ensures Joined([a, b, c]) == MoneyText(a) + ", " + (MoneyText(b) + ", " + MoneyText(c))
  {
    assert [a, b, c][1..] == [b, c] && [b, c][1..] == [c];
    assert Joined([c]) == MoneyText(c);
    assert Joined([b, c]) == MoneyText(b) + ", " + MoneyText(c);
  }

  lemma EuroText()
    ensures MoneyText(Money(Decimal(15, 0), Currency("EUR"))) == "15 EUR"
  {
    assert NatText(15) == "15";
  }

  lemma YenText()
    ensures MoneyText(Money(Decimal(20, 0), Currency("JPY"))) == "20 JPY"
  {
    assert NatText(20) == "20";
  }

  lemma DollarText()
    ensures MoneyText(Money(Decimal(10, 0), Currency("USD"))) == "10 USD"
  {
    assert NatText(10) == "10";
  }

  /** The text form lists the totals along any strictly ascending enumeration of the currencies. */
  lemma BagTextByAscending(b: MoneyBag, order: seq<Currency>, listed: seq<Currency>)
    requires Enumerates(order, b.totals.Keys) && Enumerates(listed, b.totals.Keys) && Ascending(listed)
    ensures forall i :: 0 <= i < |listed| ==> listed[i] in b.totals
    ensures BagText(b, order) == "[" + Joined(Values(b, listed)) + "]"
  {
    BagTextLists(b, order);
    var sorted := Sort(order);
    EnumerationsPermute(sorted, listed, b.totals.Keys);
    AscendingUnique(sorted, listed);
  }

  /** Three currencies in ascending code order enumerate the keys they make up. */
  lemma ThreeAscending(eur: Currency, jpy: Currency, usd: Currency)
    requires CompareCodes(eur.code, jpy.code) < 0 && CompareCodes(jpy.code, usd.code) < 0
    requires CompareCodes(eur.code, usd.code) < 0
    ensures Ascending([eur, jpy, usd]) && Enumerates([eur, jpy, usd], {usd, jpy, eur})
  {
  }

  /** A bag of three totals whose codes ascend as fifteen, twenty, ten is listed in that order. */
  lemma SortedText(order: seq<Currency>, ten: Money, twenty: Money, fifteen: Money)
    requires CompareCodes(fifteen.currency.code, twenty.currency.code) < 0
    requires CompareCodes(twenty.currency.code, ten.currency.code) < 0
    requires CompareCodes(fifteen.currency.code, ten.currency.code) < 0
    requires Enumerates(order, {ten.currency, twenty.currency, fifteen.currency})
    ensures var b := MoneyBag(map[ten.currency := ten, twenty.currency := twenty, fifteen.currency := fifteen]);
      BagText(b, order) == "[" + Joined([fifteen, twenty, ten]) + "]"
  {
    var usd, jpy, eur := ten.currency, twenty.currency, fifteen.currency;
    var b := MoneyBag(map[usd := ten, jpy := twenty, eur := fifteen]);
    assert usd != jpy && jpy != eur && eur != usd;
    assert b.totals.Keys == {usd, jpy, eur};
    var listed := [eur, jpy, usd];
    ThreeAscending(eur, jpy, usd);
    BagTextByAscending(b, order, listed);
    assert Values(b, listed) == [fifteen, twenty, ten];
  }

  /** The text form of ten dollars, twenty yen and fifteen euros lists them by currency code. */
  lemma TextExample(order: seq<Currency>)
    requires Enumerates(order, {Currency("USD"), Currency("JPY"), Currency("EUR")})
    ensures var b := MoneyBag(map[Currency("USD") := Money(Decimal(10, 0), Currency("USD")),
                                  Currency("JPY") := Money(Decimal(20, 0), Currency("JPY")),
                                  Currency("EUR") := Money(Decimal(15, 0), Currency("EUR"))]);
      BagText(b, order) == "[15 EUR, 20 JPY, 10 USD]"
  {
    var ten, twenty, fifteen := Money(Decimal(10, 0), Currency("USD")), Money(Decimal(20, 0), Currency("JPY")),
                                Money(Decimal(15, 0), Currency("EUR"));
    CodeOrder();
    SortedText(order, ten, twenty, fifteen);
    JoinedThree(fifteen, twenty, ten);
    ListedText();
  }

  /** The three sample totals written as a list. */
  lemma ListedText()
    ensures var fifteen, twenty, ten := Money(Decimal(15, 0), Currency("EUR")), Money(Decimal(20, 0), Currency("JPY")),
                                        Money(Decimal(10, 0), Currency("USD"));
      "[" + (MoneyText(fifteen) + ", " + (MoneyText(twenty) + ", " + MoneyText(ten))) + "]" == "[15 EUR, 20 JPY, 10 USD]"
  {
    EuroText();
    YenText();
    DollarText();
    assert "[" + ("15 EUR" + ", " + ("20 JPY" + ", " + "10 USD")) + "]" == "[15 EUR, 20 JPY, 10 USD]";
  }

  /** `containing(ten, ten, five)` is `containing(ten, five)` with `ten` added once more. */
  lemma ContainingRepeat(ten: Money, five: Money)
    ensures Containing([ten, ten, five]) == AddMoney(Containing([ten, five]), ten)
  {
    var once := AddMoney(EmptyBag, ten);
    FoldThree(AddMoney, EmptyBag, ten, ten, five);
    assert [ten, five][1..] == [five] && [five][1..] == [];
    assert Containing([ten, five]) == Fold(AddMoney, once, [five]) == Fold(AddMoney, AddMoney(once, five), []);
    AddMoneyCommutes(once, ten, five);
  }
}
