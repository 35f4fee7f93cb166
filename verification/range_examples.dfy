/**
 * Integer range rules, as the range behaviour is exercised: stepping by one
 * with `Integer.compareTo`, and stepping by two with a comparator that
 * returns the difference.
 */
module RangeExamples {
  import opened Wrappers
  import opened Ranges

  /** A rule on integers stepping by `increment`, compared by sign. */
  function IntRule(tag: nat, increment: int): RangeRule<int> {
    RangeRule(Custom(tag), (a: int, b: int) => Sign(a - b), (x: int) => x + increment, (x: int) => x - increment)
  }

  /** The stepping-by-two rule, whose comparator returns the plain difference. */
  function ByTwoRule(tag: nat): RangeRule<int> {
    RangeRule(Custom(tag), (a: int, b: int) => a - b, (x: int) => x + 2, (x: int) => x - 2)
  }

  /** A positive increment satisfies the rule contract, and `prior` and `next` are inverse. */
  lemma IntRuleValid(tag: nat, increment: int)
    requires increment > 0
    ensures ValidRule(IntRule(tag, increment)) && ExactInverse(IntRule(tag, increment))
  {
    var compare := IntRule(tag, increment).compare;
    forall a, b ensures Sign(compare(a, b)) == -Sign(compare(b, a)) {
      assert compare(a, b) == Sign(a - b) && compare(b, a) == Sign(b - a);
    }
    forall a, b, c | compare(a, b) <= 0 && compare(b, c) <= 0 ensures compare(a, c) <= 0 {
    }
  }

  lemma ByTwoRuleValid(tag: nat)
    ensures ValidRule(ByTwoRule(tag)) && ExactInverse(ByTwoRule(tag))
  {
  }

  /** The by-one comparator orders by sign of the difference. */
  lemma IntCompare(tag: nat, increment: int, a: int, b: int)
    ensures IntRule(tag, increment).compare(a, b) == Sign(a - b)
    ensures a < b ==> Sign(a - b) == -1
    ensures a > b ==> Sign(a - b) == 1
  {
  }

  /** Item `k` of an integer range is `from` moved `k` increments towards `to`. */
  lemma {:induction false} IntItems(r: Range<int>, increment: int, k: nat)
    requires forall x :: r.rule.next(x) == x + increment && r.rule.prior(x) == x - increment
    ensures Item(r, k) == if DirectionOf(r) == Forwards then r.from + k * increment else r.from - k * increment
    decreases k
  {
    if k > 0 {
      IntItems(r, increment, k - 1);
    }
  }

  /** 1 to 10 by one yields 1, 2, ..., 10. */
  lemma OneToTen(tag: nat)
    ensures Finite(Range(1, 10, IntRule(tag, 1)))
    ensures Elements(Range(1, 10, IntRule(tag, 1))) == seq(10, i => i + 1)
  {
    var r := Range(1, 10, IntRule(tag, 1));
    var s := seq(10, i => i + 1);
    IntCompare(tag, 1, 1, 10);
    assert DirectionOf(r) == Forwards;
    forall i: nat | i <= 10 ensures Item(r, i) == i + 1 {
      IntItems(r, 1, i);
    }
    IntCompare(tag, 1, 11, 10);
    assert !HasNextAt(r, 10);
    ElementsUnique(r, s);
  }

  /** 10 to 1 by one yields 10, 9, ..., 1, and is the reverse of 1 to 10. */
  lemma TenToOne(tag: nat)
    ensures Finite(Range(10, 1, IntRule(tag, 1)))
    ensures Elements(Range(10, 1, IntRule(tag, 1))) == seq(10, i => 10 - i)
    ensures Reverse(Range(1, 10, IntRule(tag, 1))) == Range(10, 1, IntRule(tag, 1))
  {
    var r := Range(10, 1, IntRule(tag, 1));
    var s := seq(10, i => 10 - i);
    IntCompare(tag, 1, 10, 1);
    assert DirectionOf(r) == Backwards;
    forall i: nat | i <= 10 ensures Item(r, i) == 10 - i {
      IntItems(r, 1, i);
    }
    IntCompare(tag, 1, 0, 1);
    assert !HasNextAt(r, 10);
    ElementsUnique(r, s);
  }

  /**
   * 0 to 10 by two yields the even numbers only: 1 lies within the range but is
   * not one of its items, while one step outside either end is not within.
   */
  lemma ByTwoWithinButNotContained(tag: nat)
    ensures Finite(Range(0, 10, ByTwoRule(tag)))
    ensures Elements(Range(0, 10, ByTwoRule(tag))) == [0, 2, 4, 6, 8, 10]
    ensures 1 !in Elements(Range(0, 10, ByTwoRule(tag)))
    ensures HasWithin(Range(0, 10, ByTwoRule(tag)), 1)
    ensures !HasWithin(Range(0, 10, ByTwoRule(tag)), -2) && !HasWithin(Range(0, 10, ByTwoRule(tag)), 12)
  {
    var r := Range(0, 10, ByTwoRule(tag));
    var s := [0, 2, 4, 6, 8, 10];
    forall i: nat | i <= 6 ensures Item(r, i) == 2 * i {
      IntItems(r, 2, i);
    }
    assert !HasNextAt(r, 6);
    ElementsUnique(r, s);
  }

  /** `stepsFrom(0, n)` with an increment of one lands on `n`, in either direction. */
  lemma {:induction false} StepsFromZero(tag: nat, n: int)
    ensures StepsRef(IntRule(tag, 1), 0, n) == n
    decreases if n < 0 then -n else n
  {
    if n > 0 {
      StepsFromZero(tag, n - 1);
    } else if n < 0 {
      StepsFromZero(tag, n + 1);
    }
  }
}
