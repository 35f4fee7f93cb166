/**
 * pantheon-common's `Range`: an immutable `(from, to, rule)` triple that is
 * iterated by stepping from `from` with the rule's `next` (or `prior`, when
 * `from` compares above `to`) for as long as the current item has not passed
 * `to`.  A `RangeRule` is a comparator with `next`/`prior`; the natural rule of
 * `Rangeable` values is one more rule, identified as `Natural`.
 *
 * The list iterator is a cursor `(item, index)`: `next` returns the item and
 * steps forwards, `previous` steps back and returns the new item.
 */
module Ranges {
  import opened Wrappers
  import opened Decimals
  import CommonUtil

  /**
   * What `equals` on range rules can tell apart: the single natural rule of
   * `Rangeable` values, a `NumberRangeRule` by the type and the stripped value
   * of its increment, and any other rule by its identity.
   */
  datatype RuleId = Natural | Numeric(kind: NumberType, increment: Decimal) | Custom(tag: nat)

  datatype RangeRule<!T> = RangeRule(id: RuleId, compare: (T, T) -> int, next: T -> T, prior: T -> T)

  datatype Direction = Forwards | Backwards

  /** `Range.create(from, to, rule)`; the effective rule is kept (the natural one when none is given). */
  datatype Range<!T> = Range(from: T, to: T, rule: RangeRule<T>)

  /** The iterator's state: the item `next` would return, and `nextIndex()`. */
  datatype Cursor<T> = Cursor(item: T, index: int)

  // ---------------------------------------------------------------------
  // The contract of a rule, stated as axioms the callers must provide
  // ---------------------------------------------------------------------

  /** The `Comparator` contract: reflexive, antisymmetric in sign, transitive. */
  ghost predicate Comparator<T(!new)>(compare: (T, T) -> int) {
    && (forall a :: compare(a, a) == 0)
    && (forall a, b :: Sign(compare(a, b)) == -Sign(compare(b, a)))
    && (forall a, b, c :: compare(a, b) <= 0 && compare(b, c) <= 0 ==> compare(a, c) <= 0)
  }

  /** The `RangeRule` contract: `next(x)` compares strictly after `x`, `prior(x)` strictly before. */
  ghost predicate ValidRule<T(!new)>(rule: RangeRule<T>) {
    && Comparator(rule.compare)
    && (forall x :: rule.compare(x, rule.next(x)) < 0)
    && (forall x :: rule.compare(x, rule.prior(x)) > 0)
  }

  /** `prior` undoes `next` and `next` undoes `prior`. */
  ghost predicate ExactInverse<T(!new)>(rule: RangeRule<T>) {
    && (forall x :: rule.prior(rule.next(x)) == x)
    && (forall x :: rule.next(rule.prior(x)) == x)
  }

  // ---------------------------------------------------------------------
  // Direction and the iterator
  // ---------------------------------------------------------------------

  /** `BACKWARDS` exactly when `from` compares above `to`. */
  function DirectionOf<T>(r: Range<T>): Direction {
    if r.rule.compare(r.from, r.to) > 0 then Backwards else Forwards
  }

  /** `nextInDirection`. */
  function StepForth<T>(r: Range<T>, x: T): T {
    if DirectionOf(r) == Forwards then r.rule.next(x) else r.rule.prior(x)
  }

  /** `priorInDirection`. */
  function StepBack<T>(r: Range<T>, x: T): T {
    if DirectionOf(r) == Forwards then r.rule.prior(x) else r.rule.next(x)
  }

  /** The item after `k` calls of `next` on a fresh iterator. */
  function Item<T>(r: Range<T>, k: nat): T {
    if k == 0 then r.from else StepForth(r, Item(r, k - 1))
  }

  /** `iterator()`: positioned at `from`, index 0. */
  function Iterator<T>(r: Range<T>): Cursor<T> {
    Cursor(r.from, 0)
  }

  /** `hasNext()`: the item has not passed `to` in the range's direction. */
  predicate HasNext<T>(r: Range<T>, c: Cursor<T>) {
    if DirectionOf(r) == Forwards then r.rule.compare(c.item, r.to) <= 0
    else r.rule.compare(c.item, r.to) >= 0
  }

  /** `next()`: returns the current item and steps forth. */
  function Next<T>(r: Range<T>, c: Cursor<T>): (T, Cursor<T>) {
    (c.item, Cursor(StepForth(r, c.item), c.index + 1))
  }

  /** `hasPrevious()`: the item lies strictly beyond `from` in the range's direction. */
  predicate HasPrevious<T>(r: Range<T>, c: Cursor<T>) {
    if DirectionOf(r) == Forwards then r.rule.compare(c.item, r.from) > 0
    else r.rule.compare(c.item, r.from) < 0
  }

  /** `previous()`: steps back and returns the new item. */
  function Previous<T>(r: Range<T>, c: Cursor<T>): (T, Cursor<T>) {
    var item := StepBack(r, c.item);
    (item, Cursor(item, c.index - 1))
  }

  function NextIndex<T>(c: Cursor<T>): int {
    c.index
  }

  function PreviousIndex<T>(c: Cursor<T>): int {
    c.index - 1
  }

  /** The cursor after `k` calls of `next`. */
  function Advance<T>(r: Range<T>, c: Cursor<T>, k: nat): Cursor<T>
    decreases k
  {
    if k == 0 then c else Advance(r, Next(r, c).1, k - 1)
  }

  /** `hasNext()` after `k` calls of `next`. */
  predicate HasNextAt<T>(r: Range<T>, k: nat) {
    HasNext(r, Cursor(Item(r, k), k))
  }

  /** A fresh iterator always has a next item, `from`, and has no previous one. */
  lemma IteratorStart<T(!new)>(r: Range<T>)
    requires ValidRule(r.rule)
    ensures HasNext(r, Iterator(r)) && Next(r, Iterator(r)).0 == r.from
    ensures !HasPrevious(r, Iterator(r))
    ensures NextIndex(Iterator(r)) == 0 && PreviousIndex(Iterator(r)) == -1
  {
  }

  /** `k` calls of `next` on a fresh iterator reach item `k` at index `k`. */
  lemma {:induction false} AdvanceFromStart<T>(r: Range<T>, k: nat)
    ensures Advance(r, Iterator(r), k) == Cursor(Item(r, k), k)
  {
    AdvanceShift(r, Iterator(r), k);
    ItemCursor(r, k);
  }

  lemma {:induction false} AdvanceShift<T>(r: Range<T>, c: Cursor<T>, k: nat)
    ensures k > 0 ==> Advance(r, c, k) == Next(r, Advance(r, c, k - 1)).1
    decreases k
  {
    if k > 1 {
      AdvanceShift(r, Next(r, c).1, k - 1);
    }
  }

  lemma {:induction false} ItemCursor<T>(r: Range<T>, k: nat)
    ensures Advance(r, Iterator(r), k) == Cursor(Item(r, k), k)
    decreases k
  {
    if k > 0 {
      ItemCursor(r, k - 1);
      AdvanceShift(r, Iterator(r), k);
    }
  }

  /** `previous()` right after `next()` returns the same item and restores the iterator. */
  lemma NextThenPrevious<T(!new)>(r: Range<T>, c: Cursor<T>)
    requires ExactInverse(r.rule)
    ensures Previous(r, Next(r, c).1) == (Next(r, c).0, c)
  {
  }

  /** `next()` right after `previous()` returns the same item and restores the iterator. */
  lemma PreviousThenNext<T(!new)>(r: Range<T>, c: Cursor<T>)
    requires ExactInverse(r.rule)
    ensures Next(r, Previous(r, c).1) == (Previous(r, c).0, c)
  {
  }

  // ---------------------------------------------------------------------
  // The order in the range's direction
  // ---------------------------------------------------------------------

  /** The rule's comparison, flipped for a backwards range. */
  function Ahead<T>(r: Range<T>, a: T, b: T): int {
    if DirectionOf(r) == Forwards then r.rule.compare(a, b) else r.rule.compare(b, a)
  }

  lemma AheadFacts<T(!new)>(r: Range<T>, a: T, b: T, c: T)
    requires ValidRule(r.rule)
    ensures Ahead(r, a, a) == 0
    ensures Sign(Ahead(r, a, b)) == -Sign(Ahead(r, b, a))
    ensures Ahead(r, a, b) <= 0 && Ahead(r, b, c) <= 0 ==> Ahead(r, a, c) <= 0
    ensures Ahead(r, a, StepForth(r, a)) < 0 && Ahead(r, StepBack(r, a), a) < 0
  {
    assert Sign(r.rule.compare(a, b)) == -Sign(r.rule.compare(b, a));
    assert r.rule.compare(a, r.rule.prior(a)) > 0;
    assert Sign(r.rule.compare(a, r.rule.prior(a))) == -Sign(r.rule.compare(r.rule.prior(a), a));
    assert r.rule.compare(a, r.rule.next(a)) < 0;
    assert Sign(r.rule.compare(a, r.rule.next(a))) == -Sign(r.rule.compare(r.rule.next(a), a));
  }

  /** `from` never lies beyond `to` in the range's own direction. */
  lemma FromBeforeTo<T(!new)>(r: Range<T>)
    requires ValidRule(r.rule)
    ensures Ahead(r, r.from, r.to) <= 0
  {
    assert Sign(r.rule.compare(r.from, r.to)) == -Sign(r.rule.compare(r.to, r.from));
  }

  lemma HasNextAhead<T(!new)>(r: Range<T>, c: Cursor<T>)
    requires ValidRule(r.rule)
    ensures HasNext(r, c) <==> Ahead(r, c.item, r.to) <= 0
  {
    assert Sign(r.rule.compare(c.item, r.to)) == -Sign(r.rule.compare(r.to, c.item));
  }

  lemma AheadStrictTrans<T(!new)>(r: Range<T>, a: T, b: T, c: T)
    requires ValidRule(r.rule)
    requires Ahead(r, a, b) <= 0 && Ahead(r, b, c) < 0
    ensures Ahead(r, a, c) < 0
  {
    AheadFacts(r, a, b, c);
    if Ahead(r, a, c) == 0 {
      AheadFacts(r, c, a, b);
      AheadFacts(r, b, c, a);
    }
  }

  /** Items are strictly increasing in the range's direction. */
  lemma {:induction false} ItemsAscend<T(!new)>(r: Range<T>, i: nat, j: nat)
    requires ValidRule(r.rule)
    requires i <= j
    ensures Ahead(r, Item(r, i), Item(r, j)) <= 0
    ensures i < j ==> Ahead(r, Item(r, i), Item(r, j)) < 0
    decreases j
  {
    if i == j {
      AheadFacts(r, Item(r, i), Item(r, i), Item(r, i));
    } else {
      ItemsAscend(r, i, j - 1);
      var b := Item(r, j - 1);
      AheadFacts(r, b, b, b);
      assert Item(r, j) == StepForth(r, b);
      AheadStrictTrans(r, Item(r, i), b, Item(r, j));
    }
  }

  // ---------------------------------------------------------------------
  // The elements of a range, and `asList`
  // ---------------------------------------------------------------------

  /** The iteration ends: after some number of steps `hasNext()` is false. */
  ghost predicate Finite<T>(r: Range<T>) {
    exists n: nat :: !HasNextAt(r, n)
  }

  ghost function FirstStop<T>(r: Range<T>, k: nat, bound: nat): (n: nat)
    requires k <= bound && !HasNextAt(r, bound)
    ensures k <= n <= bound && !HasNextAt(r, n)
    ensures forall i :: k <= i < n ==> HasNextAt(r, i)
    decreases bound - k
  {
    if !HasNextAt(r, k) then k else FirstStop(r, k + 1, bound)
  }

  /** The items a for-each loop over the range yields, in order. */
  ghost function Elements<T>(r: Range<T>): (s: seq<T>)
    requires Finite(r)
    ensures forall i :: 0 <= i < |s| ==> s[i] == Item(r, i) && HasNextAt(r, i)
    ensures !HasNextAt(r, |s|)
  {
    var bound: nat :| !HasNextAt(r, bound);
    var n := FirstStop(r, 0, bound);
    seq(n, i requires 0 <= i < n => Item(r, i))
  }

  /** The yielded items are the items up to the first that has passed `to`, and only those. */
  lemma ElementsUnique<T>(r: Range<T>, s: seq<T>)
    requires Finite(r)
    requires forall i :: 0 <= i < |s| ==> s[i] == Item(r, i) && HasNextAt(r, i)
    requires !HasNextAt(r, |s|)
    ensures s == Elements(r)
  {
    var e := Elements(r);
    assert |s| == |e|;
  }

  /** `asList()`: the items of a for-each loop, collected in order. */
  method AsList<T>(r: Range<T>) returns (items: seq<T>)
    requires Finite(r)
    ensures items == Elements(r)
  {
    ghost var bound: nat :| !HasNextAt(r, bound);
    var c := Iterator(r);
    items := [];
    while HasNext(r, c)
      invariant c == Cursor(Item(r, |items|), |items|)
      invariant |items| <= bound
      invariant forall i :: 0 <= i < |items| ==> items[i] == Item(r, i) && HasNextAt(r, i)
      decreases bound - |items|
    {
      var step := Next(r, c);
      items := items + [step.0];
      c := step.1;
    }
    ElementsUnique(r, items);
  }

  // ---------------------------------------------------------------------
  // Walking back with `previous`
  // ---------------------------------------------------------------------

  /** After `k` calls of `next`, `hasPrevious()` holds exactly when `k` is positive. */
  lemma HasPreviousAt<T(!new)>(r: Range<T>, k: nat)
    requires ValidRule(r.rule)
    ensures HasPrevious(r, Cursor(Item(r, k), k)) <==> k > 0
  {
    ItemsAscend(r, 0, k);
    AheadFacts(r, r.from, Item(r, k), Item(r, k));
  }

  /** After `k > 0` calls of `next`, `previous()` returns item `k - 1` and leaves the cursor on it. */
  lemma PreviousAt<T(!new)>(r: Range<T>, k: nat)
    requires ExactInverse(r.rule) && k > 0
    ensures Previous(r, Cursor(Item(r, k), k)) == (Item(r, k - 1), Cursor(Item(r, k - 1), k - 1))
  {
  }

  /** `m` calls of `previous()`: the items they return, in order, and the cursor they leave. */
  function Retreat<T>(r: Range<T>, c: Cursor<T>, m: nat): (seq<T>, Cursor<T>)
    decreases m
  {
    if m == 0 then ([], c)
    else
      var back := Retreat(r, c, m - 1);
      var step := Previous(r, back.1);
      (back.0 + [step.0], step.1)
  }

  /** After `n` calls of `next`, `m <= n` calls of `previous` return items `n - 1` down to `n - m` and leave the cursor on item `n - m`. */
  lemma {:induction false} RetreatFrom<T(!new)>(r: Range<T>, n: nat, m: nat)
    requires ExactInverse(r.rule) && m <= n
    ensures Retreat(r, Cursor(Item(r, n), n), m).1 == Cursor(Item(r, n - m), n - m)
    ensures |Retreat(r, Cursor(Item(r, n), n), m).0| == m
    ensures forall i :: 0 <= i < m ==> Retreat(r, Cursor(Item(r, n), n), m).0[i] == Item(r, n - 1 - i)
    decreases m
  {
    if m > 0 {
      RetreatFrom(r, n, m - 1);
      PreviousAt(r, n - m + 1);
    }
  }

  /**
   * `while (hasPrevious()) previous()` after `n` calls of `next`: `hasPrevious`
   * holds before each of the first `n` calls and fails after them, the items
   * come back in reverse order, and the iterator ends where a fresh one
   * starts, with `previousIndex()` -1.
   */
  lemma WalkBack<T(!new)>(r: Range<T>, n: nat)
    requires ValidRule(r.rule) && ExactInverse(r.rule)
    ensures forall m :: 0 <= m < n ==> HasPrevious(r, Retreat(r, Cursor(Item(r, n), n), m).1)
    ensures !HasPrevious(r, Retreat(r, Cursor(Item(r, n), n), n).1)
    ensures var items := Retreat(r, Cursor(Item(r, n), n), n).0;
      |items| == n && forall i :: 0 <= i < n ==> items[i] == Item(r, n - 1 - i)
    ensures Retreat(r, Cursor(Item(r, n), n), n).1 == Iterator(r)
    ensures PreviousIndex(Retreat(r, Cursor(Item(r, n), n), n).1) == -1
  {
    forall m | 0 <= m < n ensures HasPrevious(r, Retreat(r, Cursor(Item(r, n), n), m).1) {
      RetreatFrom(r, n, m);
      HasPreviousAt(r, n - m);
    }
    RetreatFrom(r, n, n);
    HasPreviousAt(r, 0);
  }

  // ---------------------------------------------------------------------
  // hasWithin and contains
  // ---------------------------------------------------------------------

  /** `hasWithin(item)`: `between(from, to, item)` under the rule's comparator, bounds included. */
  predicate HasWithin<T>(r: Range<T>, x: T) {
    CommonUtil.Between(r.from, r.to, x, false, r.rule.compare)
  }

  /** An item is within exactly when it lies between `from` and `to` in the range's direction. */
  lemma WithinAhead<T(!new)>(r: Range<T>, x: T)
    requires ValidRule(r.rule)
    ensures HasWithin(r, x) <==> Ahead(r, r.from, x) <= 0 && Ahead(r, x, r.to) <= 0
  {
    var cmp := r.rule.compare;
    assert Sign(cmp(r.from, r.to)) == -Sign(cmp(r.to, r.from));
    assert Sign(cmp(r.from, x)) == -Sign(cmp(x, r.from));
    assert Sign(cmp(r.to, x)) == -Sign(cmp(x, r.to));
  }

  /** Every item the iteration yields is within the range. */
  lemma ElementsWithin<T(!new)>(r: Range<T>)
    requires ValidRule(r.rule) && Finite(r)
    ensures forall x :: x in Elements(r) ==> HasWithin(r, x)
  {
    var e := Elements(r);
    forall i | 0 <= i < |e| ensures HasWithin(r, e[i]) {
      ItemsAscend(r, 0, i);
      HasNextAhead(r, Cursor(Item(r, i), i));
      WithinAhead(r, e[i]);
    }
  }

  /** One step before `from` and one step past `to` are not within the range. */
  lemma OutsideNotWithin<T(!new)>(r: Range<T>)
    requires ValidRule(r.rule)
    ensures !HasWithin(r, StepBack(r, r.from))
    ensures !HasWithin(r, StepForth(r, r.to))
  {
    AheadFacts(r, r.from, StepBack(r, r.from), r.from);
    AheadFacts(r, r.to, StepForth(r, r.to), r.to);
    AheadFacts(r, StepForth(r, r.to), r.to, r.to);
    AheadFacts(r, StepBack(r, r.from), r.from, r.from);
    WithinAhead(r, StepBack(r, r.from));
    WithinAhead(r, StepForth(r, r.to));
  }

  /** `contains(item)`: iterate until an item equal to it is found. */
  method Contains<T(==)>(r: Range<T>, x: T) returns (found: bool)
    requires Finite(r)
    ensures found <==> x in Elements(r)
  {
    ghost var bound: nat :| !HasNextAt(r, bound);
    ghost var e := Elements(r);
    var c := Iterator(r);
    while HasNext(r, c)
      invariant 0 <= c.index <= |e| && c == Cursor(Item(r, c.index), c.index)
      invariant forall i :: 0 <= i < c.index ==> e[i] != x
      decreases |e| - c.index
    {
      var step := Next(r, c);
      if step.0 == x {
        return true;
      }
      c := step.1;
    }
    found := false;
  }

  /** Containment implies being within, but not conversely (see the stepping-by-two example). */
  lemma ContainsWithin<T(!new)>(r: Range<T>, x: T)
    requires ValidRule(r.rule) && Finite(r)
    requires x in Elements(r)
    ensures HasWithin(r, x)
  {
    ElementsWithin(r);
  }

  // ---------------------------------------------------------------------
  // reverse and equals
  // ---------------------------------------------------------------------

  /** `reverse()`: `create(to, from, rule)`. */
  function Reverse<T>(r: Range<T>): (rev: Range<T>)
    ensures rev.from == r.to && rev.to == r.from && rev.rule == r.rule
  {
    Range(r.to, r.from, r.rule)
  }

  lemma ReverseTwice<T>(r: Range<T>)
    ensures Reverse(Reverse(r)) == r
  {
  }

  /** `equals`: same `from`, same `to`, and equal rules. */
  predicate RangeEquals<T(==)>(a: Range<T>, b: Range<T>) {
    a.from == b.from && a.to == b.to && a.rule.id == b.rule.id
  }

  /** A range whose iteration reaches `to` exactly yields, reversed, the same items in reverse order. */
  lemma ReverseElements<T(!new)>(r: Range<T>, n: nat)
    requires ValidRule(r.rule) && ExactInverse(r.rule)
    requires Item(r, n) == r.to
    ensures Finite(r) && Finite(Reverse(r))
    ensures |Elements(r)| == n + 1 && |Elements(Reverse(r))| == n + 1
    ensures forall i :: 0 <= i <= n ==> Elements(Reverse(r))[i] == Elements(r)[n - i]
  {
    ReachedElements(r, n);
    if n == 0 {
      assert Reverse(r) == r;
    } else {
      ReverseDirection(r, n);
      ReverseReached(r, n);
      ReverseElementsAt(r, n);
    }
  }

  lemma ReverseElementsAt<T(!new)>(r: Range<T>, n: nat)
    requires ValidRule(r.rule) && ExactInverse(r.rule)
    requires Item(r, n) == r.to && n > 0
    requires DirectionOf(Reverse(r)) != DirectionOf(r)
    requires Item(Reverse(r), n) == Reverse(r).to
    ensures Finite(r) && Finite(Reverse(r))
    ensures |Elements(r)| == n + 1 && |Elements(Reverse(r))| == n + 1
    ensures forall i :: 0 <= i <= n ==> Elements(Reverse(r))[i] == Elements(r)[n - i]
  {
    ReachedElements(r, n);
    ReachedElements(Reverse(r), n);
    forall i | 0 <= i <= n ensures Elements(Reverse(r))[i] == Elements(r)[n - i] {
      ReverseItems(r, n, i);
    }
  }

  lemma ReverseDirection<T(!new)>(r: Range<T>, n: nat)
    requires ValidRule(r.rule)
    requires Item(r, n) == r.to && n > 0
    ensures DirectionOf(Reverse(r)) != DirectionOf(r)
  {
    ItemsAscend(r, 0, n);
    assert Sign(r.rule.compare(r.from, r.to)) == -Sign(r.rule.compare(r.to, r.from));
  }

  lemma ReverseReached<T(!new)>(r: Range<T>, n: nat)
    requires ExactInverse(r.rule)
    requires Item(r, n) == r.to && n > 0
    requires DirectionOf(Reverse(r)) != DirectionOf(r)
    ensures Item(Reverse(r), n) == Reverse(r).to
  {
    ReverseItems(r, n, n);
  }

  /** When item `n` is `to`, the iteration yields exactly items 0 to `n`. */
  lemma ReachedElements<T(!new)>(r: Range<T>, n: nat)
    requires ValidRule(r.rule)
    requires Item(r, n) == r.to
    ensures Finite(r) && |Elements(r)| == n + 1
    ensures forall i :: 0 <= i <= n ==> Elements(r)[i] == Item(r, i)
  {
    forall i: nat | i <= n ensures HasNextAt(r, i) {
      ReachedHasNext(r, n, i);
    }
    ReachedStops(r, n);
    ElementsUnique(r, seq(n + 1, i requires 0 <= i <= n => Item(r, i)));
  }

  lemma ReachedHasNext<T(!new)>(r: Range<T>, n: nat, i: nat)
    requires ValidRule(r.rule)
    requires Item(r, n) == r.to && i <= n
    ensures HasNextAt(r, i)
  {
    ItemsAscend(r, i, n);
    HasNextAhead(r, Cursor(Item(r, i), i));
  }

  lemma ReachedStops<T(!new)>(r: Range<T>, n: nat)
    requires ValidRule(r.rule)
    requires Item(r, n) == r.to
    ensures !HasNextAt(r, n + 1)
  {
    AheadFacts(r, r.to, r.to, r.to);
    AheadFacts(r, Item(r, n + 1), r.to, r.to);
    HasNextAhead(r, Cursor(Item(r, n + 1), n + 1));
  }

  lemma {:induction false} ReverseItems<T(!new)>(r: Range<T>, n: nat, i: nat)
    requires ExactInverse(r.rule)
    requires Item(r, n) == r.to && i <= n
    requires DirectionOf(Reverse(r)) != DirectionOf(r)
    ensures Item(Reverse(r), i) == Item(r, n - i)
    decreases i
  {
    if i > 0 {
      ReverseItems(r, n, i - 1);
      assert Item(r, n - i + 1) == StepForth(r, Item(r, n - i));
    }
  }

  // ---------------------------------------------------------------------
  // stepsFrom
  // ---------------------------------------------------------------------

  /** `steps` applications of `next` (or `-steps` of `prior` for negative `steps`). */
  function StepsRef<T>(rule: RangeRule<T>, x: T, steps: int): T
    decreases if steps < 0 then -steps else steps
  {
    if steps == 0 then x
    else if steps > 0 then rule.next(StepsRef(rule, x, steps - 1))
    else rule.prior(StepsRef(rule, x, steps + 1))
  }

  /** `Math.abs` on an `int`: `Integer.MIN_VALUE` is its own absolute value. */
  function JavaAbs(x: int): (r: int)
    requires IsJavaInt(x)
    ensures x != MinInt ==> r >= 0 && (r == x || r == -x)
    ensures x == MinInt ==> r < 0
  {
    if x == MinInt then x else if x < 0 then -x else x
  }

  /**
   * `stepsFrom(start, steps, rule)`: a null start or rule throws; otherwise
   * the loop applies `next` `steps` times, or `prior` `|steps|` times.  As
   * `Math.abs(Integer.MIN_VALUE)` is negative, that one count takes no step.
   */
  method StepsFrom<T>(start: Option<T>, steps: int, rule: Option<RangeRule<T>>) returns (r: Result<T, Failure>)
    requires IsJavaInt(steps)
    ensures r.Err? <==> start.None? || rule.None?
    ensures r.Err? ==> r.error == NullPointer("start and rule cannot be null.")
    ensures r.Ok? && steps != MinInt ==> r.value == StepsRef(rule.value, start.value, steps)
    ensures r.Ok? && steps == MinInt ==> r.value == start.value
  {
    if start.None? || rule.None? {
      return Err(NullPointer("start and rule cannot be null."));
    }
    var value := start.value;
    var increment := steps > 0;
    var absoluteSteps := JavaAbs(steps);
    var i := 0;
    while i < absoluteSteps
      invariant 0 <= i && (absoluteSteps >= 0 ==> i <= absoluteSteps) && (absoluteSteps < 0 ==> i == 0)
      invariant value == StepsRef(rule.value, start.value, if increment then i else -i)
    {
      value := if increment then rule.value.next(value) else rule.value.prior(value);
      i := i + 1;
    }
    if absoluteSteps >= 0 {
      assert i == absoluteSteps;
    }
    return Ok(value);
  }

  lemma {:induction false} StepsSucc<T(!new)>(rule: RangeRule<T>, x: T, a: int)
    requires ExactInverse(rule)
    ensures StepsRef(rule, x, a + 1) == rule.next(StepsRef(rule, x, a))
    ensures StepsRef(rule, x, a - 1) == rule.prior(StepsRef(rule, x, a))
  {
  }

  /** Stepping `a` then `b` steps is stepping `a + b` steps, for a rule whose `prior` and `next` are inverse. */
  lemma {:induction false} StepsCompose<T(!new)>(rule: RangeRule<T>, x: T, a: int, b: int)
    requires ExactInverse(rule)
    ensures StepsRef(rule, StepsRef(rule, x, a), b) == StepsRef(rule, x, a + b)
    decreases if b < 0 then -b else b
  {
    if b > 0 {
      StepsCompose(rule, x, a, b - 1);
      StepsSucc(rule, x, a + b - 1);
    } else if b < 0 {
      StepsCompose(rule, x, a, b + 1);
      StepsSucc(rule, x, a + b + 1);
    }
  }

  /** Walking a range is stepping its rule from `from` in the range's direction. */
  lemma {:induction false} ItemSteps<T>(r: Range<T>, k: nat)
    ensures Item(r, k) == StepsRef(r.rule, r.from, if DirectionOf(r) == Forwards then k as int else -(k as int))
    decreases k
  {
    if k > 0 {
      ItemSteps(r, k - 1);
    }
  }
}
