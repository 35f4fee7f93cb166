/**
 * pantheon-common's `CommonUtil`: the bounds test `between`, the counting
 * quantifiers built on `inBetween`, membership by iteration, `getValue` with a
 * default and the map inversion `reverse`.  Iterables are sequences, Java
 * `Predicate`s and `Comparator`s are Dafny functions.
 */
module CommonUtil {
  import opened Wrappers

  /**
   * `between(bound1, bound2, item, strict, comparator)`: the lower bound is
   * `bound1` when it compares below `bound2`, else `bound2`; the item is
   * between when it lies strictly inside, or (unless strict) compares equal to
   * either bound.
   */
  function Between<T>(bound1: T, bound2: T, item: T, strict: bool, compare: (T, T) -> int): bool {
    var low := if compare(bound1, bound2) < 0 then bound1 else bound2;
    var high := if compare(bound1, bound2) < 0 then bound2 else bound1;
    (!strict && (compare(bound1, item) == 0 || compare(bound2, item) == 0))
    || (compare(low, item) < 0 && compare(item, high) < 0)
  }

  /** The comparator that orders values by an integer key. */
  function KeyOrder<T>(key: T -> int): (T, T) -> int {
    (a: T, b: T) => Sign(key(a) - key(b))
  }

  /** Under a key order, the inclusive test is interval membership of the key, whatever the order of the bounds. */
  lemma BetweenByKey<T>(key: T -> int, bound1: T, bound2: T, item: T)
    ensures Between(bound1, bound2, item, false, KeyOrder(key))
        <==> Min(key(bound1), key(bound2)) <= key(item) <= Max(key(bound1), key(bound2))
  {
  }

  /** Under a key order, the strict test is open-interval membership of the key. */
  lemma StrictBetweenByKey<T>(key: T -> int, bound1: T, bound2: T, item: T)
    ensures Between(bound1, bound2, item, true, KeyOrder(key))
        <==> Min(key(bound1), key(bound2)) < key(item) < Max(key(bound1), key(bound2))
  {
  }

  /** Swapping the bounds never changes the answer under a key order. */
  lemma BetweenSymmetric<T>(key: T -> int, bound1: T, bound2: T, item: T, strict: bool)
    ensures Between(bound1, bound2, item, strict, KeyOrder(key)) == Between(bound2, bound1, item, strict, KeyOrder(key))
  {
    BetweenByKey(key, bound1, bound2, item);
    BetweenByKey(key, bound2, bound1, item);
  }

  /** Only the supplied comparator matters: by last digit, 16 is not between 0 and 25 but 34 is. */
  lemma BetweenLastDigitExample()
    ensures !Between(0, 25, 16, false, KeyOrder((x: int) => x % 10))
    ensures !Between(25, 0, 16, false, KeyOrder((x: int) => x % 10))
    ensures Between(0, 25, 34, false, KeyOrder((x: int) => x % 10))
    ensures Between(25, 0, 34, false, KeyOrder((x: int) => x % 10))
  {
    var key := (x: int) => x % 10;
    BetweenByKey(key, 0, 25, 16);
    BetweenByKey(key, 25, 0, 16);
    BetweenByKey(key, 0, 25, 34);
    BetweenByKey(key, 25, 0, 34);
  }

  /** How many items satisfy the predicate. */
  function CountWhere<T>(items: seq<T>, p: T -> bool): (n: nat)
    ensures n <= |items|
  {
    if |items| == 0 then 0
    else CountWhere(items[..|items| - 1], p) + (if p(items[|items| - 1]) then 1 else 0)
  }

  lemma {:induction false} CountWherePrefix<T>(items: seq<T>, p: T -> bool, i: nat)
    requires i <= |items|
    ensures CountWhere(items[..i], p) <= CountWhere(items, p)
    decreases |items| - i
  {
    if i < |items| {
      CountWherePrefix(items, p, i + 1);
      assert items[..i + 1][..i] == items[..i];
    } else {
      assert items[..i] == items;
    }
  }

  /** Some item satisfies the predicate exactly when the count is positive. */
  lemma {:induction false} CountWherePositive<T>(items: seq<T>, p: T -> bool)
    ensures CountWhere(items, p) > 0 <==> exists i :: 0 <= i < |items| && p(items[i])
    decreases |items|
  {
    if |items| > 0 {
      var init := items[..|items| - 1];
      CountWherePositive(init, p);
      if exists i :: 0 <= i < |init| && p(init[i]) {
        var i :| 0 <= i < |init| && p(init[i]);
        assert p(items[i]);
      }
    }
  }

  /**
   * `inBetween(items, predicate, atLeast, atMost)`: whether the number of items
   * satisfying the predicate lies in [atLeast, atMost].  The loop stops early
   * once the count exceeds `atMost`, or reaches `atLeast` when `atMost` is
   * `Integer.MAX_VALUE`.  Beyond `Integer.MAX_VALUE` matches the Java counter
   * would overflow, so the open-ended answers are stated for counts below it.
   */
  method InBetween<T>(items: seq<T>, p: T -> bool, atLeast: int, atMost: int) returns (r: Result<bool, Failure>)
    requires IsJavaInt(atLeast) && IsJavaInt(atMost)
    ensures r.Err? <==> atLeast < 0 || atMost < 0 || atMost < atLeast
    ensures r.Ok? && atMost == MaxInt && atLeast > 0 ==> r.value == (atLeast <= CountWhere(items, p))
    ensures r.Ok? && atMost < MaxInt ==> r.value == (atLeast <= CountWhere(items, p) <= atMost)
    ensures r.Ok? && CountWhere(items, p) <= MaxInt ==> r.value == (atLeast <= CountWhere(items, p) <= atMost)
  {
    if atLeast < 0 || atMost < 0 || atMost < atLeast {
      return Err(IllegalArgument("atLeast and atMost values must not be negative and atMost cannot be less then atLeast."));
    }
    var count := 0;
    var i := 0;
    while i < |items|
      invariant 0 <= i <= |items|
      invariant count == CountWhere(items[..i], p)
      invariant count <= atMost
      invariant atMost == MaxInt && atLeast > 0 ==> count < atLeast
    {
      assert items[..i + 1][..i] == items[..i];
      if p(items[i]) {
        count := count + 1;
      }
      i := i + 1;
      if (count == atLeast && atMost == MaxInt) || count > atMost {
        CountWherePrefix(items, p, i);
        break;
      }
    }
    if i == |items| {
      assert items[..i] == items;
    }
    return Ok(count >= atLeast && count <= atMost);
  }

  /** `any`: some item satisfies the predicate (false on no items). */
  method Any<T>(items: seq<T>, p: T -> bool) returns (r: bool)
    ensures r <==> exists i :: 0 <= i < |items| && p(items[i])
  {
    var result := InBetween(items, p, 1, MaxInt);
    CountWherePositive(items, p);
    r := result.value;
  }

  /** `none`: no item satisfies the predicate (true on no items). */
  method None<T>(items: seq<T>, p: T -> bool) returns (r: bool)
    ensures r <==> forall i :: 0 <= i < |items| ==> !p(items[i])
  {
    var result := InBetween(items, p, 0, 0);
    CountWherePositive(items, p);
    r := result.value;
  }

  /** `atLeast`: at least `n` items satisfy the predicate; a negative `n` is an `IllegalArgumentException`. */
  method AtLeast<T>(items: seq<T>, p: T -> bool, n: int) returns (r: Result<bool, Failure>)
    requires IsJavaInt(n)
    ensures r.Err? <==> n < 0
    ensures r.Ok? && n > 0 ==> r.value == (n <= CountWhere(items, p))
    ensures r.Ok? && n == 0 && CountWhere(items, p) <= MaxInt ==> r.value
  {
    r := InBetween(items, p, n, MaxInt);
  }

  /** `atMost`: at most `n` items satisfy the predicate; a negative `n` is an `IllegalArgumentException`. */
  method AtMost<T>(items: seq<T>, p: T -> bool, n: int) returns (r: Result<bool, Failure>)
    requires IsJavaInt(n)
    ensures r.Err? <==> n < 0
    ensures r.Ok? && (n < MaxInt || CountWhere(items, p) <= MaxInt) ==> r.value == (CountWhere(items, p) <= n)
  {
    r := InBetween(items, p, 0, n);
  }

  /** `all`: the loop that returns false at the first item failing the predicate. */
  function All<T>(items: seq<T>, p: T -> bool): (r: bool)
    ensures r <==> forall i :: 0 <= i < |items| ==> p(items[i])
  {
    if |items| == 0 then true
    else if !p(items[0]) then false
    else
      assert forall i :: 1 <= i < |items| ==> items[i] == items[1..][i - 1];
      All(items[1..], p)
  }

  /** `contains` on an iterable: the loop that returns true at the first element equal to the item. */
  function Contains<T(==)>(items: seq<T>, item: T): (r: bool)
    ensures r <==> item in items
  {
    if |items| == 0 then false
    else if items[0] == item then true
    else
      assert item in items[1..] <==> item in items;
      Contains(items[1..], item)
  }

  /**
   * `getValue(map, key, defaultValue)`: the value stored for `key`, or the
   * default when there is none; a null key is a `NullPointerException`.
   */
  function GetValue<K, V>(m: map<K, V>, key: Option<K>, default: V): (r: Result<V, Failure>)
    ensures r.Err? <==> key.None?
    ensures key.Some? && key.value in m ==> r.value == m[key.value]
    ensures key.Some? && key.value !in m ==> r.value == default
  {
    match key
    case None => Err(NullPointer("Key cannot be null"))
    case Some(k) => Ok(if k in m then m[k] else default)
  }

  /** A value stored under one key is read back, and storing under another key does not disturb it. */
  lemma GetValueAfterUpdate<K, V>(m: map<K, V>, k: K, other: K, v: V, default: V)
    ensures GetValue(m[k := v], Some(k), default) == Ok(v)
    ensures other != k ==> GetValue(m[k := v], Some(other), default) == GetValue(m, Some(other), default)
  {
  }

  ghost predicate Injective<K, V>(m: map<K, V>) {
    forall a, b :: a in m && b in m && m[a] == m[b] ==> a == b
  }

  /**
   * `reverse(map)`: a map from each value back to a key holding it.  Entries
   * are visited in an unspecified order, so for a value held by several keys
   * any one of them may win; for an injective map the result is the inverse.
   */
  method Reverse<K, V(==)>(m: map<K, V>) returns (r: map<V, K>)
    ensures r.Keys == m.Values
    ensures forall v :: v in r ==> r[v] in m && m[r[v]] == v
    ensures Injective(m) ==> forall k :: k in m ==> m[k] in r && r[m[k]] == k
  {
    r := map[];
    var rest := m.Keys;
    while rest != {}
      invariant rest <= m.Keys
      invariant forall k :: k in m && k !in rest ==> m[k] in r
      invariant forall v :: v in r ==> r[v] in m && m[r[v]] == v
      decreases |rest|
    {
      var k :| k in rest;
      r := r[m[k] := k];
      rest := rest - {k};
    }
    assert r.Keys == m.Values by {
      forall v | v in m.Values ensures v in r {
        var k :| k in m && m[k] == v;
      }
    }
  }
}
