/**
 * pantheon-common's `FunctionMap`: a map wrapper whose `put` merges a new value
 * into an existing one through a per-key `PutFunction`, or the map's default
 * one, instead of replacing it.  The wrapped map's entries are the map's
 * entries; a stored `null` is `None`.
 */
module FunctionMaps {
  import opened Wrappers

  /** `PutFunction.determineValue(oldValue, newValue)`. */
  type PutFunction<!V> = (V, V) -> V

  datatype FunctionMap<K, !V> = FunctionMap(
    wrapped: map<K, Option<V>>,
    defaultFunction: PutFunction<V>,
    keyFunctions: map<K, PutFunction<V>>)

  /** The default used when no function is supplied: the new value replaces the old. */
  function SimpleReplace<V(!new)>(): (f: PutFunction<V>)
    ensures forall previous, given :: f(previous, given) == given
  {
    (previous: V, given: V) => given
  }

  /** `new FunctionMap(wrappedMap, defaultFunction)`; the other constructors default to an empty map and plain replacement. */
  function Create<K, V>(wrapped: map<K, Option<V>>, defaultFunction: PutFunction<V>): FunctionMap<K, V> {
    FunctionMap(wrapped, defaultFunction, map[])
  }

  /** `wrappedMap.get(key)`: the stored value, `None` for an absent key or a stored null. */
  function Get<K, V>(fm: FunctionMap<K, V>, key: K): Option<V> {
    if key in fm.wrapped then fm.wrapped[key] else None
  }

  /** `getKeyFunction`: the key's own function when one was set, else the default. */
  function KeyFunction<K, V>(fm: FunctionMap<K, V>, key: K): PutFunction<V> {
    if key in fm.keyFunctions then fm.keyFunctions[key] else fm.defaultFunction
  }

  /**
   * `put(key, value)`: with a non-null value already stored, the stored value
   * becomes the key function applied to (old, new); otherwise `value` is
   * stored as it is.  The previous value is returned.
   */
  function Put<K(!new), V>(fm: FunctionMap<K, V>, key: K, value: V): (r: (FunctionMap<K, V>, Option<V>))
    ensures r.1 == Get(fm, key)
    ensures r.0.wrapped.Keys == fm.wrapped.Keys + {key}
    ensures Get(fm, key).None? ==> Get(r.0, key) == Some(value)
    ensures Get(fm, key).Some? ==> Get(r.0, key) == Some(KeyFunction(fm, key)(Get(fm, key).value, value))
    ensures forall k :: k != key ==> Get(r.0, k) == Get(fm, k)
    ensures r.0.keyFunctions == fm.keyFunctions
  {
    var newValue := match Get(fm, key)
      case None => value
      case Some(previous) => KeyFunction(fm, key)(previous, value);
    (fm.(wrapped := fm.wrapped[key := Some(newValue)]), Get(fm, key))
  }

  /** `setKeyFunction(key, f)`: later puts of `key` use `f`; no entry and no other key's function changes. */
  function SetKeyFunction<K(!new), V(!new)>(fm: FunctionMap<K, V>, key: K, f: PutFunction<V>): (r: FunctionMap<K, V>)
    ensures r.wrapped == fm.wrapped
    ensures forall a, b :: KeyFunction(r, key)(a, b) == f(a, b)
    ensures forall k, a, b :: k != key ==> KeyFunction(r, k)(a, b) == KeyFunction(fm, k)(a, b)
  {
    fm.(keyFunctions := fm.keyFunctions[key := f])
  }

  /** With plain replacement as the only function in play, `put` is an ordinary map update returning the old value. */
  lemma PutWithSimpleReplace<K(!new), V>(fm: FunctionMap<K, V>, key: K, value: V)
    requires forall previous, given :: KeyFunction(fm, key)(previous, given) == given
    ensures Put(fm, key, value).0.wrapped == fm.wrapped[key := Some(value)]
    ensures Put(fm, key, value).1 == Get(fm, key)
  {
  }

  /** Puts to different keys do not interfere: their order does not matter. */
  lemma PutsCommute<K(!new), V>(fm: FunctionMap<K, V>, k1: K, v1: V, k2: K, v2: V)
    requires k1 != k2
    ensures Put(Put(fm, k1, v1).0, k2, v2).0 == Put(Put(fm, k2, v2).0, k1, v1).0
  {
    var a := Put(Put(fm, k1, v1).0, k2, v2).0;
    var b := Put(Put(fm, k2, v2).0, k1, v1).0;
    assert a.wrapped == b.wrapped;
  }

  /**
   * The summing map of the library's own usage example: 10 is stored, 5 and 30
   * are added to it; a key given a multiplying function multiplies instead
   * while other keys keep summing.
   */
  lemma SummingExample()
    ensures var m0 := Create(map[], (a: int, b: int) => a + b);
      var (m1, p1) := Put(m0, "test", 10);
      var (m2, p2) := Put(m1, "test", 5);
      var (m3, p3) := Put(m2, "test", 30);
      p1 == None && p2 == Some(10) && p3 == Some(15) && Get(m3, "test") == Some(45)
      && var n0 := SetKeyFunction(m3, "multi", (a: int, b: int) => a * b);
      var (n1, q1) := Put(n0, "multi", 10);
      var (n2, q2) := Put(n1, "multi", 5);
      var (n3, q3) := Put(n2, "multi", 30);
      var (n4, _) := Put(n3, "test2", 10);
      var (n5, _) := Put(n4, "test2", 10);
      q1 == None && q2 == Some(10) && q3 == Some(50) && Get(n3, "multi") == Some(1500)
      && Get(n5, "test2") == Some(20)
  {
  }
}
