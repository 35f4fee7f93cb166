/**
 * `CachingExchange`: a memo table in front of another currency exchange.
 * The wrapped exchange is not modelled; what it would answer for a pair is
 * passed in with each request, and `None` stands for a `null` rate.
 */
module CachingExchanges {
  import opened Wrappers
  import opened Decimals
  import opened Monies

  /** The cache key: an ordered pair, so (USD, GBP) and (GBP, USD) are different entries. */
  datatype ExchangeKey = ExchangeKey(from: Currency, to: Currency)

  /**
   * A caching exchange around `wrapped` (whatever identifies the wrapped
   * exchange for `equals`) with the rates it has stored; a stored `None` is
   * the `null` the wrapped exchange may hand back.
   */
  datatype CachingExchange<E> = CachingExchange(wrapped: E, cache: map<ExchangeKey, Option<Decimal>>)

  /** A new caching exchange starts with an empty cache. */
  function Create<E>(wrapped: E): CachingExchange<E> {
    CachingExchange(wrapped, map[])
  }

  /** `cache.get(key)`: the stored rate, `None` when the key is absent or maps to `null`. */
  function Cached(cache: map<ExchangeKey, Option<Decimal>>, key: ExchangeKey): Option<Decimal> {
    if key in cache then cache[key] else None
  }

  /** The answer to one request: the rate, the exchange afterwards, and whether the wrapped exchange was asked. */
  datatype Lookup<E> = Lookup(rate: Option<Decimal>, exchange: CachingExchange<E>, queried: bool)

  /**
   * `calculateExchangeRate(from, to)`: the cached rate when there is one;
   * otherwise the wrapped exchange's answer `fetched`, which is stored.
   */
  function CalculateRate<E>(x: CachingExchange<E>, from: Currency, to: Currency, fetched: Option<Decimal>): (r: Lookup<E>)
    ensures r.queried <==> Cached(x.cache, ExchangeKey(from, to)) == None
    ensures r.queried ==> r.rate == fetched
    ensures !r.queried ==> r.exchange == x
    ensures Cached(r.exchange.cache, ExchangeKey(from, to)) == r.rate
    ensures r.exchange.wrapped == x.wrapped
    ensures forall k :: k != ExchangeKey(from, to) ==> Cached(r.exchange.cache, k) == Cached(x.cache, k)
  {
    var key := ExchangeKey(from, to);
    var rate := Cached(x.cache, key);
    if rate == None then
      Lookup(fetched, CachingExchange(x.wrapped, x.cache[key := fetched]), true)
    else
      Lookup(rate, x, false)
  }

  /** `equals`: two caching exchanges are equal when they wrap equal exchanges, whatever they have cached. */
  predicate Equals<E(==)>(a: CachingExchange<E>, b: CachingExchange<E>) {
    a.wrapped == b.wrapped
  }

  /** Equality of caching exchanges is an equivalence that lookups do not disturb. */
  lemma EqualsEquivalence<E>(a: CachingExchange<E>, b: CachingExchange<E>, c: CachingExchange<E>,
                             from: Currency, to: Currency, fetched: Option<Decimal>)
    ensures Equals(a, a)
    ensures Equals(a, b) ==> Equals(b, a)
    ensures Equals(a, b) && Equals(b, c) ==> Equals(a, c)
    ensures Equals(a, b) <==> Equals(CalculateRate(a, from, to, fetched).exchange, b)
    ensures Equals(Create(a.wrapped), a)
  {
  }

  /** A second request for the same pair after a non-null answer uses the cache and gets the same rate. */
  lemma RepeatUsesCache<E>(x: CachingExchange<E>, from: Currency, to: Currency, first: Option<Decimal>, second: Option<Decimal>)
    requires CalculateRate(x, from, to, first).rate != None
    ensures var l1 := CalculateRate(x, from, to, first);
      var l2 := CalculateRate(l1.exchange, from, to, second);
      !l2.queried && l2.rate == l1.rate && l2.exchange == l1.exchange
  {
  }

  /** A request for one ordered pair leaves the reverse pair as it was: still to be asked, or still cached. */
  lemma ReversePairSeparate<E>(x: CachingExchange<E>, from: Currency, to: Currency, fetched: Option<Decimal>)
    requires from != to
    ensures Cached(CalculateRate(x, from, to, fetched).exchange.cache, ExchangeKey(to, from)) == Cached(x.cache, ExchangeKey(to, from))
  {
  }

  // ---------------------------------------------------------------------------
  // A sequence of requests
  // ---------------------------------------------------------------------------

  /** One request, with the answer the wrapped exchange would give if asked. */
  datatype Request = Request(from: Currency, to: Currency, fetched: Option<Decimal>)

  function KeyOf(q: Request): ExchangeKey {
    ExchangeKey(q.from, q.to)
  }

  /** The rates a run of requests returned, the exchange after it, and the pairs the wrapped exchange was asked for. */
  datatype Session<E> = Session(rates: seq<Option<Decimal>>, exchange: CachingExchange<E>, asked: seq<ExchangeKey>)

  /** The requests answered one after another by the same caching exchange. */
  function Run<E>(x: CachingExchange<E>, qs: seq<Request>): (s: Session<E>)
    ensures |s.rates| == |qs| && |s.asked| <= |qs|
    ensures s.exchange.wrapped == x.wrapped
    decreases |qs|
  {
    if |qs| == 0 then Session([], x, [])
    else
      var l := CalculateRate(x, qs[0].from, qs[0].to, qs[0].fetched);
      var rest := Run(l.exchange, qs[1..]);
      Session([l.rate] + rest.rates, rest.exchange, (if l.queried then [KeyOf(qs[0])] else []) + rest.asked)
  }

  /**
   * Once a pair has a non-null rate cached, every later request for it
   * returns that rate, the wrapped exchange is never asked for it again, and
   * the entry stays as it is.
   */
  lemma {:induction false} CachedRateStays<E>(x: CachingExchange<E>, qs: seq<Request>, key: ExchangeKey, v: Decimal)
    requires Cached(x.cache, key) == Some(v)
    ensures Cached(Run(x, qs).exchange.cache, key) == Some(v)
    ensures forall i :: 0 <= i < |qs| && KeyOf(qs[i]) == key ==> Run(x, qs).rates[i] == Some(v)
    ensures key !in Run(x, qs).asked
    decreases |qs|
  {
    if |qs| > 0 {
      var l := CalculateRate(x, qs[0].from, qs[0].to, qs[0].fetched);
      assert Cached(l.exchange.cache, key) == Some(v);
      CachedRateStays(l.exchange, qs[1..], key, v);
      var s := Run(x, qs);
      forall i | 0 <= i < |qs| && KeyOf(qs[i]) == key ensures s.rates[i] == Some(v) {
        if i > 0 {
          assert qs[1..][i - 1] == qs[i];
        }
      }
    }
  }

  /**
   * While the wrapped exchange answers a pair with a non-null rate, it is
   * asked for that pair at most once, however often the pair is requested.
   */
  lemma {:induction false} AskedAtMostOnce<E>(x: CachingExchange<E>, qs: seq<Request>, key: ExchangeKey)
    requires forall i :: 0 <= i < |qs| && KeyOf(qs[i]) == key ==> qs[i].fetched != None
    ensures multiset(Run(x, qs).asked)[key] <= 1
    ensures Cached(x.cache, key) != None ==> multiset(Run(x, qs).asked)[key] == 0
    decreases |qs|
  {
    if |qs| > 0 {
      var l := CalculateRate(x, qs[0].from, qs[0].to, qs[0].fetched);
      var rest := Run(l.exchange, qs[1..]);
      var head: seq<ExchangeKey> := if l.queried then [KeyOf(qs[0])] else [];
      assert Run(x, qs).asked == head + rest.asked;
      if Cached(x.cache, key) != None {
        CachedRateStays(x, qs, key, Cached(x.cache, key).value);
      } else if KeyOf(qs[0]) == key {
        assert l.queried && Cached(l.exchange.cache, key) == Some(qs[0].fetched.value);
        CachedRateStays(l.exchange, qs[1..], key, qs[0].fetched.value);
      } else {
        forall i | 0 <= i < |qs[1..]| && KeyOf(qs[1..][i]) == key ensures qs[1..][i].fetched != None {
          assert qs[1..][i] == qs[i + 1];
        }
        AskedAtMostOnce(l.exchange, qs[1..], key);
        assert multiset(head)[key] == 0;
      }
    }
  }

  // ---------------------------------------------------------------------------
  // The requests of the class's own test
  // ---------------------------------------------------------------------------

  /**
   * Dollars to pounds at .66 twice, pounds to dollars at 1.5 twice: each
   * pair is fetched once and the repeats come from the cache.
   */
  lemma CachingExample<E>(wrapped: E, dollar: Currency, pound: Currency, later: Option<Decimal>)
    requires dollar != pound
    ensures var qs := [Request(dollar, pound, Some(Decimal(66, 2))), Request(dollar, pound, later),
                       Request(pound, dollar, Some(Decimal(15, 1))), Request(pound, dollar, later)];
      var s := Run(Create(wrapped), qs);
      && s.rates == [Some(Decimal(66, 2)), Some(Decimal(66, 2)), Some(Decimal(15, 1)), Some(Decimal(15, 1))]
      && s.asked == [ExchangeKey(dollar, pound), ExchangeKey(pound, dollar)]
  {
    var qs := [Request(dollar, pound, Some(Decimal(66, 2))), Request(dollar, pound, later),
               Request(pound, dollar, Some(Decimal(15, 1))), Request(pound, dollar, later)];
    var x0 := Create(wrapped);
    var x1 := CalculateRate(x0, dollar, pound, Some(Decimal(66, 2))).exchange;
    var x3 := CalculateRate(x1, pound, dollar, Some(Decimal(15, 1))).exchange;
    assert qs[1..][1..][1..][1..] == [];
    assert Run(x3, qs[1..][1..][1..]) == Session([Some(Decimal(15, 1))], x3, []);
    assert Run(x1, qs[1..][1..]) == Session([Some(Decimal(15, 1)), Some(Decimal(15, 1))], x3, [ExchangeKey(pound, dollar)]);
    assert Run(x1, qs[1..]) == Session([Some(Decimal(66, 2)), Some(Decimal(15, 1)), Some(Decimal(15, 1))], x3, [ExchangeKey(pound, dollar)]);
  }
}
