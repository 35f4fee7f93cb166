/**
 * pantheon-common's `Predicates`: constant predicates, negation, and the
 * short-circuiting `and`/`or` groups that share one evaluation loop.  A Java
 * `Predicate<T>` is a total Dafny function `T -> bool`.
 */
module Predicates {

  function Tautology<T(!new)>(): (p: T -> bool)
    ensures forall t :: p(t)
  {
    (t: T) => true
  }

  function Contradiction<T(!new)>(): (p: T -> bool)
    ensures forall t :: !p(t)
  {
    (t: T) => false
  }

  function Negate<T(!new)>(p: T -> bool): (q: T -> bool)
    ensures forall t :: q(t) == !p(t)
  {
    (t: T) => !p(t)
  }

  /**
   * The loop of `groupedPredicate`: evaluate the predicates in order and stop
   * with `returnWhen` at the first one that yields it; after the last one the
   * answer is `!returnWhen`.
   */
  function Scan<T>(ps: seq<T -> bool>, t: T, returnWhen: bool): bool {
    if |ps| == 0 then !returnWhen
    else if ps[0](t) == returnWhen then returnWhen
    else Scan(ps[1..], t, returnWhen)
  }

  /** How many predicates the loop evaluates before it returns. */
  function Evaluated<T>(ps: seq<T -> bool>, t: T, returnWhen: bool): nat {
    if |ps| == 0 then 0
    else if ps[0](t) == returnWhen then 1
    else 1 + Evaluated(ps[1..], t, returnWhen)
  }

  /** `groupedPredicate`: an empty group is always true, otherwise the loop decides. */
  function Grouped<T>(ps: seq<T -> bool>, returnWhen: bool): T -> bool {
    (t: T) => if |ps| == 0 then true else Scan(ps, t, returnWhen)
  }

  /** `and(ps)`: true when every predicate holds (and on an empty group). */
  function And<T(!new)>(ps: seq<T -> bool>): (q: T -> bool)
    ensures forall t :: q(t) <==> forall i :: 0 <= i < |ps| ==> ps[i](t)
  {
    ScanMeaning(ps, false);
    Grouped(ps, false)
  }

  /** `or(ps)`: true when some predicate holds, and also on an empty group. */
  function Or<T(!new)>(ps: seq<T -> bool>): (q: T -> bool)
    ensures forall t :: q(t) <==> |ps| == 0 || exists i :: 0 <= i < |ps| && ps[i](t)
  {
    ScanMeaning(ps, true);
    Grouped(ps, true)
  }

  /** The loop returns `returnWhen` exactly when some predicate yields it. */
  lemma {:induction false} ScanMeaning<T>(ps: seq<T -> bool>, returnWhen: bool)
    ensures forall t :: Scan(ps, t, returnWhen) == returnWhen <==> exists i :: 0 <= i < |ps| && ps[i](t) == returnWhen
    decreases |ps|
  {
    if |ps| > 0 {
      ScanMeaning(ps[1..], returnWhen);
      forall t ensures Scan(ps, t, returnWhen) == returnWhen <==> exists i :: 0 <= i < |ps| && ps[i](t) == returnWhen {
        if exists i :: 1 <= i < |ps| && ps[i](t) == returnWhen {
          var i :| 1 <= i < |ps| && ps[i](t) == returnWhen;
          assert ps[1..][i - 1] == ps[i];
        }
        if exists i :: 0 <= i < |ps[1..]| && ps[1..][i](t) == returnWhen {
          var i :| 0 <= i < |ps[1..]| && ps[1..][i](t) == returnWhen;
          assert ps[i + 1] == ps[1..][i];
        }
      }
    }
  }

  /**
   * Short-circuiting: the loop evaluates every predicate up to and including
   * the first that yields `returnWhen`, and none after it.
   */
  lemma {:induction false} ScanStopsAtFirstDecisive<T>(ps: seq<T -> bool>, t: T, returnWhen: bool)
    ensures Evaluated(ps, t, returnWhen) <= |ps|
    ensures forall i :: 0 <= i < Evaluated(ps, t, returnWhen) - 1 ==> ps[i](t) != returnWhen
    ensures Scan(ps, t, returnWhen) == returnWhen <==> 0 < Evaluated(ps, t, returnWhen) && ps[Evaluated(ps, t, returnWhen) - 1](t) == returnWhen
    ensures Evaluated(ps, t, returnWhen) < |ps| ==> ps[Evaluated(ps, t, returnWhen) - 1](t) == returnWhen
    decreases |ps|
  {
    if |ps| > 0 && ps[0](t) != returnWhen {
      ScanStopsAtFirstDecisive(ps[1..], t, returnWhen);
      var n := Evaluated(ps[1..], t, returnWhen);
      forall i | 0 <= i < n ensures ps[i](t) != returnWhen {
        if i > 0 {
          assert ps[i] == ps[1..][i - 1];
        }
      }
      if n > 0 {
        assert ps[n] == ps[1..][n - 1];
      }
    }
  }

  /** Negating an `or` of a non-empty group gives the `and` of the negations; on an empty group both sides are true and false respectively. */
  lemma DeMorgan<T(!new)>(ps: seq<T -> bool>, t: T)
    ensures |ps| > 0 ==> Negate(Or(ps))(t) == And(seq(|ps|, i requires 0 <= i < |ps| => Negate(ps[i])))(t)
    ensures |ps| == 0 ==> !Negate(Or(ps))(t) && And(ps)(t)
  {
    var qs := seq(|ps|, i requires 0 <= i < |ps| => Negate(ps[i]));
    assert forall i :: 0 <= i < |ps| ==> qs[i](t) == !ps[i](t);
  }
}
