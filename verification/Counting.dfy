/** How many distinct numbers there are below a bound. */
module Counting {

  predicate Distinct(s: seq<nat>) { forall i, j :: 0 <= i < j < |s| ==> s[i] != s[j] }

  function Below(n: nat): set<nat> {
    if n == 0 then {} else Below(n - 1) + {n - 1}
  }

  lemma {:induction false} BelowCount(n: nat)
    ensures |Below(n)| == n
    ensures forall x: nat :: x in Below(n) <==> x < n
  {
    if n > 0 {
      BelowCount(n - 1);
    }
  }

  lemma {:induction false} DistinctCount(s: seq<nat>)
    requires Distinct(s)
    ensures |(set k | 0 <= k < |s| :: s[k])| == |s|
  {
    if s != [] {
      var t := s[..|s| - 1];
      DistinctCount(t);
      assert (set k | 0 <= k < |s| :: s[k]) == (set k | 0 <= k < |t| :: t[k]) + {s[|s| - 1]};
    }
  }

  lemma {:induction false} SubsetCount<T>(a: set<T>, b: set<T>)
    requires a <= b
    ensures |a| <= |b|
    decreases a
  {
    if a != {} {
      var x :| x in a;
      SubsetCount(a - {x}, b - {x});
    }
  }

  /** Distinct numbers below n are at most n. */
  lemma AtMost(s: seq<nat>, n: nat)
    requires forall k :: 0 <= k < |s| ==> s[k] < n
    requires Distinct(s)
    ensures |s| <= n
  {
    var elements := set k | 0 <= k < |s| :: s[k];
    DistinctCount(s);
    BelowCount(n);
    assert elements <= Below(n);
    SubsetCount(elements, Below(n));
  }

  /** Distinct numbers below n that miss one of them are fewer than n. */
  lemma FewerThan(s: seq<nat>, n: nat, missing: nat)
    requires forall k :: 0 <= k < |s| ==> s[k] < n && s[k] != missing
    requires Distinct(s)
    requires missing < n
    ensures |s| < n
  {
    AtMost(s + [missing], n);
  }
}
