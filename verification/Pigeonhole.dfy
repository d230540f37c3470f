/** Counting by distinctness: as many different numbers below n as there are numbers below n. */
module Pigeonhole {

  ghost predicate NoRepeats(xs: seq<nat>) {
    forall i, j :: 0 <= i < j < |xs| ==> xs[i] != xs[j]
  }

  lemma Without(xs: seq<nat>, k: nat)
    requires NoRepeats(xs) && k < |xs|
    ensures var ys := xs[..k] + xs[k + 1..];
      NoRepeats(ys) && forall x: nat :: x in ys <==> x in xs && x != xs[k]
  {
    var ys := xs[..k] + xs[k + 1..];
    forall x: nat
      ensures x in ys <==> x in xs && x != xs[k]
    {
      assert xs == xs[..k] + [xs[k]] + xs[k + 1..];
    }
  }

  /** Distinct numbers below n: there are at most n, and with n of them none is missing. */
  lemma {:induction false} FillsUp(xs: seq<nat>, n: nat)
    requires NoRepeats(xs) && forall i :: 0 <= i < |xs| ==> xs[i] < n
    ensures |xs| <= n
    ensures |xs| == n <==> forall x: nat :: x < n ==> x in xs
    decreases n
  {
    if xs == [] {
      assert 0 !in xs;
    } else if xs[0] < n && n - 1 in xs {
      var k :| 0 <= k < |xs| && xs[k] == n - 1;
      Without(xs, k);
      var ys := xs[..k] + xs[k + 1..];
      forall i | 0 <= i < |ys|
        ensures ys[i] < n - 1
      {
        assert ys[i] in ys;
      }
      FillsUp(ys, n - 1);
    } else {
      FillsUp(xs, n - 1);
    }
  }
}
