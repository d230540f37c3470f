/** Expectations on mock calls and their prerequisites: which calls an expectation may handle, what
    handling a call changes, and the three traversals of the prerequisite graph. */
module Expectations {

  class Expectation {
    // fixed when the expectation is declared
    const prerequisites: seq<Expectation>
    const min: int
    const max: int
    const retiresOnSaturation: bool
    ghost const rank: nat
    // state
    var calls: nat
    var retired: bool

    /** A prerequisite is declared before the expectations that wait for it. */
    constructor (prerequisites: seq<Expectation>, min: int, max: int, retiresOnSaturation: bool)
      ensures this.prerequisites == prerequisites && this.min == min && this.max == max
      ensures this.retiresOnSaturation == retiresOnSaturation
      ensures forall p :: p in prerequisites ==> p.rank < rank
      ensures calls == 0 && !retired
    {
      this.prerequisites, this.min, this.max := prerequisites, min, max;
      this.retiresOnSaturation := retiresOnSaturation;
      rank := RankAbove(prerequisites);
      calls, retired := 0, false;
    }

    predicate IsSatisfied()
      reads this`calls
    {
      min <= calls && calls <= max
    }

    predicate IsSaturated()
      reads this`calls
    {
      calls >= max
    }

    // ----- Retiring -----

    /** Retires all transitive prerequisites; the traversal stops at those already retired. */
    method RetireAllPreRequisites(ghost all: set<Expectation>)
      requires this in all && Closed(all) && RetiredClosed(all)
      modifies all`retired
      ensures forall e :: e in all ==> (e.retired <==> old(e.retired) || Transitive(this, e))
      ensures RetiredClosed(all)
    {
      hide Transitive;
      ghost var was := all - Active(all);
      if retired {
        RetiredBelow(all, this);
        return;
      }
      var stack := [this];
      while stack != []
        invariant OnPath(all, this, stack) && Retiring(all, this, stack) && RetiredFrom(all, was, this)
        decreases Active(all), |stack|
      {
        var exp := stack[|stack| - 1];
        stack := stack[..|stack| - 1];
        ghost var active, base := Active(all), stack;
        stack := RetireImmediate(exp, stack, all, was);
        assert |stack| == |base| || Active(all) != active;
      }
      forall e | Transitive(this, e)
        ensures e.retired
      {
        ReachedAreRetired(all, this, e);
      }
    }

    /** Retires the immediate prerequisites of an expectation that was on the stack, and stacks those
        that were active. */
    method RetireImmediate(exp: Expectation, stack0: seq<Expectation>, ghost all: set<Expectation>,
                           ghost was: set<Expectation>)
        returns (stack: seq<Expectation>)
      requires Closed(all) && exp in all && (exp == this || Transitive(this, exp))
      requires OnPath(all, this, stack0) && Retiring(all, this, stack0 + [exp]) && RetiredFrom(all, was, this)
      modifies all`retired
      ensures OnPath(all, this, stack) && Retiring(all, this, stack) && RetiredFrom(all, was, this)
      ensures Active(all) <= old(Active(all)) && (stack == stack0 || Active(all) != old(Active(all)))
    {
      hide Transitive;
      stack := stack0;
      var j := 0;
      while j < |exp.prerequisites|
        invariant j <= |exp.prerequisites|
        invariant OnPath(all, this, stack) && Retiring(all, this, stack + [exp]) && RetiredFrom(all, was, this)
        invariant forall k :: 0 <= k < j ==> exp.prerequisites[k].retired
        invariant Active(all) <= old(Active(all)) && (stack == stack0 || Active(all) != old(Active(all)))
      {
        var next := exp.prerequisites[j];
        if !next.retired {
          TransitiveStep(this, exp, next);
          assert next in Active(all);
          next.retired := true;
          stack := stack + [next];
        }
        j := j + 1;
      }
    }

    // ----- Asking about prerequisites -----

    /** All transitive prerequisites are satisfied; an expectation is visited once for every path. */
    method AllPrerequisitesAreSatisfied(ghost all: set<Expectation>) returns (ok: bool)
      requires this in all && Acyclic(all)
      ensures ok <==> BelowSatisfied(all, this)
      ensures ok <==>
        forall p {:trigger Transitive(this, p)} :: p in all && Transitive(this, p) ==> p.min <= p.calls <= p.max
    {
      hide Transitive;
      var stack := [this];
      while stack != []
        invariant OnPath(all, this, stack) && Light(all, stack, rank + 1)
        invariant forall p :: p in all && Transitive(this, p) ==> p.IsSatisfied() || Pending(stack, p)
        decreases WeightAll(all, stack, rank + 1)
      {
        var exp := stack[|stack| - 1];
        ghost var before := stack;
        stack := stack[..|stack| - 1];
        ghost var base := stack;
        assert before == base + [exp];
        var j := 0;
        while j < |exp.prerequisites|
          invariant j <= |exp.prerequisites| && stack == base + exp.prerequisites[..j]
          invariant forall k :: 0 <= k < j ==> exp.prerequisites[k].IsSatisfied()
        {
          var next := exp.prerequisites[j];
          if !next.IsSatisfied() {
            TransitiveStep(this, exp, next);
            return false;
          }
          stack := stack + [next];
          j := j + 1;
        }
        assert stack == base + exp.prerequisites;
        ReplaceByPrerequisites(all, this, base, exp);
        PendingBelow(all, base, exp);
      }
      return true;
    }

    /** Adds the unsatisfied prerequisites that are reached through prerequisites which are satisfied
        and were never called. */
    method FindUnsatisfiedPrerequisites(result0: set<Expectation>, ghost all: set<Expectation>)
        returns (result: set<Expectation>)
      requires this in all && Acyclic(all)
      ensures result == result0 + Frontier(all, this)
      ensures forall p :: p in result && p !in result0 ==>
        p in all && Transitive(this, p) && (p.calls < p.min || p.calls > p.max)
    {
      FrontierMembers(all, this);
      hide Frontier, Transitive, FrontierOfAll;
      result := result0;
      var stack := [this];
      FrontierOne(all, this);
      while stack != []
        invariant OnPath(all, this, stack) && Light(all, stack, rank + 1)
        invariant result + FrontierOfAll(all, stack) == result0 + Frontier(all, this)
        decreases WeightAll(all, stack, rank + 1)
      {
        var exp := stack[|stack| - 1];
        assert stack == stack[..|stack| - 1] + [exp];
        stack := stack[..|stack| - 1];
        ReplaceByPrerequisites(all, this, stack, exp);
        FrontierPush(all, stack, exp);
        FrontierUnfold(all, exp);
        stack, result := ExploreImmediate(exp, stack, result, all);
      }
    }

    /** One expectation of the search for unsatisfied prerequisites. */
    method ExploreImmediate(exp: Expectation, stack0: seq<Expectation>, result0: set<Expectation>,
                            ghost all: set<Expectation>)
        returns (stack: seq<Expectation>, result: set<Expectation>)
      requires Acyclic(all) && exp in all && OnPath(all, this, stack0) && (exp == this || Transitive(this, exp))
      requires Light(all, stack0 + exp.prerequisites, rank + 1)
      ensures OnPath(all, this, stack) && Light(all, stack, rank + 1)
      ensures WeightAll(all, stack, rank + 1) <= WeightAll(all, stack0 + exp.prerequisites, rank + 1)
      ensures result + FrontierOfAll(all, stack) ==
        result0 + FrontierOfAll(all, stack0) + FrontierThrough(all, exp.prerequisites)
    {
      hide Visiting, Transitive;
      stack, result := stack0, result0;
      VisitNone(all, this, stack0, result0);
      var j := 0;
      while j < |exp.prerequisites|
        invariant j <= |exp.prerequisites|
        invariant Visiting(all, this, stack0, result0, stack, result, exp.prerequisites[..j])
      {
        var next := exp.prerequisites[j];
        TransitiveStep(this, exp, next);
        assert next in stack0 + exp.prerequisites;
        VisitOne(all, this, stack0, result0, stack, result, exp.prerequisites[..j], next);
        assert exp.prerequisites[..j + 1] == exp.prerequisites[..j] + [next];
        if next.IsSatisfied() {
          if next.calls == 0 {
            stack := stack + [next];
          }
        } else {
          result := result + {next};
        }
        j := j + 1;
      }
      assert exp.prerequisites[..j] == exp.prerequisites;
      Visited(all, this, stack0, result0, stack, result, exp.prerequisites);
    }

    // ----- Handling a call -----

    method ShouldHandleArguments(matches: bool, ghost all: set<Expectation>) returns (yes: bool)
      requires this in all && Acyclic(all)
      ensures yes <==> CanHandle(all, this, matches)
      ensures yes <==>
        && !retired && matches
        && forall p {:trigger Transitive(this, p)} :: p in all && Transitive(this, p) ==> p.min <= p.calls <= p.max
    {
      if retired {
        return false;
      }
      var satisfied := AllPrerequisitesAreSatisfied(all);
      yes := satisfied && matches;
    }

    /** Counts the call.  Unless the expectation was saturated already, retires its prerequisites and
        perhaps itself.  The result says whether an action other than the default one is taken. */
    method GetActionForArguments(ghost all: set<Expectation>) returns (action: bool)
      requires this in all && Sound(all) && CanHandle(all, this, true)
      modifies all`retired, this`calls
      ensures Sound(all)
      ensures calls == old(calls) + 1 && (action <==> old(calls) < max)
      ensures !action ==> forall e :: e in all ==> e.retired == old(e.retired)
      ensures action ==> forall e :: e in all ==>
        (e.retired <==> old(e.retired) || Transitive(this, e) || (e == this && retiresOnSaturation && calls >= max))
    {
      hide Transitive;
      BelowIsOther(all, this);
      if IsSaturated() {
        calls := calls + 1;
        ExcessIsSound(all);
        return false;
      }
      calls := calls + 1;
      RetireAllPreRequisites(all);
      if retiresOnSaturation && IsSaturated() {
        ImmediateRetired(all, this);
        retired := true;
      }
      CallIsSound(all);
      return true;
    }

    twostate lemma ExcessIsSound(all: set<Expectation>)
      requires this in all && old(Sound(all)) && old(!retired && IsSaturated())
      requires calls == old(calls) + 1 && forall e :: e in all && e != this ==> e.calls == old(e.calls)
      requires forall e :: e in all ==> e.retired == old(e.retired)
      ensures Sound(all)
    {
      hide Transitive;
      forall e, p | e in all && 0 < e.calls <= e.max && p in all && Transitive(e, p)
        ensures p.retired && p.IsSatisfied()
      {
        assert old(BelowDone(all, e));
        assert old(p.retired && p.IsSatisfied());
      }
    }

    twostate lemma CallIsSound(all: set<Expectation>)
      requires this in all && old(Sound(all)) && old(CanHandle(all, this, true)) && RetiredClosed(all)
      requires calls == old(calls) + 1 && forall e :: e in all && e != this ==> e.calls == old(e.calls)
      requires forall e :: e in all && (old(e.retired) || Transitive(this, e)) ==> e.retired
      requires forall e :: e in all && Transitive(this, e) ==> e != this
      ensures Sound(all)
    {
      hide Transitive;
      forall e, p | e in all && 0 < e.calls <= e.max && p in all && Transitive(e, p)
        ensures p.retired && p.IsSatisfied()
      {
        if e == this {
          assert old(p.IsSatisfied());
        } else {
          assert old(BelowDone(all, e));
          assert old(p.retired && p.IsSatisfied());
        }
      }
    }
  }

  ghost function RankAbove(es: seq<Expectation>): (r: nat)
    ensures forall e :: e in es ==> e.rank < r
  {
    if es == [] then 0
    else
      var r := RankAbove(es[1..]);
      if es[0].rank < r then r else es[0].rank + 1
  }

  // ----- The prerequisite graph -----

  /** Prerequisites of members are members. */
  ghost predicate Closed(all: set<Expectation>) {
    forall e {:trigger e in all} :: e in all ==> forall p :: p in e.prerequisites ==> p in all
  }

  /** The graph has no cycle: ranks decrease along prerequisites. */
  ghost predicate Acyclic(all: set<Expectation>) {
    && Closed(all)
    && forall e {:trigger e in all} :: e in all ==> forall p :: p in e.prerequisites ==> p.rank < e.rank
  }

  /** There is a chain of k + 1 prerequisite links from e to p. */
  ghost predicate Chain(e: Expectation, p: Expectation, k: nat)
    decreases k
  {
    if k == 0 then p in e.prerequisites
    else exists q {:trigger q in e.prerequisites} :: q in e.prerequisites && Chain(q, p, k - 1)
  }

  ghost predicate Transitive(e: Expectation, p: Expectation) {
    exists k: nat :: Chain(e, p, k)
  }

  /** Every set that contains the prerequisites of e and those of its members contains all transitive
      prerequisites of e. */
  lemma TransitiveIsLeast(e: Expectation, below: set<Expectation>)
    requires forall p :: p in e.prerequisites ==> p in below
    requires forall p, q {:trigger p in below, q in p.prerequisites} ::
      p in below && q in p.prerequisites ==> q in below
    ensures forall p :: Transitive(e, p) ==> p in below
  {
    forall p | Transitive(e, p)
      ensures p in below
    {
      var k: nat :| Chain(e, p, k);
      ChainStays(e, below, p, k);
    }
  }

  lemma {:induction false} ChainStays(e: Expectation, below: set<Expectation>, p: Expectation, k: nat)
    requires forall q :: q in e.prerequisites ==> q in below
    requires forall q, r {:trigger q in below, r in q.prerequisites} ::
      q in below && r in q.prerequisites ==> r in below
    requires Chain(e, p, k)
    ensures p in below
    decreases k
  {
    if k == 0 {
    } else {
      var q :| q in e.prerequisites && Chain(q, p, k - 1);
      ChainStays(q, below, p, k - 1);
    }
  }

  lemma TransitiveUnfold(e: Expectation, p: Expectation)
    ensures Transitive(e, p) <==>
      p in e.prerequisites || exists q :: q in e.prerequisites && Transitive(q, p)
  {
    if Transitive(e, p) && p !in e.prerequisites {
      var k: nat :| Chain(e, p, k);
      var q :| q in e.prerequisites && Chain(q, p, k - 1);
    }
    if p in e.prerequisites {
      assert Chain(e, p, 0);
    }
    if q :| q in e.prerequisites && Transitive(q, p) {
      var k: nat :| Chain(q, p, k);
      assert Chain(e, p, k + 1);
    }
  }

  lemma {:induction false} ChainExtends(e: Expectation, p: Expectation, q: Expectation, k: nat)
    requires Chain(e, p, k) && q in p.prerequisites
    ensures Chain(e, q, k + 1)
    decreases k
  {
    if k == 0 {
      assert Chain(p, q, 0);
    } else {
      var r :| r in e.prerequisites && Chain(r, p, k - 1);
      ChainExtends(r, p, q, k - 1);
    }
  }

  lemma TransitiveStep(e: Expectation, p: Expectation, q: Expectation)
    requires (p == e || Transitive(e, p)) && q in p.prerequisites
    ensures Transitive(e, q)
  {
    if p == e {
      assert Chain(e, q, 0);
    } else {
      var k: nat :| Chain(e, p, k);
      ChainExtends(e, p, q, k);
    }
  }

  // ----- Retired expectations -----

  ghost function Active(all: set<Expectation>): set<Expectation>
    reads all`retired
  {
    set e | e in all && !e.retired
  }

  /** Prerequisites of retired expectations are retired. */
  ghost predicate RetiredClosed(all: set<Expectation>)
    reads all`retired
  {
    forall e {:trigger e in all} :: e in all && e.retired ==>
      forall p :: p in e.prerequisites && p in all ==> p.retired
  }

  /** Except for the expectations still on the stack. */
  ghost predicate Retiring(all: set<Expectation>, start: Expectation, stack: seq<Expectation>)
    reads all`retired
  {
    forall e {:trigger e in all} :: e in all && (e.retired || e == start) && e !in stack ==>
      forall p :: p in e.prerequisites && p in all ==> p.retired
  }

  /** The stack holds the start and transitive prerequisites of it. */
  ghost predicate OnPath(all: set<Expectation>, start: Expectation, stack: seq<Expectation>) {
    forall e :: e in stack ==> e in all && (e == start || Transitive(start, e))
  }

  /** What was retired still is, and everything else that is retired lies below the start. */
  ghost predicate RetiredFrom(all: set<Expectation>, was: set<Expectation>, start: Expectation)
    reads all`retired
  {
    forall e {:trigger e in all} :: e in all ==>
      (e in was ==> e.retired) && (e.retired ==> e in was || Transitive(start, e))
  }

  lemma {:induction false} ChainRetired(all: set<Expectation>, e: Expectation, p: Expectation, k: nat)
    requires Closed(all) && e in all && RetiredClosed(all) && Chain(e, p, k)
    requires forall q :: q in e.prerequisites ==> q.retired
    ensures p in all && p.retired
    decreases k
  {
    if k == 0 {
    } else {
      var q :| q in e.prerequisites && Chain(q, p, k - 1);
      ChainRetired(all, q, p, k - 1);
    }
  }

  lemma RetiredBelow(all: set<Expectation>, e: Expectation)
    requires Closed(all) && e in all && RetiredClosed(all) && e.retired
    ensures forall p :: Transitive(e, p) ==> p in all && p.retired
  {
    forall p | Transitive(e, p)
      ensures p in all && p.retired
    {
      var k: nat :| Chain(e, p, k);
      ChainRetired(all, e, p, k);
    }
  }

  lemma ReachedAreRetired(all: set<Expectation>, e: Expectation, p: Expectation)
    requires Closed(all) && e in all && Retiring(all, e, []) && Transitive(e, p)
    ensures p in all && p.retired
  {
    var k: nat :| Chain(e, p, k);
    ChainRetired(all, e, p, k);
  }

  // ----- Satisfied prerequisites -----

  ghost predicate BelowSatisfied(all: set<Expectation>, e: Expectation)
    reads all`calls
  {
    forall p {:trigger Transitive(e, p)} :: p in all && Transitive(e, p) ==> p.IsSatisfied()
  }

  /** The expectation is still to be checked: it lies below one on the stack. */
  ghost predicate Pending(stack: seq<Expectation>, p: Expectation) {
    exists e :: e in stack && Transitive(e, p)
  }

  lemma PendingBelow(all: set<Expectation>, base: seq<Expectation>, e: Expectation)
    requires e in all && Closed(all)
    requires forall k :: 0 <= k < |e.prerequisites| ==> e.prerequisites[k].IsSatisfied()
    ensures forall p :: Pending(base + [e], p) ==> p.IsSatisfied() || Pending(base + e.prerequisites, p)
  {
    hide Transitive;
    forall p | Pending(base + [e], p)
      ensures p.IsSatisfied() || Pending(base + e.prerequisites, p)
    {
      var x :| x in base + [e] && Transitive(x, p);
      if x in base {
        assert x in base + e.prerequisites;
      } else {
        TransitiveUnfold(e, p);
        if p !in e.prerequisites {
          var q :| q in e.prerequisites && Transitive(q, p);
          assert q in base + e.prerequisites;
        }
      }
    }
  }

  // ----- Termination of the traversals that keep no record of what they have visited -----

  /** All elements are members of rank below r. */
  ghost predicate Light(all: set<Expectation>, es: seq<Expectation>, r: nat) {
    forall e :: e in es ==> e in all && e.rank < r
  }

  /** The number of paths that start at e. */
  ghost function Weight(all: set<Expectation>, e: Expectation): nat
    requires Acyclic(all) && e in all
    decreases e.rank + 1, 0
  {
    1 + WeightAll(all, e.prerequisites, e.rank)
  }

  ghost function WeightAll(all: set<Expectation>, es: seq<Expectation>, r: nat): nat
    requires Acyclic(all) && Light(all, es, r)
    decreases r, |es|
  {
    if es == [] then 0 else WeightAll(all, es[..|es| - 1], r) + Weight(all, es[|es| - 1])
  }

  lemma WeightPush(all: set<Expectation>, es: seq<Expectation>, e: Expectation, r: nat)
    requires Acyclic(all) && Light(all, es, r) && e in all && e.rank < r
    ensures Light(all, es + [e], r)
    ensures WeightAll(all, es + [e], r) == WeightAll(all, es, r) + Weight(all, e)
  {
    assert (es + [e])[..|es|] == es;
  }

  lemma {:induction false} WeightJoin(all: set<Expectation>, a: seq<Expectation>, b: seq<Expectation>, r: nat, q: nat)
    requires Acyclic(all) && Light(all, a, r) && Light(all, b, q) && q <= r
    ensures Light(all, a + b, r)
    ensures WeightAll(all, a + b, r) == WeightAll(all, a, r) + WeightAll(all, b, q)
    decreases |b|
  {
    if b == [] {
      assert a + b == a;
    } else {
      var rest, e := b[..|b| - 1], b[|b| - 1];
      WeightJoin(all, a, rest, r, q);
      WeightPush(all, a + rest, e, r);
      assert a + b == a + rest + [e];
    }
  }

  /** Replacing an expectation on the stack by its prerequisites makes the stack lighter. */
  lemma ReplaceByPrerequisites(all: set<Expectation>, start: Expectation, base: seq<Expectation>, e: Expectation)
    requires Acyclic(all) && start in all && e in all
    requires OnPath(all, start, base + [e]) && Light(all, base + [e], start.rank + 1)
    ensures OnPath(all, start, base) && (e == start || Transitive(start, e))
    ensures OnPath(all, start, base + e.prerequisites) && Light(all, base, start.rank + 1)
    ensures Light(all, base + e.prerequisites, start.rank + 1)
    ensures WeightAll(all, base + e.prerequisites, start.rank + 1) < WeightAll(all, base + [e], start.rank + 1)
  {
    hide Transitive;
    var r := start.rank + 1;
    assert e in base + [e];
    assert forall x :: x in base ==> x in base + [e];
    WeightPush(all, base, e, r);
    WeightJoin(all, base, e.prerequisites, r, e.rank);
    forall p | p in base + e.prerequisites
      ensures p in all && (p == start || Transitive(start, p))
    {
      if p in e.prerequisites {
        TransitiveStep(start, e, p);
      }
    }
  }

  // ----- The pruned search -----

  /** A chain of k prerequisites that are satisfied and were never called leads from e to an
      unsatisfied prerequisite p. */
  ghost predicate FrontierChain(all: set<Expectation>, e: Expectation, p: Expectation, k: nat)
    reads all`calls
    decreases k
  {
    if k == 0 then p in e.prerequisites && p in all && !p.IsSatisfied()
    else exists q {:trigger q in e.prerequisites} ::
      q in e.prerequisites && q in all && q.IsSatisfied() && q.calls == 0 && FrontierChain(all, q, p, k - 1)
  }

  ghost predicate OnFrontier(all: set<Expectation>, e: Expectation, p: Expectation)
    reads all`calls
  {
    exists k: nat :: FrontierChain(all, e, p, k)
  }

  /** The unsatisfied prerequisites that the search for e reports. */
  ghost function Frontier(all: set<Expectation>, e: Expectation): set<Expectation>
    reads all`calls
  {
    set p | p in all && OnFrontier(all, e, p)
  }

  ghost function FrontierOfAll(all: set<Expectation>, stack: seq<Expectation>): set<Expectation>
    reads all`calls
  {
    set p, e | e in stack && p in Frontier(all, e) :: p
  }

  /** What is found at a prerequisite: itself, or what lies behind it if it was never called. */
  ghost function FrontierBy(all: set<Expectation>, q: Expectation): set<Expectation>
    requires q in all
    reads all`calls
  {
    if !q.IsSatisfied() then {q} else if q.calls == 0 then Frontier(all, q) else {}
  }

  ghost function FrontierThrough(all: set<Expectation>, qs: seq<Expectation>): set<Expectation>
    reads all`calls
  {
    set p, q | q in qs && q in all && p in FrontierBy(all, q) :: p
  }

  lemma FrontierUnfold(all: set<Expectation>, e: Expectation)
    requires Closed(all) && e in all
    ensures Frontier(all, e) == FrontierThrough(all, e.prerequisites)
  {
    forall p | p in Frontier(all, e)
      ensures p in FrontierThrough(all, e.prerequisites)
    {
      var k: nat :| FrontierChain(all, e, p, k);
      if k == 0 {
        assert p in FrontierBy(all, p);
      } else {
        var q :| q in e.prerequisites && q in all && q.IsSatisfied() && q.calls == 0 && FrontierChain(all, q, p, k - 1);
        assert p in FrontierBy(all, q);
      }
    }
    forall p | p in FrontierThrough(all, e.prerequisites)
      ensures p in Frontier(all, e)
    {
      var q :| q in e.prerequisites && q in all && p in FrontierBy(all, q);
      if q.IsSatisfied() {
        var k: nat :| FrontierChain(all, q, p, k);
        assert FrontierChain(all, e, p, k + 1);
      } else {
        assert FrontierChain(all, e, p, 0);
      }
    }
  }

  /** Found are the prerequisites that were called too rarely or too often, and what is found at those
      that may stay without a call and did. */
  lemma FrontierSteps(all: set<Expectation>, e: Expectation, p: Expectation)
    requires Closed(all) && e in all
    ensures p in Frontier(all, e) <==>
      exists q :: q in e.prerequisites
        && if q.calls < q.min || q.calls > q.max then p == q else q.calls == 0 && p in Frontier(all, q)
  {
    FrontierUnfold(all, e);
    hide Frontier;
    if p in Frontier(all, e) {
      var q :| q in e.prerequisites && q in all && p in FrontierBy(all, q);
    }
    if q :| q in e.prerequisites && if q.IsSatisfied() then q.calls == 0 && p in Frontier(all, q) else p == q {
      assert p in FrontierBy(all, q);
    }
  }

  lemma FrontierMembers(all: set<Expectation>, e: Expectation)
    ensures forall p :: p in Frontier(all, e) ==>
      p in all && Transitive(e, p) && (p.calls < p.min || p.calls > p.max)
  {
    forall p | p in Frontier(all, e)
      ensures p in all && Transitive(e, p) && !p.IsSatisfied()
    {
      var k: nat :| FrontierChain(all, e, p, k);
      FrontierIsUnsatisfied(all, e, p, k);
    }
  }

  lemma FrontierOne(all: set<Expectation>, e: Expectation)
    ensures FrontierOfAll(all, [e]) == Frontier(all, e)
    ensures FrontierOfAll(all, []) == {}
  {
    hide Frontier;
    forall p | p in Frontier(all, e)
      ensures p in FrontierOfAll(all, [e])
    {
      assert e in [e];
    }
  }

  lemma FrontierPush(all: set<Expectation>, stack: seq<Expectation>, e: Expectation)
    ensures FrontierOfAll(all, stack + [e]) == FrontierOfAll(all, stack) + Frontier(all, e)
  {
    hide Frontier;
    forall p
      ensures p in FrontierOfAll(all, stack + [e]) <==> p in FrontierOfAll(all, stack) || p in Frontier(all, e)
    {
      assert e in stack + [e];
      if x :| x in stack && p in Frontier(all, x) {
        assert x in stack + [e];
      }
    }
  }

  lemma ThroughNone(all: set<Expectation>)
    ensures FrontierThrough(all, []) == {}
  {
  }

  lemma ThroughPush(all: set<Expectation>, qs: seq<Expectation>, q: Expectation)
    requires q in all
    ensures FrontierThrough(all, qs + [q]) == FrontierThrough(all, qs) + FrontierBy(all, q)
  {
    hide FrontierBy;
    forall p
      ensures p in FrontierThrough(all, qs + [q]) <==> p in FrontierThrough(all, qs) || p in FrontierBy(all, q)
    {
      assert q in qs + [q];
      if x :| x in qs && x in all && p in FrontierBy(all, x) {
        assert x in qs + [q];
      }
    }
  }

  /** The search started at start, had stack0 and result0, and has visited the prerequisites done. */
  ghost predicate Visiting(all: set<Expectation>, start: Expectation, stack0: seq<Expectation>,
                           result0: set<Expectation>, stack: seq<Expectation>, result: set<Expectation>,
                           done: seq<Expectation>)
    requires Acyclic(all)
    reads all`calls
  {
    && OnPath(all, start, stack)
    && Light(all, stack, start.rank + 1) && Light(all, stack0 + done, start.rank + 1)
    && WeightAll(all, stack, start.rank + 1) <= WeightAll(all, stack0 + done, start.rank + 1)
    && result + FrontierOfAll(all, stack) == result0 + FrontierOfAll(all, stack0) + FrontierThrough(all, done)
  }

  lemma VisitNone(all: set<Expectation>, start: Expectation, stack0: seq<Expectation>, result0: set<Expectation>)
    requires Acyclic(all) && OnPath(all, start, stack0) && Light(all, stack0, start.rank + 1)
    ensures Visiting(all, start, stack0, result0, stack0, result0, [])
  {
    assert stack0 + [] == stack0;
    ThroughNone(all);
  }

  lemma VisitOne(all: set<Expectation>, start: Expectation, stack0: seq<Expectation>, result0: set<Expectation>,
                 stack: seq<Expectation>, result: set<Expectation>, done: seq<Expectation>, next: Expectation)
    requires Acyclic(all) && Visiting(all, start, stack0, result0, stack, result, done)
    requires next in all && next.rank <= start.rank && Transitive(start, next)
    ensures Visiting(all, start, stack0, result0,
                     if next.IsSatisfied() && next.calls == 0 then stack + [next] else stack,
                     if next.IsSatisfied() then result else result + {next},
                     done + [next])
  {
    hide FrontierOfAll, FrontierThrough, Frontier, Transitive;
    assert stack0 + (done + [next]) == stack0 + done + [next];
    WeightPush(all, stack, next, start.rank + 1);
    WeightPush(all, stack0 + done, next, start.rank + 1);
    ThroughPush(all, done, next);
    FrontierPush(all, stack, next);
  }

  lemma Visited(all: set<Expectation>, start: Expectation, stack0: seq<Expectation>, result0: set<Expectation>,
                stack: seq<Expectation>, result: set<Expectation>, done: seq<Expectation>)
    requires Acyclic(all) && Visiting(all, start, stack0, result0, stack, result, done)
    ensures OnPath(all, start, stack) && Light(all, stack, start.rank + 1) && Light(all, stack0 + done, start.rank + 1)
    ensures WeightAll(all, stack, start.rank + 1) <= WeightAll(all, stack0 + done, start.rank + 1)
    ensures result + FrontierOfAll(all, stack) == result0 + FrontierOfAll(all, stack0) + FrontierThrough(all, done)
  {
  }

  /** Whatever lies below an expectation that is satisfied and was called is satisfied. */
  ghost predicate CalledSettled(all: set<Expectation>)
    reads all`calls
  {
    forall e {:trigger BelowSatisfied(all, e)} :: e in all && e.IsSatisfied() && e.calls > 0 ==> BelowSatisfied(all, e)
  }

  lemma {:induction false} UnsatisfiedIsSeen(all: set<Expectation>, e: Expectation, p: Expectation, k: nat)
    requires Closed(all) && e in all && CalledSettled(all) && Chain(e, p, k) && p in all && !p.IsSatisfied()
    ensures Frontier(all, e) != {}
    decreases k
  {
    FrontierUnfold(all, e);
    hide Frontier;
    if k == 0 {
      assert p in FrontierBy(all, p);
      assert p in Frontier(all, e);
    } else {
      var q :| q in e.prerequisites && Chain(q, p, k - 1);
      var x := p;
      if !q.IsSatisfied() {
        x := q;
      } else {
        assert Transitive(q, p);
        assert !BelowSatisfied(all, q);
        UnsatisfiedIsSeen(all, q, p, k - 1);
        x :| x in Frontier(all, q);
      }
      assert x in FrontierBy(all, q);
      assert x in Frontier(all, e);
    }
  }

  lemma {:induction false} FrontierIsUnsatisfied(all: set<Expectation>, e: Expectation, p: Expectation, k: nat)
    requires FrontierChain(all, e, p, k)
    ensures p in all && !p.IsSatisfied() && Transitive(e, p)
    decreases k
  {
    if k == 0 {
      assert Chain(e, p, 0);
    } else {
      var q :| q in e.prerequisites && q in all && q.IsSatisfied() && q.calls == 0 && FrontierChain(all, q, p, k - 1);
      FrontierIsUnsatisfied(all, q, p, k - 1);
      TransitiveUnfold(e, p);
    }
  }

  /** The search finds nothing exactly when all transitive prerequisites are satisfied, although it
      does not look behind prerequisites that were called. */
  lemma PruningIsExact(all: set<Expectation>, e: Expectation)
    requires Closed(all) && e in all && CalledSettled(all)
    ensures BelowSatisfied(all, e) <==> Frontier(all, e) == {}
  {
    if p :| p in Frontier(all, e) {
      var k: nat :| FrontierChain(all, e, p, k);
      FrontierIsUnsatisfied(all, e, p, k);
    }
    if !BelowSatisfied(all, e) {
      var p :| p in all && Transitive(e, p) && !p.IsSatisfied();
      var k: nat :| Chain(e, p, k);
      UnsatisfiedIsSeen(all, e, p, k);
    }
  }

  // ----- What every sequence of calls keeps -----

  ghost predicate CanHandle(all: set<Expectation>, e: Expectation, matches: bool)
    reads all, e
  {
    !e.retired && BelowSatisfied(all, e) && matches
  }

  ghost predicate BelowDone(all: set<Expectation>, e: Expectation)
    reads all
  {
    forall p {:trigger Transitive(e, p)} :: p in all && Transitive(e, p) ==> p.retired && p.IsSatisfied()
  }

  /** Prerequisites of retired expectations are retired; and whatever lies below an expectation that
      was called, but not too often, is satisfied and retired. */
  ghost predicate Sound(all: set<Expectation>)
    reads all
  {
    && Acyclic(all) && RetiredClosed(all)
    && forall e {:trigger BelowDone(all, e)} :: e in all && 0 < e.calls <= e.max ==> BelowDone(all, e)
  }

  lemma NewIsSound(all: set<Expectation>)
    requires Acyclic(all) && forall e :: e in all ==> e.calls == 0 && !e.retired
    ensures Sound(all)
  {
  }

  /** In every state that calls can reach, the search for unsatisfied prerequisites finds nothing
      exactly when the expectation may handle calls, as far as its prerequisites are concerned. */
  lemma SoundPruning(all: set<Expectation>, e: Expectation)
    requires Sound(all) && e in all
    ensures BelowSatisfied(all, e) <==> Frontier(all, e) == {}
  {
    hide Transitive, Frontier;
    forall q | q in all && q.IsSatisfied() && q.calls > 0
      ensures BelowSatisfied(all, q)
    {
      assert BelowDone(all, q);
    }
    PruningIsExact(all, e);
  }

  lemma {:induction false} ChainDescends(all: set<Expectation>, e: Expectation, p: Expectation, k: nat)
    requires Acyclic(all) && e in all && Chain(e, p, k)
    ensures p.rank < e.rank
    decreases k
  {
    if k == 0 {
    } else {
      var q :| q in e.prerequisites && Chain(q, p, k - 1);
      ChainDescends(all, q, p, k - 1);
    }
  }

  lemma BelowIsOther(all: set<Expectation>, e: Expectation)
    requires Acyclic(all) && e in all
    ensures forall p {:trigger Transitive(e, p)} :: p in all && Transitive(e, p) ==> p != e
  {
    forall p | p in all && Transitive(e, p)
      ensures p != e
    {
      var k: nat :| Chain(e, p, k);
      ChainDescends(all, e, p, k);
    }
  }

  lemma ImmediateRetired(all: set<Expectation>, e: Expectation)
    requires Closed(all) && e in all && forall p :: p in all && Transitive(e, p) ==> p.retired
    ensures forall p :: p in e.prerequisites ==> p.retired
  {
    forall p | p in e.prerequisites
      ensures p.retired
    {
      assert Chain(e, p, 0);
      assert Transitive(e, p);
    }
  }

  /** The expectation declared last among those that can handle the call. */
  method FindMatchingExpectation(expectations: seq<Expectation>, matching: set<Expectation>,
                                 ghost all: set<Expectation>)
      returns (i: int)
    requires Acyclic(all) && forall e :: e in expectations ==> e in all
    ensures -1 <= i < |expectations|
    ensures i >= 0 ==> CanHandle(all, expectations[i], expectations[i] in matching)
    ensures i >= 0 ==>
      && !expectations[i].retired && expectations[i] in matching
      && forall p {:trigger Transitive(expectations[i], p)} :: p in all && Transitive(expectations[i], p) ==>
           p.min <= p.calls <= p.max
    ensures forall k :: i < k < |expectations| ==> !CanHandle(all, expectations[k], expectations[k] in matching)
  {
    hide BelowSatisfied;
    i := |expectations| - 1;
    while i >= 0
      invariant -1 <= i < |expectations|
      invariant forall k :: i < k < |expectations| ==> !CanHandle(all, expectations[k], expectations[k] in matching)
    {
      var yes := expectations[i].ShouldHandleArguments(expectations[i] in matching, all);
      if yes {
        return;
      }
      i := i - 1;
    }
  }

  /** One call of a mock function: the expectation that handles it, if any, counts it; an action is
      taken unless the call is excessive. */
  method HandleCall(expectations: seq<Expectation>, matching: set<Expectation>, ghost all: set<Expectation>)
      returns (i: int, excessive: bool, action: bool)
    requires Sound(all) && forall e :: e in expectations ==> e in all
    modifies all
    ensures Sound(all) && -1 <= i < |expectations|
    ensures i >= 0 ==> old(CanHandle(all, expectations[i], expectations[i] in matching))
    ensures forall k :: i < k < |expectations| ==> !old(CanHandle(all, expectations[k], expectations[k] in matching))
    ensures forall e :: e in all ==> e.calls == old(e.calls) + if i >= 0 && e == expectations[i] then 1 else 0
    ensures excessive <==> i >= 0 && old(expectations[i].calls) >= expectations[i].max
    ensures action <==> i >= 0 && old(expectations[i].calls) < expectations[i].max
    ensures !action ==> forall e :: e in all ==> e.retired == old(e.retired)
    ensures action ==> forall e :: e in all ==>
      (e.retired <==> old(e.retired) || Transitive(expectations[i], e)
                      || (e == expectations[i] && e.retiresOnSaturation && e.calls >= e.max))
  {
    hide BelowSatisfied, Sound, Transitive;
    SoundIsAcyclic(all);
    excessive, action := false, false;
    i := FindMatchingExpectation(expectations, matching, all);
    if i >= 0 {
      excessive := expectations[i].IsSaturated();
      action := expectations[i].GetActionForArguments(all);
    }
  }

  lemma SoundIsAcyclic(all: set<Expectation>)
    requires Sound(all)
    ensures Acyclic(all)
  {
  }

  /** The invariant holds after any sequence of calls on the mock functions of new expectations. */
  method HandleCalls(calls: seq<(seq<Expectation>, set<Expectation>)>, ghost all: set<Expectation>)
    requires Acyclic(all) && forall e :: e in all ==> e.calls == 0 && !e.retired
    requires forall k, e :: 0 <= k < |calls| && e in calls[k].0 ==> e in all
    modifies all
    ensures Sound(all)
    ensures forall e, p {:trigger Transitive(e, p)} :: e in all && p in all && Transitive(e, p) ==>
      && (e.retired ==> p.retired)
      && (0 < e.calls <= e.max ==> p.retired && p.min <= p.calls <= p.max)
  {
    hide Transitive;
    NewIsSound(all);
    var k := 0;
    while k < |calls|
      invariant k <= |calls| && Sound(all)
    {
      var _, _, _ := HandleCall(calls[k].0, calls[k].1, all);
      k := k + 1;
    }
    SoundBelow(all);
  }

  lemma SoundBelow(all: set<Expectation>)
    requires Sound(all)
    ensures forall e, p {:trigger Transitive(e, p)} :: e in all && p in all && Transitive(e, p) ==>
      && (e.retired ==> p.retired)
      && (0 < e.calls <= e.max ==> p.retired && p.min <= p.calls <= p.max)
  {
    hide Transitive;
    forall e, p | e in all && p in all && Transitive(e, p)
      ensures e.retired ==> p.retired
      ensures 0 < e.calls <= e.max ==> p.retired && p.IsSatisfied()
    {
      if e.retired {
        RetiredBelow(all, e);
      }
      if 0 < e.calls <= e.max {
        assert BelowDone(all, e);
      }
    }
  }
}
