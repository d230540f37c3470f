/** The connectivity matrix, the augmenting-path search for a maximum matching, and the two checks
    built on them. */
module Matching {
  import opened Graphs
  import opened Pigeonhole

  const UNUSED: int := -1

  // ----- The search state as values: partners of elements and of matchers -----

  /** Both arrays refer to each other, along edges of the graph; matcher `hole`, if there is one, may
      still name an element that has moved away. */
  ghost predicate Linked(g: Graph, left: seq<int>, right: seq<int>, hole: int)
    requires g.Wf()
  {
    && |left| == g.n && |right| == g.m
    && (forall l {:trigger left[l]} :: 0 <= l < g.n ==>
          left[l] == UNUSED || (g.Edge(l, left[l]) && right[left[l]] == l))
    && (forall r {:trigger right[r]} :: 0 <= r < g.m && r != hole ==>
          right[r] == UNUSED || (0 <= right[r] < g.n && left[right[r]] == r))
  }

  ghost predicate EdgesInto(g: Graph, l: int, rights: set<nat>)
    requires g.Wf()
  {
    forall r: nat :: g.Edge(l, r) ==> r in rights
  }

  /** All matchers of the set are matched, to elements that have no edge out of the set: no
      augmenting path leaves it. */
  ghost predicate DeadEnd(g: Graph, right: seq<int>, rights: set<nat>)
    requires g.Wf() && |right| == g.m
  {
    forall r :: r in rights ==> r < g.m && right[r] != UNUSED && EdgesInto(g, right[r], rights)
  }

  ghost function Seen(seen: seq<bool>): set<nat> {
    set r: nat | r < |seen| && seen[r]
  }

  ghost function Unseen(seen: seq<bool>): set<nat> {
    set r: nat | r < |seen| && !seen[r]
  }

  ghost predicate Grows(before: seq<bool>, after: seq<bool>) {
    |before| == |after| && forall r :: 0 <= r < |before| && before[r] ==> after[r]
  }

  /** Matchers seen since then are matched, and their elements have all their edges into seen ones. */
  ghost predicate Explored(g: Graph, right: seq<int>, before: seq<bool>, after: seq<bool>)
    requires g.Wf() && |right| == g.m
  {
    && Grows(before, after) && |after| == g.m
    && forall r {:trigger after[r]} :: 0 <= r < g.m && after[r] && !before[r] ==>
         right[r] != UNUSED && EdgesInto(g, right[r], Seen(after))
  }

  /** The effect of a successful search from element l: exactly l is newly matched, the partners of
      the matchers seen before and of every dead end are unchanged, and the matcher that l was
      matched to before is left with a stale reference. */
  ghost predicate Augmented(g: Graph, left: seq<int>, right: seq<int>, left': seq<int>, right': seq<int>,
                            l: nat, before: seq<bool>, dead: set<nat>)
    requires g.Wf() && l < g.n && |left| == g.n && |right| == g.m && |before| == g.m
  {
    && Linked(g, left', right', left[l])
    && (forall k {:trigger left'[k]} :: 0 <= k < g.n ==> (left'[k] != UNUSED <==> left[k] != UNUSED || k == l))
    && (forall r {:trigger right'[r]} :: 0 <= r < g.m && (before[r] || r in dead) ==> right'[r] == right[r])
    && !before[left'[l]]
    && !EdgesInto(g, l, dead)
  }

  /** Giving matcher r to element l when r is free. */
  lemma TakeFree(g: Graph, left: seq<int>, right: seq<int>, l: nat, r: nat, before: seq<bool>, dead: set<nat>)
    requires g.Wf() && Linked(g, left, right, UNUSED) && l < g.n && g.Edge(l, r) && |before| == g.m
    requires right[r] == UNUSED && !before[r] && DeadEnd(g, right, dead)
    ensures Augmented(g, left, right, left[l := r], right[r := l], l, before, dead)
  {
  }

  /** Giving matcher r to element l after its element k has found another one. */
  lemma TakeOver(g: Graph, left: seq<int>, right: seq<int>, left1: seq<int>, right1: seq<int>, l: nat, r: nat, k: nat,
                 before: seq<bool>, between: seq<bool>, dead: set<nat>)
    requires g.Wf() && Linked(g, left, right, UNUSED) && l < g.n && k < g.n && g.Edge(l, r)
    requires |before| == g.m && right[r] == k && !before[r] && DeadEnd(g, right, dead)
    requires left[l] == UNUSED || before[left[l]]
    requires Grows(before, between) && between[r]
    requires Augmented(g, left, right, left1, right1, k, between, dead)
    ensures Augmented(g, left, right, left1[l := r], right1[r := l], l, before, dead)
  {
    assert left[k] == r;
    assert left1[k] != r;
    if left[l] != UNUSED {
      assert right1[left[l]] == right[left[l]] == l;
    }
  }

  lemma WiderSeen(g: Graph, l: int, small: set<nat>, large: set<nat>)
    requires g.Wf() && EdgesInto(g, l, small) && small <= large
    ensures EdgesInto(g, l, large)
  {
  }

  /** What has been explored before a failed search is still explored after it. */
  lemma ExploredOn(g: Graph, right: seq<int>, start: seq<bool>, before: seq<bool>, after: seq<bool>, r: nat)
    requires g.Wf() && |right| == g.m && r < g.m && |before| == g.m
    requires Explored(g, right, start, before)
    requires Explored(g, right, before[r := true], after)
    requires right[r] != UNUSED && EdgesInto(g, right[r], Seen(after))
    ensures Explored(g, right, start, after)
  {
    assert Seen(before) <= Seen(after) by {
      forall q | q in Seen(before)
        ensures q in Seen(after)
      {
        assert before[r := true][q];
      }
    }
    forall q | 0 <= q < g.m && after[q] && !start[q]
      ensures right[q] != UNUSED && EdgesInto(g, right[q], Seen(after))
    {
      if q != r && before[q] {
        WiderSeen(g, right[q], Seen(before), Seen(after));
      } else if q != r {
        assert !before[r := true][q];
      }
    }
  }

  /** A failed search from an unmatched element shows why it cannot be matched: the matchers it has
      seen, taken together with their elements and itself, form a set of elements with fewer
      neighbours than members. */
  lemma FailureIsHallViolator(g: Graph, left: seq<int>, right: seq<int>, l: nat, seen: seq<bool>)
    requires g.Wf() && Linked(g, left, right, UNUSED) && l < g.n && left[l] == UNUSED && |seen| == g.m
    requires Explored(g, right, seq(g.m, r => false), seen) && EdgesInto(g, l, Seen(seen))
    ensures var elements := Partners(right, Seen(seen)) + {l};
      && |elements| == |Seen(seen)| + 1
      && forall k, r: nat :: k in elements && g.Edge(k, r) ==> r in Seen(seen)
    ensures DeadEnd(g, right, Seen(seen))
  {
    var none := seq(g.m, r => false);
    forall r | r in Seen(seen)
      ensures r < g.m && right[r] != UNUSED && EdgesInto(g, right[r], Seen(seen))
    {
      assert seen[r] && !none[r];
    }
    PartnersDistinct(g, left, right, Seen(seen));
    assert l !in Partners(right, Seen(seen));
  }

  ghost function Partners(right: seq<int>, rights: set<nat>): set<int> {
    set r | r in rights && r < |right| :: right[r]
  }

  lemma {:induction false} PartnersDistinct(g: Graph, left: seq<int>, right: seq<int>, rights: set<nat>)
    requires g.Wf() && Linked(g, left, right, UNUSED)
    requires forall r :: r in rights ==> r < g.m && right[r] != UNUSED
    ensures |Partners(right, rights)| == |rights|
    decreases |rights|
  {
    if rights == {} {
    } else {
      var r :| r in rights;
      PartnersDistinct(g, left, right, rights - {r});
      assert Partners(right, rights) == Partners(right, rights - {r}) + {right[r]};
      assert right[r] !in Partners(right, rights - {r});
    }
  }

  /** Two dead ends make a dead end. */
  lemma DeadEndsJoin(g: Graph, right: seq<int>, a: set<nat>, b: set<nat>)
    requires g.Wf() && |right| == g.m && DeadEnd(g, right, a) && DeadEnd(g, right, b)
    ensures DeadEnd(g, right, a + b)
  {
  }

  // ----- The connectivity matrix -----

  class MatchMatrix {
    const numElements: nat
    const numMatchers: nat
    const matched: array<bool>

    ghost predicate Valid() {
      matched.Length == numElements * numMatchers
    }

    ghost function Value(): (g: Graph)
      requires Valid()
      reads matched
      ensures g.Wf()
    {
      Graph(numElements, numMatchers, matched[..])
    }

    /** No edges. */
    constructor (elements: nat, matchers: nat)
      ensures Valid() && fresh(matched)
      ensures Value() == Graph(elements, matchers, Zeros(elements * matchers))
    {
      numElements, numMatchers := elements, matchers;
      matched := new bool[elements * matchers](i => false);
      new;
      assert matched[..] == Zeros(elements * matchers);
    }

    function HasEdge(l: nat, r: nat): (b: bool)
      requires Valid() && l < numElements && r < numMatchers
      reads matched
      ensures b == Value().Edge(l, r)
    {
      IndexInRange(l, r, numElements, numMatchers);
      matched[SpaceIndex(l, r, numMatchers)]
    }

    /** Changes one edge and no other. */
    method SetEdge(l: nat, r: nat, b: bool)
      requires Valid() && l < numElements && r < numMatchers
      modifies matched
      ensures Value().n == old(Value()).n && Value().m == old(Value()).m
      ensures forall k, q :: Value().Edge(k, q) <==> if k == l && q == r then b else old(Value()).Edge(k, q)
    {
      IndexInRange(l, r, numElements, numMatchers);
      ghost var was := Value();
      matched[SpaceIndex(l, r, numMatchers)] := b;
      forall k, q
        ensures Value().Edge(k, q) <==> if k == l && q == r then b else was.Edge(k, q)
      {
        if 0 <= k < numElements && 0 <= q < numMatchers {
          IndexInRange(k, q, numElements, numMatchers);
          if k != l || q != r {
            IndexInjective(l, r, k, q, numMatchers);
          }
        }
      }
    }

    /** Adds one to the matrix read as a binary number; false when that leaves it empty. */
    method NextGraph() returns (more: bool)
      requires Valid()
      modifies matched
      ensures matched[..] == Successor(old(matched[..]))
      ensures more <==> false in old(matched[..])
    {
      hide SpaceIndex;
      ghost var was := matched[..];
      RowSteps(0, 0, numMatchers);
      var l := 0;
      while l < numElements
        invariant l <= numElements
        invariant Cleared(was, matched[..], SpaceIndex(l, 0, numMatchers))
      {
        var r := 0;
        while r < numMatchers
          invariant r <= numMatchers
          invariant Cleared(was, matched[..], SpaceIndex(l, r, numMatchers))
        {
          IndexInRange(l, r, numElements, numMatchers);
          var k := SpaceIndex(l, r, numMatchers);
          if !matched[k] {
            matched[k] := true;
            ClearedToZero(was, matched[..], k);
            return true;
          }
          matched[k] := false;
          RowSteps(l, r, numMatchers);
          r := r + 1;
        }
        RowSteps(l, r, numMatchers);
        l := l + 1;
      }
      LastRow(numElements, numMatchers);
      ClearedAll(was, matched[..]);
      return false;
    }
  }

  /** The first k bits were ones and are zeros now; the others are as they were. */
  ghost predicate Cleared(was: seq<bool>, now: seq<bool>, k: nat) {
    && |was| == |now| && k <= |was|
    && (forall i :: 0 <= i < k ==> was[i] && !now[i])
    && (forall i :: k <= i < |was| ==> was[i] == now[i])
  }

  lemma ClearedToZero(was: seq<bool>, now: seq<bool>, k: nat)
    requires |was| == |now| && k < |was| && now[k] && !was[k] && Cleared(was, now[k := false], k)
    ensures now == Successor(was) && false in was
  {
    hide Successor;
    SuccessorAt(was, k);
    forall i | 0 <= i < |was|
      ensures now[i] == Successor(was)[i]
    {
      if i != k {
        assert now[k := false][i] == now[i];
      }
    }
  }

  lemma ClearedAll(was: seq<bool>, now: seq<bool>)
    requires Cleared(was, now, |was|)
    ensures now == Successor(was) && false !in was
  {
    hide Successor;
    SuccessorAt(was, |was|);
  }

  // ----- The search -----

  class MaxBipartiteMatchState {
    const graph: MatchMatrix
    const left: array<int>
    const right: array<int>

    ghost predicate Sized() {
      graph.Valid() && left != right && left.Length == graph.numElements && right.Length == graph.numMatchers
    }

    constructor (g: MatchMatrix)
      requires g.Valid()
      ensures graph == g && Sized() && fresh(left) && fresh(right)
      ensures forall l :: 0 <= l < left.Length ==> left[l] == UNUSED
      ensures forall r :: 0 <= r < right.Length ==> right[r] == UNUSED
    {
      graph := g;
      left := new int[g.numElements](i => UNUSED);
      right := new int[g.numMatchers](i => UNUSED);
    }

    /** Searches an augmenting path from element l through matchers not seen yet. */
    method TryAugment(l: nat, seen: array<bool>, ghost g: Graph, ghost dead: set<nat>) returns (ok: bool)
      requires Sized() && g == graph.Value() && seen != graph.matched && seen.Length == g.m
      requires Linked(g, left[..], right[..], UNUSED) && DeadEnd(g, right[..], dead)
      requires l < g.n && (left[l] == UNUSED || seen[left[l]])
      modifies left, right, seen
      ensures ok ==> Augmented(g, old(left[..]), old(right[..]), left[..], right[..], l, old(seen[..]), dead)
      ensures !ok ==> left[..] == old(left[..]) && right[..] == old(right[..])
      ensures !ok ==> Explored(g, right[..], old(seen[..]), seen[..]) && EdgesInto(g, l, Seen(seen[..]))
      decreases Unseen(seen[..])
    {
      ghost var left0, right0, seen0 := left[..], right[..], seen[..];
      var r := 0;
      while r < graph.numMatchers
        invariant r <= g.m
        invariant left[..] == left0 && right[..] == right0
        invariant Explored(g, right0, seen0, seen[..])
        invariant forall q :: 0 <= q < r && g.Edge(l, q) ==> seen[q]
      {
        if !seen[r] && graph.HasEdge(l, r) {
          ghost var before := seen[..];
          seen[r] := true;
          if right[r] == UNUSED {
            TakeFree(g, left0, right0, l, r, seen0, dead);
            left[l] := r;
            right[r] := l;
            return true;
          }
          ghost var between := seen[..];
          assert between == before[r := true];
          assert r in Unseen(seen0) && r !in Unseen(between);
          var k := right[r];
          var moved := TryAugment(k, seen, g, dead);
          if moved {
            TakeOver(g, left0, right0, left[..], right[..], l, r, k, seen0, between, dead);
            left[l] := r;
            right[r] := l;
            return true;
          }
          ExploredOn(g, right0, seen0, before, seen[..], r);
        }
        r := r + 1;
      }
      return false;
    }

    /** Searches once from every element; after each search the pairs found so far are a maximum
        matching of the elements tried so far.  Then reads off the matched pairs. */
    method Compute() returns (result: seq<Pair>)
      requires Sized()
      requires forall l :: 0 <= l < left.Length ==> left[l] == UNUSED
      requires forall r :: 0 <= r < right.Length ==> right[r] == UNUSED
      modifies left, right
      ensures IsMaximum(graph.Value(), result)
    {
      hide Progress;
      ghost var g := graph.Value();
      ghost var dead: set<nat> := {};
      NoProgress(g, left[..], right[..]);
      var l := 0;
      while l < graph.numElements
        invariant l <= g.n && Progress(g, left[..], right[..], l, dead)
      {
        dead := TryElement(l, g, dead);
        l := l + 1;
      }
      result := MatchedOnes(g, dead);
    }

    /** One turn of the search loop, with a fresh record of seen matchers. */
    method TryElement(l: nat, ghost g: Graph, ghost dead: set<nat>) returns (ghost dead': set<nat>)
      requires Sized() && g == graph.Value() && l < g.n && Progress(g, left[..], right[..], l, dead)
      modifies left, right
      ensures Progress(g, left[..], right[..], l + 1, dead')
    {
      hide Linked, Exhausted, IsMaximumBelow;
      NotTried(g, left[..], right[..], l, dead);
      var seen := new bool[graph.numMatchers](i => false);
      ghost var left0, right0, seen0 := left[..], right[..], seen[..];
      var ok := TryAugment(l, seen, g, dead);
      if ok {
        dead' := dead;
        ProgressByMatch(g, left0, right0, left[..], right[..], l, seen0, dead);
      } else {
        dead' := dead + Seen(seen[..]);
        assert seen0 == seq(g.m, i => false);
        ProgressByFailure(g, left0, right0, l, dead, seen[..]);
      }
    }

    /** The matched pairs, in the order of the elements. */
    method MatchedOnes(ghost g: Graph, ghost dead: set<nat>) returns (result: seq<Pair>)
      requires Sized() && g == graph.Value() && Progress(g, left[..], right[..], g.n, dead)
      ensures IsMaximum(g, result)
    {
      hide Exhausted, IsMaximumBelow, IsMaximum;
      ghost var ls := left[..];
      result := [];
      var l := 0;
      while l < left.Length
        invariant l <= left.Length == g.n
        invariant result == MatchedPairs(g, ls, l)
      {
        var r := left[l];
        assert ls[l] == r;
        if r != UNUSED {
          result := result + [(l, r)];
        }
        l := l + 1;
      }
      MaximumOfAll(g, result);
    }
  }

  /** After the first l searches the later elements are unmatched, and the unmatched ones among the
      first have all their edges into a dead end. */
  ghost predicate Exhausted(g: Graph, left: seq<int>, right: seq<int>, l: nat, dead: set<nat>)
    requires g.Wf() && |left| == g.n && |right| == g.m
  {
    && DeadEnd(g, right, dead)
    && (forall k {:trigger left[k]} :: l <= k < g.n ==> left[k] == UNUSED)
    && (forall k {:trigger left[k]} :: 0 <= k < l && k < g.n && left[k] == UNUSED ==> EdgesInto(g, k, dead))
  }

  lemma ExhaustedByMatch(g: Graph, left: seq<int>, right: seq<int>, left': seq<int>, right': seq<int>,
                         l: nat, before: seq<bool>, dead: set<nat>)
    requires g.Wf() && l < g.n && Linked(g, left, right, UNUSED) && |before| == g.m && left[l] == UNUSED
    requires Exhausted(g, left, right, l, dead) && Augmented(g, left, right, left', right', l, before, dead)
    ensures Linked(g, left', right', UNUSED) && Exhausted(g, left', right', l + 1, dead)
  {
    forall r | r in dead
      ensures right'[r] == right[r]
    {
    }
  }

  lemma ExhaustedByFailure(g: Graph, left: seq<int>, right: seq<int>, l: nat, dead: set<nat>, seen: set<nat>)
    requires g.Wf() && l < g.n && Linked(g, left, right, UNUSED) && left[l] == UNUSED
    requires Exhausted(g, left, right, l, dead) && DeadEnd(g, right, seen) && EdgesInto(g, l, seen)
    ensures Exhausted(g, left, right, l + 1, dead + seen)
  {
    DeadEndsJoin(g, right, dead, seen);
    forall k | 0 <= k < l + 1 && left[k] == UNUSED
      ensures EdgesInto(g, k, dead + seen)
    {
      if k < l {
        WiderSeen(g, k, dead, dead + seen);
      }
    }
  }

  /** The matched pairs among the first k elements, in order. */
  ghost function MatchedPairs(g: Graph, left: seq<int>, k: nat): seq<Pair>
    requires g.Wf() && k <= |left| == g.n
    requires forall l :: 0 <= l < |left| ==> left[l] == UNUSED || g.Edge(l, left[l])
  {
    if k == 0 then []
    else MatchedPairs(g, left, k - 1) + if left[k - 1] == UNUSED then [] else [(k - 1, left[k - 1])]
  }

  lemma {:induction false} PairIndex(g: Graph, left: seq<int>, k: nat, l: nat) returns (i: nat)
    requires g.Wf() && l < k <= |left| == g.n && left[l] != UNUSED
    requires forall l :: 0 <= l < |left| ==> left[l] == UNUSED || g.Edge(l, left[l])
    ensures i < |MatchedPairs(g, left, k)| && MatchedPairs(g, left, k)[i] == (l, left[l])
    decreases k
  {
    if l == k - 1 {
      i := |MatchedPairs(g, left, k - 1)|;
    } else {
      i := PairIndex(g, left, k - 1, l);
    }
  }

  lemma {:induction false} PairsMatch(g: Graph, left: seq<int>, right: seq<int>, k: nat)
    requires g.Wf() && Linked(g, left, right, UNUSED) && k <= g.n
    ensures IsMatching(g, MatchedPairs(g, left, k))
    ensures forall i {:trigger MatchedPairs(g, left, k)[i]} :: 0 <= i < |MatchedPairs(g, left, k)| ==>
      var p := MatchedPairs(g, left, k)[i]; p.0 < k && left[p.0] == p.1
    decreases k
  {
    if k == 0 {
    } else {
      PairsMatch(g, left, right, k - 1);
    }
  }

  /** The unmatched elements among the first l cannot be matched: the pairs of the first l elements
      are a maximum matching of them. */
  lemma ExhaustedIsMaximum(g: Graph, left: seq<int>, right: seq<int>, l: nat, dead: set<nat>)
    requires g.Wf() && Linked(g, left, right, UNUSED) && l <= g.n && Exhausted(g, left, right, l, dead)
    ensures IsMaximumBelow(g, MatchedPairs(g, left, l), l)
  {
    var ps := MatchedPairs(g, left, l);
    PairsMatch(g, left, right, l);
    forall r | r in dead
      ensures r in Seconds(ps)
    {
      assert left[right[r]] == r && right[r] < l;
      var i := PairIndex(g, left, l, right[r]);
      assert Seconds(ps)[i] == r;
    }
    forall e: nat, r: nat | e < l && g.Edge(e, r)
      ensures r in dead || e in LeftsOutside(ps, dead)
    {
      var q := left[e];
      if q == UNUSED || q in dead {
        assert EdgesInto(g, e, dead);
      } else {
        var i := PairIndex(g, left, l, e);
        LeftsOutsideContents(ps, dead, i);
      }
    }
    CertifiedMaximum(g, ps, dead, l);
  }

  /** The state after the first l searches. */
  ghost predicate Progress(g: Graph, left: seq<int>, right: seq<int>, l: nat, dead: set<nat>)
    requires g.Wf()
  {
    && l <= g.n && Linked(g, left, right, UNUSED) && Exhausted(g, left, right, l, dead)
    && IsMaximumBelow(g, MatchedPairs(g, left, l), l)
  }

  lemma NoProgress(g: Graph, left: seq<int>, right: seq<int>)
    requires g.Wf() && |left| == g.n && |right| == g.m
    requires (forall l :: 0 <= l < g.n ==> left[l] == UNUSED) && (forall r :: 0 <= r < g.m ==> right[r] == UNUSED)
    ensures Progress(g, left, right, 0, {})
  {
    ExhaustedIsMaximum(g, left, right, 0, {});
  }

  lemma NotTried(g: Graph, left: seq<int>, right: seq<int>, l: nat, dead: set<nat>)
    requires g.Wf() && l < g.n && Progress(g, left, right, l, dead)
    ensures left[l] == UNUSED && DeadEnd(g, right, dead)
  {
  }

  lemma ProgressSizes(g: Graph, left: seq<int>, right: seq<int>, l: nat, dead: set<nat>)
    requires g.Wf() && Progress(g, left, right, l, dead)
    ensures |left| == g.n && |right| == g.m
  {
  }

  lemma ProgressByMatch(g: Graph, left: seq<int>, right: seq<int>, left': seq<int>, right': seq<int>,
                        l: nat, before: seq<bool>, dead: set<nat>)
    requires g.Wf() && l < g.n && |before| == g.m && Progress(g, left, right, l, dead)
    requires Augmented(g, left, right, left', right', l, before, dead)
    ensures Progress(g, left', right', l + 1, dead)
  {
    hide Linked, Exhausted, IsMaximumBelow, DeadEnd, EdgesInto, Explored, Augmented;
    ProgressSizes(g, left, right, l, dead);
    NotTried(g, left, right, l, dead);
    ExhaustedByMatch(g, left, right, left', right', l, before, dead);
    ExhaustedIsMaximum(g, left', right', l + 1, dead);
  }

  lemma ProgressByFailure(g: Graph, left: seq<int>, right: seq<int>, l: nat, dead: set<nat>, seen: seq<bool>)
    requires g.Wf() && l < g.n && |seen| == g.m && Progress(g, left, right, l, dead)
    requires Explored(g, right, seq(g.m, r => false), seen) && EdgesInto(g, l, Seen(seen))
    ensures Progress(g, left, right, l + 1, dead + Seen(seen))
  {
    hide Linked, Exhausted, IsMaximumBelow, DeadEnd, EdgesInto, Explored, Augmented;
    ProgressSizes(g, left, right, l, dead);
    NotTried(g, left, right, l, dead);
    FailureIsHallViolator(g, left, right, l, seen);
    ExhaustedByFailure(g, left, right, l, dead, Seen(seen));
    ExhaustedIsMaximum(g, left, right, l + 1, dead + Seen(seen));
  }

  method FindMaxBipartiteMatching(g: MatchMatrix) returns (result: seq<Pair>)
    requires g.Valid()
    ensures IsMaximum(g.Value(), result)
  {
    var state := new MaxBipartiteMatchState(g);
    result := state.Compute();
  }

  // ----- The checks of an unordered matcher -----

  const SUPERSET: bv2 := 1
  const SUBSET: bv2 := 2
  const EXACT_MATCH: bv2 := SUPERSET | SUBSET

  function Superset(flags: bv2): bool {
    flags & SUPERSET != 0
  }

  function Subset(flags: bv2): bool {
    flags & SUBSET != 0
  }

  lemma FlagMeaning()
    ensures Superset(SUPERSET) && !Subset(SUPERSET) && !Superset(SUBSET) && Subset(SUBSET)
    ensures Superset(EXACT_MATCH) && Subset(EXACT_MATCH)
  {
  }

  /** Whether a pairing exists that covers all matchers, all elements, or both, as the flags demand. */
  method FindPairing(matrix: MatchMatrix, flags: bv2) returns (ok: bool)
    requires matrix.Valid()
    ensures ok <==> Pairable(matrix.Value(), Superset(flags), Subset(flags))
    ensures var g := matrix.Value();
      && (flags == SUPERSET ==> (ok <==> exists ps :: IsMatching(g, ps) && CoversMatchers(g, ps)))
      && (flags == SUBSET ==> (ok <==> exists ps :: IsMatching(g, ps) && CoversElements(g, ps)))
      && (flags == EXACT_MATCH ==>
            (ok <==> exists ps :: IsMatching(g, ps) && CoversElements(g, ps) && CoversMatchers(g, ps)))
  {
    FlagMeaning();
    PairableIsBijection(matrix.Value());
    var matches := FindMaxBipartiteMatching(matrix);
    MaximumDecides(matrix.Value(), matches, Superset(flags), Subset(flags));
    var maxFlow := |matches|;
    if Superset(flags) && maxFlow < matrix.numMatchers {
      return false;
    }
    if Subset(flags) && maxFlow < matrix.numElements {
      return false;
    }
    return true;
  }

  /** Edge (e, q) comes before edge (l, r) in element-major order. */
  ghost predicate Before(e: int, q: int, l: int, r: int) {
    e < l || (e == l && q < r)
  }

  ghost predicate ElementHit(g: Graph, e: int, l: int, r: int)
    requires g.Wf()
  {
    exists q :: g.Edge(e, q) && Before(e, q, l, r)
  }

  ghost predicate MatcherHit(g: Graph, q: int, l: int, r: int)
    requires g.Wf()
  {
    exists e :: g.Edge(e, q) && Before(e, q, l, r)
  }

  ghost predicate HitsRecorded(g: Graph, elements: seq<bool>, matchers: seq<bool>, l: int, r: int)
    requires g.Wf()
  {
    && |elements| == g.n && |matchers| == g.m
    && (forall e {:trigger elements[e]} :: 0 <= e < g.n ==> (elements[e] <==> ElementHit(g, e, l, r)))
    && (forall q {:trigger matchers[q]} :: 0 <= q < g.m ==> (matchers[q] <==> MatcherHit(g, q, l, r)))
  }

  lemma NothingRecorded(g: Graph, elements: seq<bool>, matchers: seq<bool>)
    requires g.Wf() && |elements| == g.n && |matchers| == g.m
    requires (forall e :: 0 <= e < g.n ==> !elements[e]) && (forall q :: 0 <= q < g.m ==> !matchers[q])
    ensures HitsRecorded(g, elements, matchers, 0, 0)
  {
  }

  lemma RecordEdge(g: Graph, elements: seq<bool>, matchers: seq<bool>, l: nat, r: nat)
    requires g.Wf() && l < g.n && r < g.m && HitsRecorded(g, elements, matchers, l, r)
    ensures var b := g.Edge(l, r);
      HitsRecorded(g, elements[l := elements[l] || b], matchers[r := matchers[r] || b], l, r + 1)
  {
    forall e, q
      ensures Before(e, q, l, r + 1) <==> Before(e, q, l, r) || (e == l && q == r)
    {
    }
  }

  lemma RecordRow(g: Graph, elements: seq<bool>, matchers: seq<bool>, l: nat)
    requires g.Wf() && l < g.n && HitsRecorded(g, elements, matchers, l, g.m)
    ensures HitsRecorded(g, elements, matchers, l + 1, 0)
  {
    forall e, q | g.Edge(e, q)
      ensures Before(e, q, l, g.m) <==> Before(e, q, l + 1, 0)
    {
    }
  }

  lemma RecordedAll(g: Graph, elements: seq<bool>, matchers: seq<bool>)
    requires g.Wf() && HitsRecorded(g, elements, matchers, g.n, 0)
    ensures forall e: nat :: e < g.n ==> (elements[e] <==> ElementHasEdge(g, e))
    ensures forall q: nat :: q < g.m ==> (matchers[q] <==> MatcherHasEdge(g, q))
  {
  }

  ghost function SomeElement(g: Graph, r: nat): (l: nat)
    requires g.Wf() && MatcherHasEdge(g, r)
    ensures g.Edge(l, r)
  {
    var l: nat :| l < g.n && g.Edge(l, r);
    l
  }

  ghost function SomeMatcher(g: Graph, l: nat): (r: nat)
    requires g.Wf() && ElementHasEdge(g, l)
    ensures g.Edge(l, r)
  {
    var r: nat :| r < g.m && g.Edge(l, r);
    r
  }

  /** No matcher is without an edge exactly when each can be given some element; unlike in a pairing,
      an element may be given to several. */
  lemma NoLoneMatcher(g: Graph)
    requires g.Wf()
    ensures NoLoneNode(g, true, false) <==>
      exists f: seq<nat> :: |f| == g.m && forall r: nat :: r < g.m ==> g.Edge(f[r], r)
  {
    hide Graph.Edge;
    if NoLoneNode(g, true, false) {
      var f := seq(g.m, r requires 0 <= r < g.m => SomeElement(g, r));
      assert |f| == g.m && forall r: nat :: r < g.m ==> g.Edge(f[r], r);
    }
    if f: seq<nat> :| |f| == g.m && forall r: nat :: r < g.m ==> g.Edge(f[r], r) {
      forall r: nat | r < g.m
        ensures MatcherHasEdge(g, r)
      {
        EdgeEnds(g, f[r], r);
      }
    }
  }

  /** Likewise for the elements. */
  lemma NoLoneElement(g: Graph)
    requires g.Wf()
    ensures NoLoneNode(g, false, true) <==>
      exists f: seq<nat> :: |f| == g.n && forall l: nat :: l < g.n ==> g.Edge(l, f[l])
  {
    hide Graph.Edge;
    if NoLoneNode(g, false, true) {
      var f := seq(g.n, l requires 0 <= l < g.n => SomeMatcher(g, l));
      assert |f| == g.n && forall l: nat :: l < g.n ==> g.Edge(l, f[l]);
    }
    if f: seq<nat> :| |f| == g.n && forall l: nat :: l < g.n ==> g.Edge(l, f[l]) {
      forall l: nat | l < g.n
        ensures ElementHasEdge(g, l)
      {
        EdgeEnds(g, l, f[l]);
      }
    }
  }

  lemma EdgeEnds(g: Graph, l: nat, r: nat)
    requires g.Wf() && g.Edge(l, r)
    ensures ElementHasEdge(g, l) && MatcherHasEdge(g, r)
  {
  }

  /** Which elements and which matchers have an edge. */
  method RecordEdges(matrix: MatchMatrix) returns (elementMatched: array<bool>, matcherMatched: array<bool>)
    requires matrix.Valid()
    ensures elementMatched.Length == matrix.numElements && matcherMatched.Length == matrix.numMatchers
    ensures forall l: nat :: l < elementMatched.Length ==> (elementMatched[l] <==> ElementHasEdge(matrix.Value(), l))
    ensures forall r: nat :: r < matcherMatched.Length ==> (matcherMatched[r] <==> MatcherHasEdge(matrix.Value(), r))
  {
    hide HitsRecorded, ElementHasEdge, MatcherHasEdge;
    ghost var g := matrix.Value();
    elementMatched := new bool[matrix.numElements](i => false);
    matcherMatched := new bool[matrix.numMatchers](i => false);
    NothingRecorded(g, elementMatched[..], matcherMatched[..]);
    var l := 0;
    while l < matrix.numElements
      invariant l <= g.n && g == matrix.Value()
      invariant HitsRecorded(g, elementMatched[..], matcherMatched[..], l, 0)
    {
      var r := 0;
      while r < matrix.numMatchers
        invariant r <= g.m && g == matrix.Value()
        invariant HitsRecorded(g, elementMatched[..], matcherMatched[..], l, r)
      {
        var matched := matrix.HasEdge(l, r);
        RecordEdge(g, elementMatched[..], matcherMatched[..], l, r);
        ghost var es, ms := elementMatched[..], matcherMatched[..];
        elementMatched[l] := elementMatched[l] || matched;
        matcherMatched[r] := matcherMatched[r] || matched;
        assert elementMatched[..] == es[l := es[l] || matched] && matcherMatched[..] == ms[r := ms[r] || matched];
        r := r + 1;
      }
      RecordRow(g, elementMatched[..], matcherMatched[..], l);
      l := l + 1;
    }
    RecordedAll(g, elementMatched[..], matcherMatched[..]);
  }

  /** The cheap check: every matcher, or element, that must be paired has an edge at all. */
  method VerifyMatchMatrix(matrix: MatchMatrix, flags: bv2) returns (result: bool)
    requires matrix.Valid()
    ensures result <==> NoLoneNode(matrix.Value(), Superset(flags), Subset(flags))
    ensures var g := matrix.Value();
      && (flags == SUPERSET ==>
            (result <==> exists f: seq<nat> :: |f| == g.m && forall r: nat :: r < g.m ==> g.Edge(f[r], r)))
      && (flags == SUBSET ==>
            (result <==> exists f: seq<nat> :: |f| == g.n && forall l: nat :: l < g.n ==> g.Edge(l, f[l])))
      && (flags == EXACT_MATCH ==>
            (result <==>
              && (exists f: seq<nat> :: |f| == g.m && forall r: nat :: r < g.m ==> g.Edge(f[r], r))
              && (exists f: seq<nat> :: |f| == g.n && forall l: nat :: l < g.n ==> g.Edge(l, f[l]))))
  {
    hide ElementHasEdge, MatcherHasEdge, Graph.Edge;
    FlagMeaning();
    NoLoneMatcher(matrix.Value());
    NoLoneElement(matrix.Value());
    result := true;
    var elementMatched, matcherMatched := RecordEdges(matrix);
    if Superset(flags) {
      var mi := 0;
      while mi < matcherMatched.Length
        invariant mi <= matcherMatched.Length
        invariant result <==> forall q :: 0 <= q < mi ==> matcherMatched[q]
      {
        if !matcherMatched[mi] {
          result := false;
        }
        mi := mi + 1;
      }
    }
    ghost var half := result;
    if Subset(flags) {
      var ei := 0;
      while ei < elementMatched.Length
        invariant ei <= elementMatched.Length
        invariant result <==> half && forall e :: 0 <= e < ei ==> elementMatched[e]
      {
        if !elementMatched[ei] {
          result := false;
        }
        ei := ei + 1;
      }
    }
  }

  /** What the matchers say of the elements of a container: one row for every element. */
  predicate IsTable(outcomes: seq<seq<bool>>, matchers: nat) {
    forall l :: 0 <= l < |outcomes| ==> |outcomes[l]| == matchers
  }

  ghost predicate RecordedAt(outcomes: seq<seq<bool>>, m: nat, did: seq<bool>, k: nat, q: nat)
    requires IsTable(outcomes, m) && k < |outcomes| && q < m
  {
    SpaceIndex(k, q, m) < |did| && did[SpaceIndex(k, q, m)] == outcomes[k][q]
  }

  /** The outcomes that come before (l, r) have been recorded at their offsets. */
  ghost predicate Recorded(outcomes: seq<seq<bool>>, m: nat, did: seq<bool>, l: nat, r: nat)
    requires IsTable(outcomes, m)
  {
    && |did| == SpaceIndex(l, r, m)
    && forall k: nat, q: nat :: k < |outcomes| && q < m && Before(k, q, l, r) ==> RecordedAt(outcomes, m, did, k, q)
  }

  lemma RecordNone(outcomes: seq<seq<bool>>, m: nat)
    requires IsTable(outcomes, m)
    ensures Recorded(outcomes, m, [], 0, 0)
  {
    RowSteps(0, 0, m);
  }

  lemma RecordOne(outcomes: seq<seq<bool>>, m: nat, did: seq<bool>, l: nat, r: nat)
    requires IsTable(outcomes, m) && l < |outcomes| && r < m && Recorded(outcomes, m, did, l, r)
    ensures Recorded(outcomes, m, did + [outcomes[l][r]], l, r + 1)
  {
    hide SpaceIndex;
    RowSteps(l, r, m);
    var now := did + [outcomes[l][r]];
    forall k: nat, q: nat | k < |outcomes| && q < m && Before(k, q, l, r + 1)
      ensures RecordedAt(outcomes, m, now, k, q)
    {
      if k != l || q != r {
        assert RecordedAt(outcomes, m, did, k, q);
      }
    }
  }

  lemma RecordOutcomes(outcomes: seq<seq<bool>>, m: nat, did: seq<bool>, l: nat)
    requires IsTable(outcomes, m) && l < |outcomes| && Recorded(outcomes, m, did, l, m)
    ensures Recorded(outcomes, m, did, l + 1, 0)
  {
    RowSteps(l, m, m);
  }

  /** All outcomes in one sequence, in element-major order. */
  method CollectOutcomes(outcomes: seq<seq<bool>>, matchers: nat) returns (didMatch: seq<bool>)
    requires IsTable(outcomes, matchers)
    ensures Recorded(outcomes, matchers, didMatch, |outcomes|, 0)
  {
    hide Recorded, SpaceIndex;
    didMatch := [];
    RecordNone(outcomes, matchers);
    var l := 0;
    while l < |outcomes|
      invariant l <= |outcomes| && Recorded(outcomes, matchers, didMatch, l, 0)
    {
      var r := 0;
      while r < matchers
        invariant r <= matchers && Recorded(outcomes, matchers, didMatch, l, r)
      {
        RecordOne(outcomes, matchers, didMatch, l, r);
        didMatch := didMatch + [outcomes[l][r]];
        r := r + 1;
      }
      RecordOutcomes(outcomes, matchers, didMatch, l);
      l := l + 1;
    }
  }

  /** The edges before (l, r) are the positive outcomes. */
  ghost predicate EdgesSet(outcomes: seq<seq<bool>>, g: Graph, l: nat, r: nat)
    requires g.Wf() && IsTable(outcomes, g.m)
  {
    && g.n == |outcomes|
    && forall k: nat, q: nat :: k < g.n && q < g.m && Before(k, q, l, r) ==> (g.Edge(k, q) <==> outcomes[k][q])
  }

  /** The matrix has an edge for every positive outcome and no other. */
  method AnalyzeElements(outcomes: seq<seq<bool>>, matchers: nat) returns (matrix: MatchMatrix)
    requires IsTable(outcomes, matchers)
    ensures fresh(matrix) && fresh(matrix.matched) && matrix.Valid() && matrix.numMatchers == matchers
    ensures EdgesSet(outcomes, matrix.Value(), |outcomes|, 0)
  {
    hide SpaceIndex;
    var didMatch := CollectOutcomes(outcomes, matchers);
    matrix := new MatchMatrix(|outcomes|, matchers);
    var l, next := 0, 0;
    RowSteps(0, 0, matchers);
    while l < |outcomes|
      invariant l <= |outcomes| && next == SpaceIndex(l, 0, matchers)
      invariant EdgesSet(outcomes, matrix.Value(), l, 0)
    {
      var r := 0;
      while r < matchers
        invariant r <= matchers && next == SpaceIndex(l, r, matchers)
        invariant EdgesSet(outcomes, matrix.Value(), l, r)
      {
        assert Before(l, r, |outcomes|, 0) && outcomes[l][r] == didMatch[next];
        matrix.SetEdge(l, r, didMatch[next]);
        RowSteps(l, r, matchers);
        next := next + 1;
        r := r + 1;
      }
      RowSteps(l, matchers, matchers);
      l := l + 1;
    }
  }

  /** The early answers for empty and for different sizes never contradict the search for a pairing. */
  method AcceptMatrix(matrix: MatchMatrix, flags: bv2) returns (ok: bool)
    requires matrix.Valid()
    ensures ok <==> Pairable(matrix.Value(), Superset(flags), Subset(flags))
    ensures var g := matrix.Value();
      && (flags == SUPERSET ==> (ok <==> exists ps :: IsMatching(g, ps) && CoversMatchers(g, ps)))
      && (flags == SUBSET ==> (ok <==> exists ps :: IsMatching(g, ps) && CoversElements(g, ps)))
      && (flags == EXACT_MATCH ==>
            (ok <==> exists ps :: IsMatching(g, ps) && CoversElements(g, ps) && CoversMatchers(g, ps)))
  {
    ghost var g := matrix.Value();
    FlagMeaning();
    PairableIsBijection(g);
    if matrix.numElements == 0 && matrix.numMatchers == 0 {
      EmptyPairing(g);
      return true;
    }
    if flags == EXACT_MATCH {
      if matrix.numElements != matrix.numMatchers {
        return false;
      }
    }
    if Pairable(g, Superset(flags), Subset(flags)) {
      PairableHasNoLoneNode(g, Superset(flags), Subset(flags));
    }
    var verified := VerifyMatchMatrix(matrix, flags);
    if !verified {
      return false;
    }
    ok := FindPairing(matrix, flags);
  }

  /** The graph of the positive outcomes. */
  ghost function OutcomeGraph(outcomes: seq<seq<bool>>, matchers: nat): (g: Graph)
    requires IsTable(outcomes, matchers)
    ensures g.Wf() && g.n == |outcomes| && g.m == matchers
    ensures forall l: nat, r: nat :: l < g.n && r < g.m ==> (g.Edge(l, r) <==> outcomes[l][r])
  {
    var n := |outcomes|;
    var bits := seq(n * matchers, i requires 0 <= i < n * matchers =>
      (OffsetParts(n, matchers, i); outcomes[i / matchers][i % matchers]));
    assert forall l: nat, r: nat {:trigger SpaceIndex(l, r, matchers)} :: l < n && r < matchers ==>
      SpaceIndex(l, r, matchers) < n * matchers && bits[SpaceIndex(l, r, matchers)] == outcomes[l][r] by {
      forall l: nat, r: nat {:trigger SpaceIndex(l, r, matchers)} | l < n && r < matchers
        ensures SpaceIndex(l, r, matchers) < n * matchers && bits[SpaceIndex(l, r, matchers)] == outcomes[l][r]
      {
        IndexInRange(l, r, n, matchers);
        PartsOfOffset(l, r, matchers);
      }
    }
    Graph(n, matchers, bits)
  }

  /** The demanded pairings, in terms of the outcomes. */
  lemma PairingOfOutcomes(outcomes: seq<seq<bool>>, matchers: nat)
    requires IsTable(outcomes, matchers)
    ensures Pairable(OutcomeGraph(outcomes, matchers), true, false) <==>
      exists f: seq<nat> ::
        NoRepeats(f) && |f| == matchers && forall r :: 0 <= r < matchers ==> f[r] < |outcomes| && outcomes[f[r]][r]
    ensures Pairable(OutcomeGraph(outcomes, matchers), false, true) <==>
      exists f: seq<nat> ::
        NoRepeats(f) && |f| == |outcomes| && forall l :: 0 <= l < |outcomes| ==> f[l] < matchers && outcomes[l][f[l]]
    ensures Pairable(OutcomeGraph(outcomes, matchers), true, true) <==> (|outcomes| == matchers &&
      exists f: seq<nat> ::
        NoRepeats(f) && |f| == |outcomes| && forall l :: 0 <= l < |outcomes| ==> f[l] < matchers && outcomes[l][f[l]])
  {
    hide NoRepeats;
    var g := OutcomeGraph(outcomes, matchers);
    ElementForEachMatcher(g);
    MatcherForEachElement(g);
    OneForOne(g);
    forall f: seq<nat> | |f| == matchers
      ensures (forall r :: 0 <= r < matchers ==> f[r] < |outcomes| && outcomes[f[r]][r]) <==>
        (forall r: nat :: r < g.m ==> g.Edge(f[r], r))
    {
    }
    forall f: seq<nat> | |f| == |outcomes|
      ensures (forall l :: 0 <= l < |outcomes| ==> f[l] < matchers && outcomes[l][f[l]]) <==>
        (forall l: nat :: l < g.n ==> g.Edge(l, f[l]))
    {
    }
  }

  /** Whether an unordered matcher accepts a container.  As a superset: each matcher has an element of its
      own that it matches.  As a subset: each element has a matcher of its own.  Exactly: one for one. */
  method MatchAndExplain(outcomes: seq<seq<bool>>, matchers: nat, flags: bv2) returns (ok: bool)
    requires IsTable(outcomes, matchers)
    ensures flags == 0 ==> ok
    ensures flags == SUPERSET ==> (ok <==>
      exists f: seq<nat> ::
        NoRepeats(f) && |f| == matchers && forall r :: 0 <= r < matchers ==> f[r] < |outcomes| && outcomes[f[r]][r])
    ensures flags == SUBSET ==> (ok <==>
      exists f: seq<nat> ::
        NoRepeats(f) && |f| == |outcomes| && forall l :: 0 <= l < |outcomes| ==> f[l] < matchers && outcomes[l][f[l]])
    ensures flags == EXACT_MATCH ==> (ok <==>
      && |outcomes| == matchers
      && exists f: seq<nat> ::
           NoRepeats(f) && |f| == matchers && forall l :: 0 <= l < matchers ==> f[l] < matchers && outcomes[l][f[l]])
  {
    FlagMeaning();
    PairingOfOutcomes(outcomes, matchers);
    var matrix := AnalyzeElements(outcomes, matchers);
    assert forall l: nat, r: nat :: l < |outcomes| ==> Before(l, r, |outcomes|, 0);
    SameEdges(matrix.Value(), OutcomeGraph(outcomes, matchers));
    ok := AcceptMatrix(matrix, flags);
  }

  lemma EmptyPairing(g: Graph)
    requires g.Wf() && g.n == g.m == 0
    ensures forall superset, subset :: Pairable(g, superset, subset)
  {
    assert IsMatching(g, []) && CoversElements(g, []) && CoversMatchers(g, []);
  }
}
