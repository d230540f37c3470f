/** Bipartite graphs of elements and matchers as values: matchings, covers that bound them, and
    the order in which all graphs of one size are enumerated. */
module Graphs {
  import opened BitOps
  import opened Pigeonhole

  /** Offset of an edge in the flattened matrix, in element-major order. */
  function SpaceIndex(l: nat, r: nat, m: nat): nat {
    l * m + r
  }

  lemma IndexInRange(l: nat, r: nat, n: nat, m: nat)
    requires l < n && r < m
    ensures SpaceIndex(l, r, m) < n * m
  {
    assert (n - 1 - l) * m >= 0;
  }

  lemma RowSteps(l: nat, r: nat, m: nat)
    ensures SpaceIndex(0, 0, m) == 0
    ensures SpaceIndex(l, r + 1, m) == SpaceIndex(l, r, m) + 1
    ensures SpaceIndex(l, m, m) == SpaceIndex(l + 1, 0, m)
  {
  }

  lemma LastRow(n: nat, m: nat)
    ensures SpaceIndex(n, 0, m) == n * m
  {
  }

  lemma Distribute(a: nat, b: nat, m: nat)
    ensures (a + b) * m == a * m + b * m
    ensures b * m >= 0
  {
  }

  lemma RowsOrdered(l: nat, r: nat, k: nat, q: nat, m: nat)
    requires l < k && r < m
    ensures SpaceIndex(l, r, m) < SpaceIndex(k, q, m)
  {
    Distribute(l, 1, m);
    Distribute(l + 1, k - l - 1, m);
    var start, rest := (l + 1) * m, (k - l - 1) * m;
    assert l + 1 + (k - l - 1) == k;
    assert k * m == start + rest;
  }

  lemma IndexInjective(l: nat, r: nat, k: nat, q: nat, m: nat)
    requires r < m && q < m && (l != k || r != q)
    ensures SpaceIndex(l, r, m) != SpaceIndex(k, q, m)
  {
    if l < k {
      RowsOrdered(l, r, k, q, m);
    } else if k < l {
      RowsOrdered(k, q, l, r, m);
    }
  }

  lemma RowsMonotonic(a: nat, b: nat, m: nat)
    requires a <= b
    ensures a * m <= b * m
  {
    Distribute(a, b - a, m);
    assert b == a + (b - a);
  }

  lemma OffsetParts(n: nat, m: nat, i: nat)
    requires i < n * m
    ensures m > 0 && i / m < n && i % m < m && SpaceIndex(i / m, i % m, m) == i
  {
    assert m > 0;
    var q := i / m;
    assert i == q * m + i % m;
    if q >= n {
      RowsMonotonic(n, q, m);
    }
  }

  lemma PartsOfOffset(l: nat, r: nat, m: nat)
    requires r < m
    ensures SpaceIndex(l, r, m) / m == l && SpaceIndex(l, r, m) % m == r
  {
    DivModUnique(l * m + r, m, l, r);
  }

  datatype Graph = Graph(n: nat, m: nat, bits: seq<bool>) {

    predicate Wf() {
      |bits| == n * m
    }

    predicate Edge(l: int, r: int)
      requires Wf()
    {
      0 <= l < n && 0 <= r < m && (IndexInRange(l, r, n, m); bits[SpaceIndex(l, r, m)])
    }
  }

  /** Graphs of one size with the same edges are the same. */
  lemma SameEdges(g: Graph, h: Graph)
    requires g.Wf() && h.Wf() && g.n == h.n && g.m == h.m
    requires forall l: nat, r: nat :: l < g.n && r < g.m ==> (g.Edge(l, r) <==> h.Edge(l, r))
    ensures g == h
  {
    forall i | 0 <= i < |g.bits|
      ensures g.bits[i] == h.bits[i]
    {
      OffsetParts(g.n, g.m, i);
      assert g.Edge(i / g.m, i % g.m) <==> h.Edge(i / g.m, i % g.m);
    }
  }

  // ----- Matchings -----

  type Pair = (nat, nat)

  /** Edges of the graph that use no element and no matcher twice. */
  ghost predicate IsMatching(g: Graph, ps: seq<Pair>)
    requires g.Wf()
  {
    && (forall i :: 0 <= i < |ps| ==> g.Edge(ps[i].0, ps[i].1))
    && (forall i, j :: 0 <= i < j < |ps| ==> ps[i].0 != ps[j].0 && ps[i].1 != ps[j].1)
  }

  ghost predicate IsMaximum(g: Graph, ps: seq<Pair>)
    requires g.Wf()
  {
    && IsMatching(g, ps)
    && forall qs :: IsMatching(g, qs) ==> |qs| <= |ps|
  }

  ghost predicate UsesBelow(ps: seq<Pair>, l: nat) {
    forall i :: 0 <= i < |ps| ==> ps[i].0 < l
  }

  /** No matching of the first l elements has more edges. */
  ghost predicate IsMaximumBelow(g: Graph, ps: seq<Pair>, l: nat)
    requires g.Wf()
  {
    && IsMatching(g, ps) && UsesBelow(ps, l)
    && forall qs :: IsMatching(g, qs) && UsesBelow(qs, l) ==> |qs| <= |ps|
  }

  lemma MaximumOfAll(g: Graph, ps: seq<Pair>)
    requires g.Wf() && IsMaximumBelow(g, ps, g.n)
    ensures IsMaximum(g, ps)
  {
    forall qs | IsMatching(g, qs)
      ensures UsesBelow(qs, g.n)
    {
    }
  }

  ghost predicate CoveredBy(ps: seq<Pair>, lefts: set<nat>, rights: set<nat>) {
    forall i :: 0 <= i < |ps| ==> ps[i].0 in lefts || ps[i].1 in rights
  }

  /** A matching has no more edges than a set of nodes that touches all of them. */
  lemma {:induction false} CoverBounds(g: Graph, ps: seq<Pair>, lefts: set<nat>, rights: set<nat>)
    requires g.Wf() && IsMatching(g, ps) && CoveredBy(ps, lefts, rights)
    ensures |ps| <= |lefts| + |rights|
    decreases |ps|
  {
    if ps == [] {
    } else {
      var k := |ps| - 1;
      var p, rest := ps[k], ps[..k];
      if p.0 in lefts {
        CoverBounds(g, rest, lefts - {p.0}, rights);
      } else {
        CoverBounds(g, rest, lefts, rights - {p.1});
      }
    }
  }

  ghost function Firsts(ps: seq<Pair>): (xs: seq<nat>)
    ensures |xs| == |ps| && forall i :: 0 <= i < |ps| ==> xs[i] == ps[i].0
  {
    seq(|ps|, i requires 0 <= i < |ps| => ps[i].0)
  }

  ghost function Seconds(ps: seq<Pair>): (xs: seq<nat>)
    ensures |xs| == |ps| && forall i :: 0 <= i < |ps| ==> xs[i] == ps[i].1
  {
    seq(|ps|, i requires 0 <= i < |ps| => ps[i].1)
  }

  /** Elements that a matching pairs with a matcher outside a set. */
  ghost function LeftsOutside(ps: seq<Pair>, rights: set<nat>): set<nat> {
    if ps == [] then {}
    else
      var p := ps[|ps| - 1];
      LeftsOutside(ps[..|ps| - 1], rights) + if p.1 in rights then {} else {p.0}
  }

  lemma {:induction false} LeftsOutsideContents(ps: seq<Pair>, rights: set<nat>, i: nat)
    requires i < |ps| && ps[i].1 !in rights
    ensures ps[i].0 in LeftsOutside(ps, rights)
    decreases |ps|
  {
    if i < |ps| - 1 {
      LeftsOutsideContents(ps[..|ps| - 1], rights, i);
    }
  }

  lemma {:induction false} IrrelevantRight(ps: seq<Pair>, rights: set<nat>, r: nat)
    requires forall i :: 0 <= i < |ps| ==> ps[i].1 != r
    ensures LeftsOutside(ps, rights) == LeftsOutside(ps, rights - {r})
    decreases |ps|
  {
    if ps == [] {
    } else {
      IrrelevantRight(ps[..|ps| - 1], rights, r);
    }
  }

  ghost predicate AllMatched(ps: seq<Pair>, rights: set<nat>) {
    forall r :: r in rights ==> r in Seconds(ps)
  }

  /** Matchers of a set that is fully matched, and the elements matched elsewhere, are no more than
      the edges of the matching. */
  lemma {:induction false} CoverIsTight(g: Graph, ps: seq<Pair>, rights: set<nat>)
    requires g.Wf() && IsMatching(g, ps) && AllMatched(ps, rights)
    ensures |LeftsOutside(ps, rights)| + |rights| <= |ps|
    decreases |ps|
  {
    if ps == [] {
      assert rights == {};
    } else {
      var k := |ps| - 1;
      var p, rest := ps[k], ps[..k];
      assert Seconds(ps) == Seconds(rest) + [p.1];
      if p.1 in rights {
        IrrelevantRight(rest, rights, p.1);
        CoverIsTight(g, rest, rights - {p.1});
      } else {
        CoverIsTight(g, rest, rights);
      }
    }
  }

  /** A certificate of maximality among the first l elements: a set of matched matchers such that
      every edge of these elements ends in it or starts at an element that is matched outside it. */
  lemma CertifiedMaximum(g: Graph, ps: seq<Pair>, rights: set<nat>, l: nat)
    requires g.Wf() && IsMatching(g, ps) && UsesBelow(ps, l) && AllMatched(ps, rights)
    requires forall e: nat, r: nat :: e < l && g.Edge(e, r) ==> r in rights || e in LeftsOutside(ps, rights)
    ensures IsMaximumBelow(g, ps, l)
  {
    CoverIsTight(g, ps, rights);
    forall qs | IsMatching(g, qs) && UsesBelow(qs, l)
      ensures |qs| <= |ps|
    {
      CoverBounds(g, qs, LeftsOutside(ps, rights), rights);
    }
  }

  // ----- Covering one side -----

  ghost predicate CoversElements(g: Graph, ps: seq<Pair>) {
    forall l: nat :: l < g.n ==> l in Firsts(ps)
  }

  ghost predicate CoversMatchers(g: Graph, ps: seq<Pair>) {
    forall r: nat :: r < g.m ==> r in Seconds(ps)
  }

  /** A matching covers all elements, or all matchers, exactly when it has that many edges. */
  lemma CoverageIsSize(g: Graph, ps: seq<Pair>)
    requires g.Wf() && IsMatching(g, ps)
    ensures |ps| <= g.n && |ps| <= g.m
    ensures CoversElements(g, ps) <==> |ps| == g.n
    ensures CoversMatchers(g, ps) <==> |ps| == g.m
  {
    FillsUp(Firsts(ps), g.n);
    FillsUp(Seconds(ps), g.m);
  }

  /** What a pairing must achieve under the two flags. */
  ghost predicate Pairable(g: Graph, superset: bool, subset: bool)
    requires g.Wf()
  {
    && (superset ==> exists ps :: IsMatching(g, ps) && CoversMatchers(g, ps))
    && (subset ==> exists ps :: IsMatching(g, ps) && CoversElements(g, ps))
  }

  /** The size of a maximum matching decides both requirements. */
  lemma MaximumDecides(g: Graph, ps: seq<Pair>, superset: bool, subset: bool)
    requires g.Wf() && IsMaximum(g, ps)
    ensures Pairable(g, superset, subset) <==> (superset ==> |ps| >= g.m) && (subset ==> |ps| >= g.n)
  {
    CoverageIsSize(g, ps);
    forall qs | IsMatching(g, qs)
      ensures CoversMatchers(g, qs) ==> |ps| >= g.m
      ensures CoversElements(g, qs) ==> |ps| >= g.n
    {
      CoverageIsSize(g, qs);
    }
  }

  /** With both flags the requirement is a one-to-one correspondence along edges of the graph. */
  lemma PairableIsBijection(g: Graph)
    requires g.Wf()
    ensures Pairable(g, true, true) <==>
      exists ps :: IsMatching(g, ps) && CoversElements(g, ps) && CoversMatchers(g, ps)
    ensures Pairable(g, true, true) ==> g.n == g.m
  {
    if Pairable(g, true, true) {
      var ps: seq<Pair> :| IsMatching(g, ps) && CoversMatchers(g, ps);
      var qs: seq<Pair> :| IsMatching(g, qs) && CoversElements(g, qs);
      CoverageIsSize(g, ps);
      CoverageIsSize(g, qs);
    }
  }

  ghost function ElementOf(ps: seq<Pair>, r: nat): (l: nat)
    requires r in Seconds(ps)
    ensures (l, r) in ps
  {
    var i :| 0 <= i < |ps| && Seconds(ps)[i] == r;
    ps[i].0
  }

  ghost function MatcherOf(ps: seq<Pair>, l: nat): (r: nat)
    requires l in Firsts(ps)
    ensures (l, r) in ps
  {
    var i :| 0 <= i < |ps| && Firsts(ps)[i] == l;
    ps[i].1
  }

  lemma EdgeOfPair(g: Graph, ps: seq<Pair>, p: Pair)
    requires g.Wf() && IsMatching(g, ps) && p in ps
    ensures g.Edge(p.0, p.1)
  {
  }

  lemma PairsDiffer(g: Graph, ps: seq<Pair>, p: Pair, q: Pair)
    requires g.Wf() && IsMatching(g, ps) && p in ps && q in ps && p != q
    ensures p.0 != q.0 && p.1 != q.1
  {
  }

  lemma CoveredMatchers(g: Graph, ps: seq<Pair>) returns (f: seq<nat>)
    requires g.Wf() && IsMatching(g, ps) && CoversMatchers(g, ps)
    ensures NoRepeats(f) && |f| == g.m && forall r: nat :: r < g.m ==> g.Edge(f[r], r)
  {
    hide IsMatching;
    f := seq(g.m, r requires 0 <= r < g.m => ElementOf(ps, r));
    forall r: nat, q: nat | r < q < g.m
      ensures f[r] != f[q]
    {
      PairsDiffer(g, ps, (f[r], r), (f[q], q));
    }
    forall r: nat | r < g.m
      ensures g.Edge(f[r], r)
    {
      EdgeOfPair(g, ps, (f[r], r));
    }
  }

  lemma CoveredElements(g: Graph, ps: seq<Pair>) returns (f: seq<nat>)
    requires g.Wf() && IsMatching(g, ps) && CoversElements(g, ps)
    ensures NoRepeats(f) && |f| == g.n && forall l: nat :: l < g.n ==> g.Edge(l, f[l])
  {
    hide IsMatching;
    f := seq(g.n, l requires 0 <= l < g.n => MatcherOf(ps, l));
    forall l: nat, k: nat | l < k < g.n
      ensures f[l] != f[k]
    {
      PairsDiffer(g, ps, (l, f[l]), (k, f[k]));
    }
    forall l: nat | l < g.n
      ensures g.Edge(l, f[l])
    {
      EdgeOfPair(g, ps, (l, f[l]));
    }
  }

  lemma CoverMatchers(g: Graph, f: seq<nat>) returns (ps: seq<Pair>)
    requires g.Wf() && NoRepeats(f) && |f| == g.m && forall r: nat :: r < g.m ==> g.Edge(f[r], r)
    ensures IsMatching(g, ps) && CoversMatchers(g, ps)
  {
    ps := seq(g.m, r requires 0 <= r < g.m => (f[r], r));
    forall r: nat | r < g.m
      ensures r in Seconds(ps)
    {
      assert Seconds(ps)[r] == r;
    }
  }

  lemma CoverElements(g: Graph, f: seq<nat>) returns (ps: seq<Pair>)
    requires g.Wf() && NoRepeats(f) && |f| == g.n && forall l: nat :: l < g.n ==> g.Edge(l, f[l])
    ensures IsMatching(g, ps) && CoversElements(g, ps)
  {
    ps := seq(g.n, l requires 0 <= l < g.n => (l, f[l]));
    forall l: nat | l < g.n
      ensures l in Firsts(ps)
    {
      assert Firsts(ps)[l] == l;
    }
  }

  /** All matchers can be covered exactly when each has an element of its own that it matches. */
  lemma ElementForEachMatcher(g: Graph)
    requires g.Wf()
    ensures Pairable(g, true, false) <==>
      exists f: seq<nat> :: NoRepeats(f) && |f| == g.m && forall r: nat :: r < g.m ==> g.Edge(f[r], r)
  {
    hide IsMatching, CoversMatchers, NoRepeats, Graph.Edge;
    if Pairable(g, true, false) {
      var ps: seq<Pair> :| IsMatching(g, ps) && CoversMatchers(g, ps);
      var _ := CoveredMatchers(g, ps);
    }
    if f: seq<nat> :| NoRepeats(f) && |f| == g.m && forall r: nat :: r < g.m ==> g.Edge(f[r], r) {
      var _ := CoverMatchers(g, f);
    }
  }

  /** All elements can be covered exactly when each has a matcher of its own that matches it. */
  lemma MatcherForEachElement(g: Graph)
    requires g.Wf()
    ensures Pairable(g, false, true) <==>
      exists f: seq<nat> :: NoRepeats(f) && |f| == g.n && forall l: nat :: l < g.n ==> g.Edge(l, f[l])
  {
    hide IsMatching, CoversElements, NoRepeats, Graph.Edge;
    if Pairable(g, false, true) {
      var ps: seq<Pair> :| IsMatching(g, ps) && CoversElements(g, ps);
      var _ := CoveredElements(g, ps);
    }
    if f: seq<nat> :| NoRepeats(f) && |f| == g.n && forall l: nat :: l < g.n ==> g.Edge(l, f[l]) {
      var _ := CoverElements(g, f);
    }
  }

  /** Both sides can be covered exactly when there are as many elements as matchers and each element
      has a matcher of its own. */
  lemma OneForOne(g: Graph)
    requires g.Wf()
    ensures Pairable(g, true, true) <==> (g.n == g.m &&
      exists f: seq<nat> :: NoRepeats(f) && |f| == g.n && forall l: nat :: l < g.n ==> g.Edge(l, f[l]))
  {
    hide IsMatching, NoRepeats, Graph.Edge, CoversElements, CoversMatchers;
    PairableIsBijection(g);
    MatcherForEachElement(g);
    if g.n == g.m && Pairable(g, false, true) {
      var ps: seq<Pair> :| IsMatching(g, ps) && CoversElements(g, ps);
      CoverageIsSize(g, ps);
    }
  }

  ghost predicate ElementHasEdge(g: Graph, l: nat)
    requires g.Wf()
  {
    exists r: nat :: r < g.m && g.Edge(l, r)
  }

  ghost predicate MatcherHasEdge(g: Graph, r: nat)
    requires g.Wf()
  {
    exists l: nat :: l < g.n && g.Edge(l, r)
  }

  /** Every matcher, or element, that must be paired has an edge. */
  ghost predicate NoLoneNode(g: Graph, superset: bool, subset: bool)
    requires g.Wf()
  {
    && (superset ==> forall r: nat :: r < g.m ==> MatcherHasEdge(g, r))
    && (subset ==> forall l: nat :: l < g.n ==> ElementHasEdge(g, l))
  }

  lemma CoveredNodesHaveEdges(g: Graph, ps: seq<Pair>, k: nat)
    requires g.Wf() && IsMatching(g, ps)
    ensures k in Seconds(ps) ==> MatcherHasEdge(g, k)
    ensures k in Firsts(ps) ==> ElementHasEdge(g, k)
  {
    if k in Seconds(ps) {
      var i :| 0 <= i < |ps| && Seconds(ps)[i] == k;
      assert g.Edge(ps[i].0, k);
    }
    if k in Firsts(ps) {
      var i :| 0 <= i < |ps| && Firsts(ps)[i] == k;
      assert g.Edge(k, ps[i].1);
    }
  }

  /** The cheap check never rejects a graph that can be paired. */
  lemma PairableHasNoLoneNode(g: Graph, superset: bool, subset: bool)
    requires g.Wf() && Pairable(g, superset, subset)
    ensures NoLoneNode(g, superset, subset)
  {
    hide MatcherHasEdge, ElementHasEdge, IsMatching;
    if superset {
      var ps: seq<Pair> :| IsMatching(g, ps) && CoversMatchers(g, ps);
      forall r: nat | r < g.m
        ensures MatcherHasEdge(g, r)
      {
        CoveredNodesHaveEdges(g, ps, r);
      }
    }
    if subset {
      var ps: seq<Pair> :| IsMatching(g, ps) && CoversElements(g, ps);
      forall l: nat | l < g.n
        ensures ElementHasEdge(g, l)
      {
        CoveredNodesHaveEdges(g, ps, l);
      }
    }
  }

  /** It accepts some graphs that cannot be paired: here two elements match the only matcher. */
  lemma LoneNodeCheckIsIncomplete()
    ensures var g := Graph(2, 1, [true, true]);
      g.Wf() && NoLoneNode(g, true, true) && !Pairable(g, true, true)
  {
    var g := Graph(2, 1, [true, true]);
    assert g.Edge(0, 0) && g.Edge(1, 0);
    forall ps | IsMatching(g, ps)
      ensures !CoversElements(g, ps)
    {
      CoverageIsSize(g, ps);
    }
  }

  // ----- Enumerating graphs -----

  /** The matrix as a binary number whose least significant bit comes first. */
  ghost function Number(bits: seq<bool>): nat {
    if bits == [] then 0 else (if bits[0] then 1 else 0) + 2 * Number(bits[1..])
  }

  /** The next matrix: leading ones become zeros and the first zero becomes one. */
  ghost function Successor(bits: seq<bool>): (r: seq<bool>)
    ensures |r| == |bits|
  {
    if bits == [] then []
    else if bits[0] then [false] + Successor(bits[1..])
    else [true] + bits[1..]
  }

  ghost predicate AllOnes(bits: seq<bool>) {
    forall i :: 0 <= i < |bits| ==> bits[i]
  }

  ghost function Zeros(n: nat): (z: seq<bool>)
    ensures |z| == n
  {
    seq(n, i => false)
  }

  /** The step adds one, and wraps from all ones to all zeros. */
  lemma {:induction false} SuccessorAddsOne(bits: seq<bool>)
    ensures Number(bits) < Pow2(|bits|)
    ensures AllOnes(bits) <==> Number(bits) + 1 == Pow2(|bits|)
    ensures AllOnes(bits) ==> Successor(bits) == Zeros(|bits|)
    ensures !AllOnes(bits) ==> Number(Successor(bits)) == Number(bits) + 1
  {
    if bits == [] {
    } else {
      var rest := bits[1..];
      SuccessorAddsOne(rest);
      assert AllOnes(bits) <==> bits[0] && AllOnes(rest) by {
        assert bits == [bits[0]] + rest;
      }
      if bits[0] {
        assert Successor(bits)[1..] == Successor(rest);
      } else {
        assert Successor(bits)[1..] == rest;
      }
    }
  }

  lemma SameDigits(a: bool, x: nat, b: bool, y: nat)
    requires (if a then 1 else 0) + 2 * x == (if b then 1 else 0) + 2 * y
    ensures a == b && x == y
  {
  }

  lemma {:induction false} NumberDetermines(a: seq<bool>, b: seq<bool>)
    requires |a| == |b| && Number(a) == Number(b)
    ensures a == b
    decreases |a|
  {
    if a == [] {
    } else {
      SameDigits(a[0], Number(a[1..]), b[0], Number(b[1..]));
      NumberDetermines(a[1..], b[1..]);
      assert a == [a[0]] + a[1..] && b == [b[0]] + b[1..];
    }
  }

  lemma {:induction false} ZeroNumber(n: nat)
    ensures Number(Zeros(n)) == 0
    decreases n
  {
    if n == 0 {
    } else {
      ZeroNumber(n - 1);
      assert Zeros(n)[1..] == Zeros(n - 1);
    }
  }

  /** The matrix after k steps from the empty one. */
  ghost function Visited(n: nat, k: nat): (bits: seq<bool>)
    ensures |bits| == n
  {
    if k == 0 then Zeros(n) else Successor(Visited(n, k - 1))
  }

  lemma {:induction false} VisitedNumber(n: nat, k: nat)
    requires k < Pow2(n)
    ensures Number(Visited(n, k)) == k
    decreases k
  {
    if k == 0 {
      ZeroNumber(n);
    } else {
      VisitedNumber(n, k - 1);
      SuccessorAddsOne(Visited(n, k - 1));
    }
  }

  /** Starting from the empty graph every graph of the size is visited exactly once, at the step
      that is its number. */
  lemma EveryGraphOnce(bits: seq<bool>)
    ensures Number(bits) < Pow2(|bits|) && Visited(|bits|, Number(bits)) == bits
    ensures forall k: nat :: k < Pow2(|bits|) && Visited(|bits|, k) == bits ==> k == Number(bits)
  {
    hide Visited, Pow2;
    var n := |bits|;
    SuccessorAddsOne(bits);
    VisitedNumber(n, Number(bits));
    NumberDetermines(Visited(n, Number(bits)), bits);
    forall k: nat | k < Pow2(n) && Visited(n, k) == bits
      ensures k == Number(bits)
    {
      VisitedNumber(n, k);
    }
  }

  /** The last of the 2^n graphs is the first full one, and the step behind it wraps to the empty graph. */
  lemma EnumerationEnds(n: nat)
    ensures forall k: nat :: k < Pow2(n) ==> (AllOnes(Visited(n, k)) <==> k == Pow2(n) - 1)
    ensures Pow2(n) > 0 && Successor(Visited(n, Pow2(n) - 1)) == Zeros(n)
  {
    hide Visited, Successor;
    forall k: nat | k < Pow2(n)
      ensures AllOnes(Visited(n, k)) <==> k == Pow2(n) - 1
      ensures k == Pow2(n) - 1 ==> Successor(Visited(n, k)) == Zeros(n)
    {
      VisitedNumber(n, k);
      SuccessorAddsOne(Visited(n, k));
    }
    SuccessorAddsOne(Zeros(n));
  }

  /** The step changes a run of leading ones and the zero behind it. */
  lemma {:induction false} SuccessorAt(bits: seq<bool>, k: nat)
    requires k <= |bits| && forall i :: 0 <= i < k ==> bits[i]
    requires k < |bits| ==> !bits[k]
    ensures Successor(bits) == Zeros(k) + (if k < |bits| then [true] + bits[k + 1..] else [])
    decreases k
  {
    if k == 0 {
    } else {
      SuccessorAt(bits[1..], k - 1);
      assert Zeros(k) == [false] + Zeros(k - 1);
    }
  }
}
