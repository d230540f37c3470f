/** The in-memory index as a value: the directory as a sequence of bucket numbers, and the
    buckets in the order in which the allocator created them.  Bucket number k is slot
    k % 16 of data page k / 16; the first `next` buckets are in use, the others are free. */
module HashIndex {
  import opened BitOps
  import opened Buckets

  datatype Index = Index(g: nat, ids: seq<nat>, mem: seq<BucketVal>, next: nat) {

    ghost predicate Shape() {
      && |ids| == Pow2(g)
      && next <= |mem|
      && (forall i {:trigger ids[i]} :: 0 <= i < |ids| ==> ids[i] < next)
      && (forall k {:trigger mem[k]} :: 0 <= k < |mem| ==> mem[k].Wf() && mem[k].Unique())
    }

    /** The bucket that directory entry i points to. */
    ghost function At(i: nat): BucketVal
      requires Shape() && i < |ids|
    {
      mem[ids[i]]
    }

    ghost function Period(i: nat): nat
      requires Shape() && i < |ids|
    {
      Pow2(At(i).depth)
    }

    ghost predicate Depths()
      requires Shape()
    {
      forall i: nat :: i < |ids| ==> 1 <= At(i).depth <= g
    }

    /** Two entries share a bucket exactly when they agree on its local-depth low bits. */
    ghost predicate Sharing()
      requires Shape()
    {
      forall i: nat, j: nat :: i < |ids| && j < |ids| ==>
        (ids[i] == ids[j] <==> i % Period(i) == j % Period(i))
    }

    /** A key in slot s of the bucket of entry i agrees with i on the local-depth low bits. */
    ghost predicate InPlace(i: nat, s: nat)
      requires Shape() && i < |ids| && s < 15
    {
      At(i).live[s] ==> At(i).slot[s].key % Period(i) == i % Period(i)
    }

    ghost predicate Placed()
      requires Shape()
    {
      forall i: nat, s: nat :: i < |ids| && s < 15 ==> InPlace(i, s)
    }

    /** Every bucket in use is reachable, every other one is untouched. */
    ghost predicate Allocated()
      requires Shape()
    {
      && (forall k: nat :: k < next ==> k in ids)
      && (forall k: nat {:trigger mem[k]} :: next <= k < |mem| ==> mem[k] == Blank())
      && |mem| % 16 == 0
    }

    /** The directory invariant, up to the existence of a bucket of maximal depth. */
    ghost predicate Consistent() {
      Shape() && Depths() && Sharing() && Placed() && Allocated()
    }

    ghost predicate Attained()
      requires Shape()
    {
      exists i: nat :: i < |ids| && At(i).depth == g
    }

    ghost predicate Inv() {
      Consistent() && Attained()
    }

    /** Directory position of a key. */
    function Hash(key: uint64): (h: nat) {
      key % Pow2(g)
    }

    ghost function Lookup(key: uint64): Option<uint64>
      requires Shape()
    {
      At(Hash(key)).Lookup(key)
    }

    /** The directory after doubling: the second half repeats the first. */
    ghost function Doubled(): Index {
      Index(g + 1, ids + ids, mem, next)
    }

    /** One more page of sixteen blank buckets when none is free. */
    ghost function Grown(): Index {
      if next == |mem| then Index(g, ids, mem + seq(16, i => Blank()), next) else this
    }

    /** The index right before the entries are redirected: doubled when the bucket already
        uses all directory bits, and with at least one free bucket. */
    ghost function Prepared(b: nat): Index
      requires Shape() && b < |ids|
    {
      (if At(b).depth == g then Doubled() else this).Grown()
    }

    /** The step that gives half of the entries of bucket ids[b] to a new bucket. */
    ghost function Divided(b: nat): (r: Index)
      requires Shape() && b < |ids| && next < |mem|
      ensures r.g == g && |r.ids| == |ids| && |r.mem| == |mem| && r.next == next + 1
      ensures forall k: nat {:trigger r.mem[k]} :: k < |mem| && k != ids[b] && k != next ==> r.mem[k] == mem[k]
    {
      BuddyResidue(b, At(b).depth);
      FinishedIndex(Index(g, ids, mem, next + 1), DivisionAt(ids, mem, next, b, At(b).depth), mem[ids[b]].slot)
    }

    ghost function Split(b: nat): Index
      requires Consistent() && b < |ids|
    {
      PreparedConsistent(this, b);
      Prepared(b).Divided(b)
    }
  }

  // ----- Dividing a bucket: the parts -----

  /** A split under way: bucket o gives the directory entries of one residue class modulo 2^depth to
      bucket n; both had other values before, and both have the new depth. */
  datatype Division = Division(o: nat, n: nat, depth: nat, was: BucketVal, spare: BucketVal, stay: nat, leave: nat) {

    function Modulus(): (m: nat)
      ensures m > 0
    {
      Pow2(depth)
    }

    ghost predicate Wf() {
      |was.slot| == |spare.slot| == 15 && o != n && stay != leave
    }
  }

  /** The division of the bucket of entry b, of depth l, when bucket number n is the next free one. */
  ghost function DivisionAt(ids: seq<nat>, mem: seq<BucketVal>, n: nat, b: nat, l: nat): Division
    requires b < |ids| && ids[b] < |mem| && n < |mem|
  {
    Division(ids[b], n, l + 1, mem[ids[b]], mem[n], b % Pow2(l + 1), Buddy(b, l) % Pow2(l + 1))
  }

  /** Directory entries after those in residue class yu were given to bucket n. */
  ghost function Redirected(ids: seq<nat>, m: nat, yu: nat, n: nat): seq<nat>
    requires m > 0
  {
    seq(|ids|, i requires 0 <= i < |ids| => if i % m == yu then n else ids[i])
  }

  /** The pairs are distributed over the two buckets, which were emptied before. */
  ghost function FinishedMem(mem: seq<BucketVal>, v: Division, kvs: seq<KV>): seq<BucketVal>
    requires v.Wf() && v.o < |mem| && v.n < |mem| && |kvs| <= 15
  {
    mem[v.o := Filled(v.was, v.depth, Select(kvs, v.Modulus(), v.stay))]
       [v.n := Filled(v.spare, v.depth, Select(kvs, v.Modulus(), v.leave))]
  }

  /** The entries are redirected and the pairs are distributed. */
  ghost function FinishedIndex(t: Index, v: Division, kvs: seq<KV>): Index
    requires v.Wf() && v.o < |t.mem| && v.n < |t.mem| && |kvs| <= 15
  {
    Index(t.g, Redirected(t.ids, v.Modulus(), v.leave, v.n), FinishedMem(t.mem, v, kvs), t.next)
  }

  // ----- Doubling -----

  lemma DoubledEntry(t: Index, i: nat)
    requires t.Shape() && i < |t.ids| + |t.ids|
    ensures |t.ids + t.ids| == Pow2(t.g + 1)
    ensures i % Pow2(t.g) < |t.ids|
    ensures (t.ids + t.ids)[i] == t.ids[i % Pow2(t.g)]
    ensures forall l: nat :: l <= t.g ==> i % Pow2(l) == (i % Pow2(t.g)) % Pow2(l)
  {
    if i < |t.ids| {
      DivModUnique(i, Pow2(t.g), 0, i);
    } else {
      DivModUnique(i, Pow2(t.g), 1, i - |t.ids|);
    }
    forall l: nat | l <= t.g
      ensures i % Pow2(l) == (i % Pow2(t.g)) % Pow2(l)
    {
      ModMod(i, l, t.g);
    }
  }

  lemma DoubledConsistent(t: Index)
    requires t.Consistent()
    ensures t.Doubled().Consistent()
  {
    var d := t.Doubled();
    forall i: nat | i < |d.ids|
      ensures d.ids[i] == t.ids[i % Pow2(t.g)] && d.ids[i] < t.next
    {
      DoubledEntry(t, i);
    }
    assert d.Shape();
    forall i: nat | i < |d.ids|
      ensures 1 <= d.At(i).depth <= d.g
    {
      DoubledEntry(t, i);
      assert 1 <= t.At(i % Pow2(t.g)).depth <= t.g;
    }
    forall i: nat, j: nat | i < |d.ids| && j < |d.ids|
      ensures d.ids[i] == d.ids[j] <==> i % d.Period(i) == j % d.Period(i)
    {
      DoubledEntry(t, i);
      DoubledEntry(t, j);
      var i', j' := i % Pow2(t.g), j % Pow2(t.g);
      assert t.At(i').depth <= t.g;
      assert t.ids[i'] == t.ids[j'] <==> i' % t.Period(i') == j' % t.Period(i');
    }
    forall i: nat, s: nat | i < |d.ids| && s < 15
      ensures d.InPlace(i, s)
    {
      DoubledEntry(t, i);
      var i' := i % Pow2(t.g);
      assert t.At(i').depth <= t.g;
      assert t.InPlace(i', s);
    }
  }

  /** Doubling is invisible: every key still reaches the bucket it reached before. */
  lemma DoublingInvisible(t: Index, key: uint64)
    requires t.Consistent()
    ensures t.Doubled().Consistent()
    ensures t.Doubled().ids[t.Doubled().Hash(key)] == t.ids[t.Hash(key)]
    ensures t.Doubled().Lookup(key) == t.Lookup(key)
    ensures t.Doubled().ids[..|t.ids|] == t.Doubled().ids[|t.ids|..] == t.ids
  {
    DoubledConsistent(t);
    var h := t.Doubled().Hash(key);
    DoubledEntry(t, h);
    ModMod(key, t.g, t.g + 1);
  }

  // ----- Allocating a page -----

  lemma GrownConsistent(t: Index)
    requires t.Consistent()
    ensures t.Grown().Consistent() && t.Grown().next < |t.Grown().mem|
    ensures t.Inv() ==> t.Grown().Inv()
  {
    var n := t.Grown();
    assert n.Shape();
    forall i: nat | i < |n.ids|
      ensures n.At(i) == t.At(i)
    {
    }
    forall i: nat, j: nat | i < |n.ids| && j < |n.ids|
      ensures n.ids[i] == n.ids[j] <==> i % n.Period(i) == j % n.Period(i)
    {
      assert t.ids[i] == t.ids[j] <==> i % t.Period(i) == j % t.Period(i);
    }
    forall i: nat, s: nat | i < |n.ids| && s < 15
      ensures n.InPlace(i, s)
    {
      assert t.InPlace(i, s);
    }
  }

  lemma PreparedConsistent(t: Index, b: nat)
    requires t.Consistent() && b < |t.ids|
    ensures t.Prepared(b).Consistent() && b < |t.Prepared(b).ids|
    ensures t.Prepared(b).next < |t.Prepared(b).mem|
    ensures t.Prepared(b).At(b) == t.At(b) && t.At(b).depth < t.Prepared(b).g
    ensures forall key: uint64 :: t.Prepared(b).ids[t.Prepared(b).Hash(key)] == t.ids[t.Hash(key)]
    ensures forall key: uint64 :: t.Prepared(b).Lookup(key) == t.Lookup(key)
  {
    assert t.At(b).depth <= t.g;
    if t.At(b).depth == t.g {
      DoubledConsistent(t);
      GrownConsistent(t.Doubled());
      forall key: uint64
        ensures t.Prepared(b).ids[t.Prepared(b).Hash(key)] == t.ids[t.Hash(key)]
      {
        DoublingInvisible(t, key);
      }
    } else {
      GrownConsistent(t);
    }
  }

  // ----- Dividing a bucket -----

  /** What dividing does to one directory entry. */
  lemma DividedEntry(t: Index, b: nat, i: nat)
    requires t.Consistent() && b < |t.ids| && t.next < |t.mem| && i < |t.ids|
    ensures var l := t.At(b).depth; var m := Pow2(l + 1); var yu := Buddy(b, l) % m;
      && yu != b % m
      && t.Divided(b).ids[i] == (if i % m == yu then t.next else t.ids[i])
      && (t.ids[i] == t.ids[b] <==> i % m == yu || i % m == b % m)
      && (t.ids[i] == t.ids[b] <==> i % Pow2(l) == b % Pow2(l))
  {
    var l := t.At(b).depth;
    BuddyResidue(b, l);
    assert t.ids[b] == t.ids[i] <==> b % t.Period(b) == i % t.Period(b);
    ModMod(i, l, l + 1);
    ModMod(b, l, l + 1);
    ModMod(Buddy(b, l), l, l + 1);
  }

  lemma DividedShape(t: Index, b: nat)
    requires t.Consistent() && b < |t.ids| && t.next < |t.mem|
    requires t.At(b).Full()
    ensures t.Divided(b).Shape()
    ensures t.Divided(b).next <= |t.Divided(b).mem| == |t.mem|
  {
    var d := t.Divided(b);
    var o, l := t.ids[b], t.At(b).depth;
    var m := Pow2(l + 1);
    var ps := t.mem[o].slot;
    assert DistinctKeys(ps);
    SelectDistinct(ps, m, b % m);
    SelectDistinct(ps, m, Buddy(b, l) % m);
    FilledUnique(t.mem[o], l + 1, Select(ps, m, b % m));
    FilledUnique(t.mem[t.next], l + 1, Select(ps, m, Buddy(b, l) % m));
  }

  lemma DividedSharing(t: Index, b: nat, i: nat, j: nat)
    requires t.Consistent() && b < |t.ids| && t.next < |t.mem| && t.At(b).Full()
    requires t.Divided(b).Shape() && i < |t.ids| && j < |t.ids|
    ensures var d := t.Divided(b); d.ids[i] == d.ids[j] <==> i % d.Period(i) == j % d.Period(i)
  {
    DividedEntry(t, b, i);
    DividedEntry(t, b, j);
    var d := t.Divided(b);
    var l := t.At(b).depth;
    if t.ids[i] == t.ids[b] {
      assert d.Period(i) == Pow2(l + 1);
    } else {
      assert d.At(i) == t.At(i);
      assert t.ids[i] == t.ids[j] <==> i % t.Period(i) == j % t.Period(i);
    }
  }

  lemma DividedPlaced(t: Index, b: nat, i: nat, s: nat)
    requires t.Consistent() && b < |t.ids| && t.next < |t.mem| && t.At(b).Full()
    requires t.Divided(b).Shape() && i < |t.ids| && s < 15
    ensures t.Divided(b).InPlace(i, s)
  {
    DividedEntry(t, b, i);
    var d := t.Divided(b);
    var o, l := t.ids[b], t.At(b).depth;
    var m := Pow2(l + 1);
    if t.ids[i] == o {
      var ps := Select(t.mem[o].slot, m, i % m);
      SelectContents(t.mem[o].slot, m, i % m);
      if d.At(i).live[s] {
        assert d.At(i).slot[s] == ps[s] && ps[s] in ps;
      }
    } else {
      assert t.InPlace(i, s);
    }
  }

  lemma DividedReach(t: Index, b: nat, k: nat)
    requires t.Consistent() && b < |t.ids| && t.next < |t.mem|
    requires t.At(b).depth < t.g && k < t.next + 1
    ensures k in t.Divided(b).ids
  {
    var d := t.Divided(b);
    if k == t.next {
      var i := Buddy(b, t.At(b).depth);
      BuddyRange(b, t.At(b).depth, t.g);
      DividedEntry(t, b, i);
      assert d.ids[i] == k;
    } else if k == t.ids[b] {
      DividedEntry(t, b, b);
      assert d.ids[b] == k;
    } else {
      assert k in t.ids;
      var i :| 0 <= i < |t.ids| && t.ids[i] == k;
      DividedEntry(t, b, i);
      assert d.ids[i] == k;
    }
  }

  lemma DividedAllocated(t: Index, b: nat)
    requires t.Consistent() && b < |t.ids| && t.next < |t.mem| && t.At(b).Full()
    requires t.Divided(b).Shape() && t.At(b).depth < t.g
    ensures t.Divided(b).Allocated()
  {
    var d := t.Divided(b);
    forall k: nat | k < d.next
      ensures k in d.ids
    {
      DividedReach(t, b, k);
    }
    forall k: nat | d.next <= k < |d.mem|
      ensures d.mem[k] == Blank()
    {
      assert d.mem[k] == t.mem[k];
    }
  }

  lemma DividedConsistent(t: Index, b: nat)
    requires t.Consistent() && b < |t.ids| && t.next < |t.mem| && t.At(b).Full()
    requires t.At(b).depth < t.g
    ensures t.Divided(b).Consistent()
    ensures t.Divided(b).At(b).depth == t.At(b).depth + 1
    ensures forall i: nat :: i < |t.ids| && t.ids[i] != t.ids[b] ==>
      t.Divided(b).ids[i] == t.ids[i] && t.Divided(b).At(i) == t.At(i)
  {
    var d := t.Divided(b);
    DividedShape(t, b);
    forall i: nat | i < |d.ids|
      ensures 1 <= d.At(i).depth <= d.g
      ensures t.ids[i] != t.ids[b] ==> d.ids[i] == t.ids[i] && d.At(i) == t.At(i)
    {
      DividedEntry(t, b, i);
      assert 1 <= t.At(i).depth <= t.g;
    }
    forall i: nat, j: nat | i < |d.ids| && j < |d.ids|
      ensures d.ids[i] == d.ids[j] <==> i % d.Period(i) == j % d.Period(i)
    {
      DividedSharing(t, b, i, j);
    }
    forall i: nat, s: nat | i < |d.ids| && s < 15
      ensures d.InPlace(i, s)
    {
      DividedPlaced(t, b, i, s);
    }
    DividedAllocated(t, b);
    DividedEntry(t, b, b);
  }

  /** The bucket an entry of the divided bucket ends up with. */
  lemma DividedAt(t: Index, b: nat, i: nat)
    requires t.Consistent() && b < |t.ids| && t.next < |t.mem| && t.At(b).Full()
    requires t.Divided(b).Shape() && i < |t.ids| && t.ids[i] == t.ids[b]
    ensures var l := t.At(b).depth; var m := Pow2(l + 1);
      t.Divided(b).At(i) ==
        Filled(if i % m == b % m then t.At(b) else t.mem[t.next], l + 1, Select(t.At(b).slot, m, i % m))
  {
    DividedEntry(t, b, i);
  }

  lemma DividedLookupInside(full: BucketVal, base: BucketVal, part: BucketVal, m: nat, h: nat, key: uint64)
    requires full.Wf() && full.Unique() && full.Full() && |base.slot| == 15 && m > 0
    requires part == Filled(base, part.depth, Select(full.slot, m, h % m)) && key % m == h % m
    ensures part.Wf() && part.Lookup(key) == full.Lookup(key)
  {
    SelectLookup(full, base, part.depth, m, key);
  }

  lemma DividedLookup(t: Index, b: nat, key: uint64)
    requires t.Consistent() && b < |t.ids| && t.next < |t.mem| && t.At(b).Full()
    requires t.Divided(b).Shape() && t.At(b).depth < t.g
    ensures t.Divided(b).Lookup(key) == t.Lookup(key)
  {
    var h := t.Hash(key);
    if t.ids[h] == t.ids[b] {
      var m := Pow2(t.At(b).depth + 1);
      DividedAt(t, b, h);
      ModMod(key, t.At(b).depth + 1, t.g);
      DividedLookupInside(t.At(b), if h % m == b % m then t.At(b) else t.mem[t.next], t.Divided(b).At(h), m, h, key);
    } else {
      DividedEntry(t, b, h);
    }
  }

  // ----- Splitting -----

  /** A split of a full bucket keeps the whole invariant and answers every lookup as before.
      Entries of other buckets keep their bucket and its contents. */
  lemma SplitKeeps(t: Index, b: nat)
    requires t.Inv() && b < |t.ids| && t.At(b).Full()
    ensures t.Split(b).Inv()
    ensures forall key: uint64 :: t.Split(b).Lookup(key) == t.Lookup(key)
    ensures forall k: nat :: k < t.next && k != t.ids[b] ==> t.Split(b).mem[k] == t.mem[k]
    ensures t.Split(b).next == t.next + 1
  {
    PreparedConsistent(t, b);
    var p := t.Prepared(b);
    DividedConsistent(p, b);
    var d := p.Divided(b);
    if t.At(b).depth == t.g {
      assert d.At(b).depth == d.g;
    } else {
      var i: nat :| i < |t.ids| && t.At(i).depth == t.g;
      assert p.At(i) == t.At(i);
      assert d.At(i).depth == d.g;
    }
    forall key: uint64
      ensures d.Lookup(key) == t.Lookup(key)
    {
      DividedLookup(p, b, key);
    }
  }

  /** The split that makes room for a key raises the depth of the key's bucket by exactly one. */
  lemma SplitDeepens(t: Index, key: uint64)
    requires t.Inv() && t.At(t.Hash(key)).Full()
    ensures t.Split(t.Hash(key)).Inv()
    ensures var s := t.Split(t.Hash(key)); s.At(s.Hash(key)).depth == t.At(t.Hash(key)).depth + 1
  {
    var b := t.Hash(key);
    SplitKeeps(t, b);
    PreparedConsistent(t, b);
    var p := t.Prepared(b);
    DividedConsistent(p, b);
    assert p.ids[p.Hash(key)] == t.ids[b];
    DividedAt(p, b, p.Hash(key));
  }

  /** The pairs of a full bucket, told apart by one bit of the key. */
  ghost predicate TwoParts(full: BucketVal, old': BucketVal, new': BucketVal, b: nat, l: nat)
    requires full.Wf() && old'.Wf() && new'.Wf()
  {
    var ps, qs := old'.LivePairs(15), new'.LivePairs(15);
    && multiset(ps) + multiset(qs) == multiset(full.LivePairs(15))
    && (forall p :: p in ps ==> p.key / Pow2(l) % 2 == b / Pow2(l) % 2)
    && (forall p :: p in qs ==> p.key / Pow2(l) % 2 != b / Pow2(l) % 2)
  }

  /** Splitting conserves contents: the pairs of the old bucket and of the new bucket afterwards
      are those of the full bucket, told apart by bit `local_depth` of the key. */
  lemma SplitConserves(t: Index, b: nat)
    requires t.Inv() && b < |t.ids| && t.At(b).Full()
    ensures t.Split(b).Shape()
    ensures var l := t.At(b).depth; var d := t.Split(b);
      && TwoParts(t.At(b), d.mem[t.ids[b]], d.mem[t.next], b, l)
      && d.mem[t.ids[b]].depth == d.mem[t.next].depth == l + 1
  {
    SplitKeeps(t, b);
    PreparedConsistent(t, b);
    var p := t.Prepared(b);
    var o, l := t.ids[b], t.At(b).depth;
    BuddyResidue(b, l);
    forall q | q in t.mem[o].slot
      ensures q.key % Pow2(l) == b % Pow2(l)
    {
      var s :| 0 <= s < 15 && t.mem[o].slot[s] == q;
      assert t.InPlace(b, s);
    }
    var m, yu := Pow2(l + 1), Buddy(b, l) % Pow2(l + 1);
    var d := t.Split(b);
    assert d.mem[o] == Filled(t.mem[o], l + 1, Select(t.mem[o].slot, m, b % m));
    assert d.mem[t.next] == Filled(p.mem[t.next], l + 1, Select(t.mem[o].slot, m, yu));
    Redistribution(t.mem[o], p.mem[t.next], b, l, yu);
  }

  lemma Redistribution(full: BucketVal, spare: BucketVal, b: nat, l: nat, yu: nat)
    requires full.Wf() && full.Full() && |spare.slot| == 15
    requires yu != b % Pow2(l + 1) && yu == Buddy(b, l) % Pow2(l + 1)
    requires forall q :: q in full.slot ==> q.key % Pow2(l) == b % Pow2(l)
    ensures var m := Pow2(l + 1);
      var old' := Filled(full, l + 1, Select(full.slot, m, b % m));
      var new' := Filled(spare, l + 1, Select(full.slot, m, yu));
      old'.Wf() && new'.Wf() && TwoParts(full, old', new', b, l)
  {
    var m := Pow2(l + 1);
    var ps := full.slot;
    FullPairs(full);
    SelectContents(ps, m, b % m);
    SelectContents(ps, m, yu);
    FilledPairs(full, l + 1, Select(ps, m, b % m));
    FilledPairs(spare, l + 1, Select(ps, m, yu));
    BuddyResidue(b, l);
    forall q | q in ps
      ensures q.key % m == b % m || q.key % m == yu
      ensures q.key / Pow2(l) % 2 == b / Pow2(l) % 2 <==> q.key % m == b % m
    {
      ModDouble(q.key, Pow2(l));
      ModDouble(b, Pow2(l));
    }
    SelectPartition(ps, m, b % m, yu);
  }
}
