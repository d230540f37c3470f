/** The value of one bucket: its local depth, its occupancy bits and its fifteen slots. */
module Buckets {
  import opened BitOps

  datatype Option<+T> = None | Some(value: T)

  datatype KV = KV(key: uint64, value: uint64)

  datatype BucketVal = BucketVal(depth: nat, live: seq<bool>, slot: seq<KV>) {

    /** Sixteen occupancy bits, of which the last one is spare, and fifteen slots. */
    ghost predicate Wf() {
      |live| == 16 && |slot| == 15 && !live[15]
    }

    ghost predicate Full() {
      |live| == 16 && forall i :: 0 <= i < 15 ==> live[i]
    }

    ghost predicate Holds(s: nat, key: uint64)
      requires Wf()
    {
      s < 15 && live[s] && slot[s].key == key
    }

    /** No key is stored twice. */
    ghost predicate Unique()
      requires Wf()
    {
      forall i: nat, j: nat :: i < j < 15 && live[i] && live[j] ==> slot[i].key != slot[j].key
    }

    /** First live slot at or after s that holds the key, or 15. */
    ghost function FindFrom(key: uint64, s: nat): (r: nat)
      requires Wf() && s <= 15
      ensures s <= r <= 15
      ensures r < 15 ==> Holds(r, key)
      ensures forall j: nat :: s <= j < r ==> !Holds(j, key)
      decreases 15 - s
    {
      if s == 15 || Holds(s, key) then s else FindFrom(key, s + 1)
    }

    ghost function Lookup(key: uint64): Option<uint64>
      requires Wf()
    {
      var s := FindFrom(key, 0);
      if s == 15 then None else Some(slot[s].value)
    }

    /** First free slot at or after s, or 15. */
    ghost function FreeFrom(s: nat): (r: nat)
      requires Wf() && s <= 15
      ensures s <= r <= 15
      ensures r < 15 ==> !live[r]
      ensures forall j: nat :: s <= j < r ==> live[j]
      decreases 15 - s
    {
      if s == 15 || !live[s] then s else FreeFrom(s + 1)
    }

    ghost function Put(s: nat, p: KV): BucketVal
      requires Wf() && s < 15
    {
      BucketVal(depth, live[s := true], slot[s := p])
    }

    ghost function Drop(s: nat): BucketVal
      requires Wf() && s < 15
    {
      BucketVal(depth, live[s := false], slot)
    }

    ghost function Store(s: nat, v: uint64): BucketVal
      requires Wf() && s < 15
    {
      BucketVal(depth, live, slot[s := KV(slot[s].key, v)])
    }

    /** The live pairs among the first n slots, in slot order. */
    ghost function LivePairs(n: nat): (ps: seq<KV>)
      requires Wf() && n <= 15
      ensures |ps| <= n
    {
      if n == 0 then []
      else LivePairs(n - 1) + (if live[n - 1] then [slot[n - 1]] else [])
    }
  }

  ghost function Blank(): (b: BucketVal)
    ensures b.Wf() && b.Unique()
    ensures forall key: uint64 :: b.Lookup(key) == None
  {
    BucketVal(0, seq(16, i => false), seq(15, i => KV(0, 0)))
  }

  // ----- Lookups -----

  /** In a bucket without repeated keys a lookup answers with the pair of any slot that holds the key. */
  lemma LookupHit(b: BucketVal, key: uint64, s: nat)
    requires b.Wf() && b.Unique() && b.Holds(s, key)
    ensures b.Lookup(key) == Some(b.slot[s].value)
    ensures b.FindFrom(key, 0) == s
  {
    var r := b.FindFrom(key, 0);
    assert b.Holds(r, key);
  }

  lemma LookupMiss(b: BucketVal, key: uint64)
    requires b.Wf() && forall s: nat :: s < 15 ==> !b.Holds(s, key)
    ensures b.Lookup(key) == None
  {
  }

  lemma PutLookup(b: BucketVal, s: nat, p: KV)
    requires b.Wf() && b.Unique() && s < 15 && !b.live[s]
    requires b.Lookup(p.key) == None
    ensures b.Put(s, p).Wf() && b.Put(s, p).Unique()
    ensures forall key: uint64 :: b.Put(s, p).Lookup(key) == if key == p.key then Some(p.value) else b.Lookup(key)
  {
    var c := b.Put(s, p);
    assert forall j: nat :: j < 15 ==> !b.Holds(j, p.key);
    assert c.Unique() by {
      forall i: nat, j: nat | i < j < 15 && c.live[i] && c.live[j]
        ensures c.slot[i].key != c.slot[j].key
      {
        if i == s {
          assert !b.Holds(j, p.key);
        } else if j == s {
          assert !b.Holds(i, p.key);
        }
      }
    }
    forall key: uint64
      ensures c.Lookup(key) == if key == p.key then Some(p.value) else b.Lookup(key)
    {
      if key == p.key {
        LookupHit(c, key, s);
      } else {
        var r := b.FindFrom(key, 0);
        if r < 15 {
          LookupHit(c, key, r);
        } else {
          forall j: nat | j < 15
            ensures !c.Holds(j, key)
          {
            assert !b.Holds(j, key);
          }
          LookupMiss(c, key);
        }
      }
    }
  }

  lemma DropLookup(b: BucketVal, s: nat)
    requires b.Wf() && b.Unique() && s < 15 && b.live[s]
    ensures b.Drop(s).Wf() && b.Drop(s).Unique()
    ensures forall key: uint64 :: b.Drop(s).Lookup(key) == if key == b.slot[s].key then None else b.Lookup(key)
  {
    var c := b.Drop(s);
    assert forall j: nat :: j < 15 ==> c.slot[j] == b.slot[j] && (c.live[j] <==> b.live[j] && j != s);
    forall key: uint64
      ensures c.Lookup(key) == if key == b.slot[s].key then None else b.Lookup(key)
    {
      forall j: nat | j < 15
        ensures c.Holds(j, key) <==> b.Holds(j, key) && j != s
        ensures key == b.slot[s].key && j != s ==> !b.Holds(j, key)
      {
      }
      var r := b.FindFrom(key, 0);
      if key == b.slot[s].key || r == 15 {
        LookupMiss(c, key);
      } else {
        LookupHit(c, key, r);
      }
    }
  }

  lemma StoreLookup(b: BucketVal, s: nat, v: uint64)
    requires b.Wf() && b.Unique() && s < 15 && b.live[s]
    ensures b.Store(s, v).Wf() && b.Store(s, v).Unique()
    ensures forall key: uint64 :: b.Store(s, v).Lookup(key) == if key == b.slot[s].key then Some(v) else b.Lookup(key)
  {
    var c := b.Store(s, v);
    assert forall j: nat :: j < 15 ==> c.slot[j].key == b.slot[j].key && (j != s ==> c.slot[j] == b.slot[j]);
    forall key: uint64
      ensures c.Lookup(key) == if key == b.slot[s].key then Some(v) else b.Lookup(key)
    {
      forall j: nat | j < 15
        ensures c.Holds(j, key) <==> b.Holds(j, key)
        ensures key == b.slot[s].key && j != s ==> !b.Holds(j, key)
      {
      }
      var r := b.FindFrom(key, 0);
      if key == b.slot[s].key {
        LookupHit(c, key, s);
      } else if r == 15 {
        LookupMiss(c, key);
      } else {
        LookupHit(c, key, r);
      }
    }
  }

  // ----- Redistribution of the pairs of a full bucket -----

  /** The pairs whose key has residue r modulo m, in order. */
  ghost function Select(ps: seq<KV>, m: nat, r: nat): (qs: seq<KV>)
    requires m > 0
    ensures |qs| <= |ps|
  {
    if ps == [] then []
    else
      var last := ps[|ps| - 1];
      Select(ps[..|ps| - 1], m, r) + (if last.key % m == r then [last] else [])
  }

  /** A bucket emptied and then filled, from the first slot on, with the given pairs:
      stale slot contents stay behind the filled ones. */
  ghost function Filled(b: BucketVal, depth: nat, ps: seq<KV>): BucketVal
    requires |b.slot| == 15 && |ps| <= 15
  {
    BucketVal(depth, seq(16, i => i < |ps|), ps + b.slot[|ps|..])
  }

  lemma FilledFree(b: BucketVal, depth: nat, ps: seq<KV>)
    requires |b.slot| == 15 && |ps| <= 15
    ensures Filled(b, depth, ps).Wf()
    ensures Filled(b, depth, ps).FreeFrom(0) == |ps|
  {
    var c := Filled(b, depth, ps);
    assert forall j: nat :: j < 16 ==> c.live[j] == (j < |ps|);
  }

  /** Putting one more pair into the first free slot of a filled bucket. */
  lemma FilledPut(b: BucketVal, depth: nat, ps: seq<KV>, p: KV)
    requires |b.slot| == 15 && |ps| < 15
    ensures Filled(b, depth, ps).Wf()
    ensures Filled(b, depth, ps).Put(|ps|, p) == Filled(b, depth, ps + [p])
  {
    var c, d := Filled(b, depth, ps).Put(|ps|, p), Filled(b, depth, ps + [p]);
    assert c.live == d.live;
    assert c.slot == d.slot;
  }

  lemma {:induction false} SelectStep(ps: seq<KV>, n: nat, m: nat, r: nat)
    requires m > 0 && n < |ps|
    ensures Select(ps[..n + 1], m, r) == Select(ps[..n], m, r) + (if ps[n].key % m == r then [ps[n]] else [])
  {
    assert ps[..n + 1][..n] == ps[..n];
  }

  lemma {:induction false} SelectContents(ps: seq<KV>, m: nat, r: nat)
    requires m > 0
    ensures forall p :: p in Select(ps, m, r) <==> p in ps && p.key % m == r
  {
    if ps == [] {
    } else {
      var init := ps[..|ps| - 1];
      SelectContents(init, m, r);
      assert ps == init + [ps[|ps| - 1]];
    }
  }

  ghost predicate DistinctKeys(ps: seq<KV>) {
    forall i, j :: 0 <= i < j < |ps| ==> ps[i].key != ps[j].key
  }

  lemma {:induction false} SelectDistinct(ps: seq<KV>, m: nat, r: nat)
    requires m > 0 && DistinctKeys(ps)
    ensures DistinctKeys(Select(ps, m, r))
  {
    if ps == [] {
    } else {
      var n := |ps| - 1;
      var init := ps[..n];
      SelectDistinct(init, m, r);
      SelectContents(init, m, r);
      var qs := Select(init, m, r);
      forall i | 0 <= i < |qs|
        ensures qs[i].key != ps[n].key
      {
        assert qs[i] in init;
      }
    }
  }

  /** Two residues that between them cover every key split the pairs without loss. */
  lemma {:induction false} SelectPartition(ps: seq<KV>, m: nat, r: nat, r': nat)
    requires m > 0 && r != r'
    requires forall p :: p in ps ==> p.key % m == r || p.key % m == r'
    ensures multiset(Select(ps, m, r)) + multiset(Select(ps, m, r')) == multiset(ps)
  {
    if ps == [] {
    } else {
      var init := ps[..|ps| - 1];
      assert ps == init + [ps[|ps| - 1]];
      SelectPartition(init, m, r, r');
    }
  }

  lemma {:induction false} LivePairsPrefix(b: BucketVal, n: nat, k: nat)
    requires b.Wf() && k <= n <= 15
    requires forall i: nat :: i < n ==> b.live[i] == (i < k)
    ensures b.LivePairs(n) == b.slot[..k]
  {
    if n == 0 {
    } else if n > k {
      LivePairsPrefix(b, n - 1, k);
    } else {
      LivePairsPrefix(b, n - 1, k - 1);
      assert b.slot[..k] == b.slot[..k - 1] + [b.slot[k - 1]];
    }
  }

  lemma FilledPairs(b: BucketVal, depth: nat, ps: seq<KV>)
    requires |b.slot| == 15 && |ps| <= 15
    ensures Filled(b, depth, ps).Wf() && Filled(b, depth, ps).LivePairs(15) == ps
  {
    var c := Filled(b, depth, ps);
    LivePairsPrefix(c, 15, |ps|);
  }

  lemma FullPairs(b: BucketVal)
    requires b.Wf() && b.Full()
    ensures b.LivePairs(15) == b.slot
  {
    LivePairsPrefix(b, 15, 15);
  }

  lemma FilledUnique(b: BucketVal, depth: nat, ps: seq<KV>)
    requires |b.slot| == 15 && |ps| <= 15 && DistinctKeys(ps)
    ensures Filled(b, depth, ps).Wf() && Filled(b, depth, ps).Unique()
  {
  }

  /** After redistribution a key is found exactly as it was in the full bucket, by looking
      in the part that holds its residue class. */
  lemma SelectLookup(b: BucketVal, base: BucketVal, depth: nat, m: nat, key: uint64)
    requires b.Wf() && b.Full() && b.Unique() && |base.slot| == 15 && m > 0
    ensures var c := Filled(base, depth, Select(b.slot, m, key % m));
      c.Wf() && c.Unique() && c.Lookup(key) == b.Lookup(key)
  {
    var ps := Select(b.slot, m, key % m);
    var c := Filled(base, depth, ps);
    SelectDistinct(b.slot, m, key % m);
    SelectContents(b.slot, m, key % m);
    FilledUnique(base, depth, ps);
    var r := b.FindFrom(key, 0);
    if r < 15 {
      assert b.slot[r] in ps;
      var i :| 0 <= i < |ps| && ps[i] == b.slot[r];
      LookupHit(c, key, i);
    } else {
      forall j: nat | j < 15
        ensures !c.Holds(j, key)
      {
        if j < |ps| {
          assert c.slot[j] == ps[j] && ps[j] in b.slot;
          var i :| 0 <= i < 15 && b.slot[i] == ps[j];
          assert !b.Holds(i, key);
        }
      }
      LookupMiss(c, key);
    }
  }
}
