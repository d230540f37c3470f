/** Concrete inputs on which the persistent side stops following the table. */
module Divergence {
  import opened BitOps
  import opened Buckets
  import opened HashIndex
  import opened HashRuns
  import opened PageStore

  // ----- Page copies -----

  /** An insertion into the fresh table goes straight to the bucket of the key's last bit. */
  lemma FirstInsertion(key: uint64, value: uint64)
    ensures Fresh().Inv() && Insert(Fresh(), key, value).Inv()
    ensures var t := Insert(Fresh(), key, value);
      t.ids[t.Hash(key)] == key % 2 && t.Lookup(key) == Some(value)
  {
    FreshInv();
    FreshShape();
    InsertKeeps(Fresh(), key, value);
    assert Pow2(1) == 2;
    var h := Fresh().Hash(key);
    assert !Fresh().At(h).live[0];
    assert MakeRoom(Fresh(), key) == Fresh();
  }

  /** Inserting an odd key into the fresh table and removing it, or giving it another value, leaves
      a page that does not hold a copy of the bucket. */
  lemma TwoOperationsLoseTheCopy(key: uint64, value: uint64, other: uint64)
    requires key % 2 == 1
    ensures Fresh().Inv() && FreshStore().BitsRight(Fresh())
    ensures var ops := [DoInsert(key, value), DoRemove(key)];
      !RunStore(Fresh(), FreshStore(), ops).Exact(Run(Fresh(), ops))
    ensures var ops := [DoInsert(key, value), DoUpdate(key, other)];
      other != value ==> !RunStore(Fresh(), FreshStore(), ops).Exact(Run(Fresh(), ops))
  {
    hide Fresh, FreshStore, Store.Exact, Insert, InsertStore, Remove, Update, RemoveStore, UpdateStore, Run, RunStore;
    hide Index.Inv, Index.Lookup;
    FreshStoreRight();
    FirstInsertion(key, value);
    InsertStoreKeeps(Fresh(), FreshStore(), key, value);
    var t, s := Insert(Fresh(), key, value), InsertStore(Fresh(), FreshStore(), key, value);
    RemoveExactness(t, s, key);
    UpdateExactness(t, s, key, other);
    forall op: Op
      ensures Run(Fresh(), [DoInsert(key, value), op]) == Apply(t, op)
      ensures RunStore(Fresh(), FreshStore(), [DoInsert(key, value), op]) == ApplyStore(t, s, op)
    {
      TwoOperations(key, value, op);
    }
  }

  lemma TwoOperations(key: uint64, value: uint64, op: Op)
    requires Fresh().Inv() && FreshStore().BitsRight(Fresh())
    ensures Insert(Fresh(), key, value).Inv()
    ensures InsertStore(Fresh(), FreshStore(), key, value).BitsRight(Insert(Fresh(), key, value))
    ensures var t, s := Insert(Fresh(), key, value), InsertStore(Fresh(), FreshStore(), key, value);
      var ops := [DoInsert(key, value), op];
      Run(Fresh(), ops) == Apply(t, op) && RunStore(Fresh(), FreshStore(), ops) == ApplyStore(t, s, op)
  {
    hide Fresh, FreshStore, Insert, InsertStore;
    InsertStoreKeeps(Fresh(), FreshStore(), key, value);
    var t, s := Insert(Fresh(), key, value), InsertStore(Fresh(), FreshStore(), key, value);
    var ops := [DoInsert(key, value), op];
    ApplyStoreBits(t, s, op);
    assert ops[1..] == [op] && [op][1..] == [];
    assert Run(t, [op]) == Run(Apply(t, op), []);
    assert RunStore(t, s, [op]) == RunStore(Apply(t, op), ApplyStore(t, s, op), []);
  }

  // ----- Flat addresses and catalog files -----

  /** The bucket holds exactly these keys, in the order of its slots. */
  ghost predicate Holding(c: BucketVal, ks: seq<uint64>) {
    && c.Wf() && |ks| <= 15
    && (forall s :: 0 <= s < 15 ==> (c.live[s] <==> s < |ks|))
    && (forall s :: 0 <= s < |ks| ==> c.slot[s].key == ks[s])
  }

  lemma HoldingFacts(c: BucketVal, ks: seq<uint64>)
    requires Holding(c, ks)
    ensures c.FreeFrom(0) == |ks| && (c.Full() <==> |ks| == 15)
    ensures forall key: uint64 :: key !in ks ==> c.Lookup(key) == None
  {
    var r := c.FreeFrom(0);
    assert |ks| < 15 ==> !c.live[|ks|];
    assert r < 15 ==> !c.live[r];
    forall key: uint64 | key !in ks
      ensures c.Lookup(key) == None
    {
      assert forall j: nat :: j < 15 ==> !c.Holds(j, key);
      LookupMiss(c, key);
    }
  }

  lemma HoldingPut(c: BucketVal, ks: seq<uint64>, p: KV)
    requires Holding(c, ks) && |ks| < 15
    ensures Holding(c.Put(|ks|, p), ks + [p.key])
  {
  }

  /** Nothing but the contents of bucket k and of the page copies is different. */
  ghost predicate OnlyBucket(t: Index, s: Store, t': Index, s': Store, k: nat) {
    && t'.g == t.g && t'.ids == t.ids && t'.next == t.next && k < |t.mem| == |t'.mem|
    && (forall j: nat {:trigger t'.mem[j]} :: j < |t.mem| && j != k ==> t'.mem[j] == t.mem[j])
    && t'.mem[k].depth == t.mem[k].depth
    && s'.phys == s.phys && s'.filed == s.filed
  }

  lemma SameCatalog(t: Index, s: Store, t': Index, s': Store, k: nat)
    requires OnlyBucket(t, s, t', s', k) && s.Fits(t) && s'.Fits(t')
    ensures s'.AddressesRight(t') <==> s.AddressesRight(t)
    ensures s'.CatalogRight(t') <==> s.CatalogRight(t)
  {
  }

  /** An insertion leaves the catalog as the split loop left it. */
  lemma InsertThrough(t: Index, s: Store, key: uint64, ks: seq<uint64>)
    requires Sound(t, s) && t.Lookup(key) == None
    requires var r := MakeRoom(t, key); Holding(r.At(r.Hash(key)), ks) && |ks| < 15
    ensures var r, u, n, e := MakeRoom(t, key), MakeRoomStore(t, s, key), Insert(t, key, 0), InsertStore(t, s, key, 0);
      && r.Hash(key) < |r.ids| && r.ids[r.Hash(key)] < r.next
      && Sound(n, e) && OnlyBucket(r, u, n, e, r.ids[r.Hash(key)])
      && Holding(n.mem[r.ids[r.Hash(key)]], ks + [key])
      && (e.AddressesRight(n) <==> u.AddressesRight(r)) && (e.CatalogRight(n) <==> u.CatalogRight(r))
  {
    var r, u, n, e := MakeRoom(t, key), MakeRoomStore(t, s, key), Insert(t, key, 0), InsertStore(t, s, key, 0);
    var k := r.ids[r.Hash(key)];
    InsertEffect(t, s, key, 0);
    HoldingFacts(r.mem[k], ks);
    HoldingPut(r.mem[k], ks, KV(key, 0));
    SameCatalog(r, u, n, e, k);
  }

  ghost function Inserts(ks: seq<uint64>): (ops: seq<Op>)
    ensures |ops| == |ks|
    ensures forall i :: 0 <= i < |ks| ==> ops[i] == DoInsert(ks[i], 0)
  {
    seq(|ks|, i requires 0 <= i < |ks| => DoInsert(ks[i], 0))
  }

  lemma InsertWithRoom(t: Index, s: Store, key: uint64, ks: seq<uint64>)
    requires Sound(t, s) && Holding(t.mem[t.ids[t.Hash(key)]], ks) && |ks| < 15 && key !in ks
    ensures var n, e, k := Insert(t, key, 0), InsertStore(t, s, key, 0), t.ids[t.Hash(key)];
      Sound(n, e) && OnlyBucket(t, s, n, e, k) && Holding(n.mem[k], ks + [key])
  {
    HoldingFacts(t.At(t.Hash(key)), ks);
    NoSplit(t, s, key);
    InsertThrough(t, s, key, ks);
  }

  lemma NoSplit(t: Index, s: Store, key: uint64)
    requires Sound(t, s) && !t.At(t.Hash(key)).Full()
    ensures MakeRoom(t, key) == t && MakeRoomStore(t, s, key) == s
  {
  }

  lemma OnlyThatBucket(t: Index, s: Store, n: Index, e: Store, t': Index, s': Store, k: nat)
    requires OnlyBucket(t, s, n, e, k) && OnlyBucket(n, e, t', s', k)
    ensures OnlyBucket(t, s, t', s', k)
  {
  }

  lemma RunInserts(t: Index, s: Store, ks: seq<uint64>)
    requires Sound(t, s) && ks != []
    ensures Sound(Insert(t, ks[0], 0), InsertStore(t, s, ks[0], 0))
    ensures Run(t, Inserts(ks)) == Run(Insert(t, ks[0], 0), Inserts(ks[1..]))
    ensures RunStore(t, s, Inserts(ks)) == RunStore(Insert(t, ks[0], 0), InsertStore(t, s, ks[0], 0), Inserts(ks[1..]))
  {
    hide Insert, InsertStore;
    ApplySound(t, s, DoInsert(ks[0], 0));
    assert Inserts(ks)[1..] == Inserts(ks[1..]);
  }

  ghost predicate NoKeyTwice(ks: seq<uint64>) {
    forall i, j :: 0 <= i < j < |ks| ==> ks[i] != ks[j]
  }

  lemma AppendNone(held: seq<uint64>, ks: seq<uint64>)
    requires ks == []
    ensures held + ks == held
  {
  }

  lemma OneByOne(held: seq<uint64>, ks: seq<uint64>)
    requires ks != []
    ensures held + ks == held + [ks[0]] + ks[1..]
  {
  }

  lemma SoundParts(t: Index, s: Store)
    requires Sound(t, s)
    ensures t.Inv() && s.Fits(t) && s.BitsRight(t)
  {
  }

  /** Filling a bucket that has room for all the keys. */
  lemma {:induction false} FillRun(t: Index, s: Store, k: nat, held: seq<uint64>, ks: seq<uint64>)
    requires Sound(t, s) && k < t.next && Holding(t.mem[k], held) && |held| + |ks| <= 15
    requires NoKeyTwice(held + ks)
    requires forall i :: 0 <= i < |ks| ==> t.ids[t.Hash(ks[i])] == k
    ensures var t', s' := Run(t, Inserts(ks)), RunStore(t, s, Inserts(ks));
      Sound(t', s') && OnlyBucket(t, s, t', s', k) && Holding(t'.mem[k], held + ks)
    decreases |ks|
  {
    if ks == [] {
      AppendNone(held, ks);
    } else {
      hide Holding, Insert, InsertStore, Run, RunStore, Sound, NoKeyTwice, Index.Inv, Store.BitsRight, Store.Fits;
      SoundParts(t, s);
      KeyInRange(t, s, ks[0]);
      var n, e, rest := Insert(t, ks[0], 0), InsertStore(t, s, ks[0], 0), ks[1..];
      FirstIsNew(held, ks);
      InsertWithRoom(t, s, ks[0], held);
      RunInserts(t, s, ks);
      OneByOne(held, ks);
      FillRun(n, e, k, held + [ks[0]], rest);
      OnlyThatBucket(t, s, n, e, Run(n, Inserts(rest)), RunStore(n, e, Inserts(rest)), k);
    }
  }

  lemma FirstIsNew(held: seq<uint64>, ks: seq<uint64>)
    requires ks != [] && NoKeyTwice(held + ks)
    ensures ks[0] !in held
  {
    assert (held + ks)[|held|] == ks[0];
    assert forall i :: 0 <= i < |held| ==> (held + ks)[i] == held[i];
  }

  /** One turn of the split loop is enough. */
  lemma OneSplit(t: Index, s: Store, key: uint64)
    requires Sound(t, s) && t.At(t.Hash(key)).Full()
    requires t.Split(t.Hash(key)).Inv()
    requires var d := t.Split(t.Hash(key)); !d.At(d.Hash(key)).Full()
    ensures MakeRoom(t, key) == t.Split(t.Hash(key)) && MakeRoomStore(t, s, key) == Split(t, s, t.Hash(key))
  {
    FullBucketDepth(t, t.Hash(key));
    SplitDeepens(t, key);
  }

  lemma AnotherSplit(t: Index, s: Store, key: uint64)
    requires Sound(t, s) && t.At(t.Hash(key)).Full()
    ensures var d, e := t.Split(t.Hash(key)), Split(t, s, t.Hash(key));
      Sound(d, e) && MakeRoom(t, key) == MakeRoom(d, key) && MakeRoomStore(t, s, key) == MakeRoomStore(d, e, key)
  {
    FullBucketDepth(t, t.Hash(key));
    SplitDeepens(t, key);
    SplitSound(t, s, t.Hash(key));
  }

  // ----- Selections -----

  lemma {:induction false} SelectAll(ps: seq<KV>, m: nat, r: nat)
    requires m > 0 && forall i :: 0 <= i < |ps| ==> ps[i].key % m == r
    ensures Select(ps, m, r) == ps
    decreases |ps|
  {
    if ps == [] {
    } else {
      SelectAll(ps[..|ps| - 1], m, r);
      assert ps == ps[..|ps| - 1] + [ps[|ps| - 1]];
    }
  }

  lemma {:induction false} SelectNone(ps: seq<KV>, m: nat, r: nat)
    requires m > 0 && forall i :: 0 <= i < |ps| ==> ps[i].key % m != r
    ensures Select(ps, m, r) == []
    decreases |ps|
  {
    if ps == [] {
    } else {
      SelectNone(ps[..|ps| - 1], m, r);
    }
  }

  lemma {:induction false} SelectSome(ps: seq<KV>, m: nat, r: nat, i: nat)
    requires m > 0 && i < |ps| && ps[i].key % m != r
    ensures |Select(ps, m, r)| < |ps|
    decreases |ps|
  {
    if i < |ps| - 1 {
      SelectSome(ps[..|ps| - 1], m, r, i);
    }
  }

  ghost function Keys(ps: seq<KV>): (ks: seq<uint64>)
    ensures |ks| == |ps| && forall i :: 0 <= i < |ps| ==> ks[i] == ps[i].key
  {
    seq(|ps|, i requires 0 <= i < |ps| => ps[i].key)
  }

  lemma FilledHolds(base: BucketVal, depth: nat, ps: seq<KV>)
    requires |base.slot| == 15 && |ps| <= 15
    ensures Holding(Filled(base, depth, ps), Keys(ps)) && Filled(base, depth, ps).depth == depth
  {
  }

  /** What the bucket of entry i holds after the bucket of entry b was divided. */
  lemma SplitAt(t: Index, s: Store, b: nat, i: nat)
    requires Sound(t, s) && b < |t.ids| && t.At(b).Full() && i < |t.Prepared(b).ids|
    requires t.Prepared(b).ids[i] == t.ids[b]
    ensures t.Split(b).Inv() && i < |t.Split(b).ids|
    ensures var m := Pow2(t.At(b).depth + 1);
      && Holding(t.Split(b).At(i), Keys(Select(t.At(b).slot, m, i % m)))
      && t.Split(b).At(i).depth == t.At(b).depth + 1
  {
    SplitKeeps(t, b);
    PreparedConsistent(t, b);
    var p, m := t.Prepared(b), Pow2(t.At(b).depth + 1);
    DividedConsistent(p, b);
    DividedAt(p, b, i);
    FilledHolds(if i % m == b % m then p.At(b) else p.mem[p.next], t.At(b).depth + 1, Select(t.At(b).slot, m, i % m));
  }

  /** The bucket of entry i has room after a split when some key of the full bucket went elsewhere. */
  lemma SplitLeavesRoom(t: Index, s: Store, b: nat, i: nat, j: nat)
    requires Sound(t, s) && b < |t.ids| && t.At(b).Full() && i < |t.Prepared(b).ids| && j < 15
    requires t.Prepared(b).ids[i] == t.ids[b]
    requires var m := Pow2(t.At(b).depth + 1); t.At(b).slot[j].key % m != i % m
    ensures t.Split(b).Inv() && i < |t.Split(b).ids|
    ensures exists ks :: Holding(t.Split(b).At(i), ks) && |ks| < 15
    ensures !t.Split(b).At(i).Full()
  {
    var m := Pow2(t.At(b).depth + 1);
    SplitAt(t, s, b, i);
    SelectSome(t.At(b).slot, m, i % m, j);
    HoldingFacts(t.Split(b).At(i), Keys(Select(t.At(b).slot, m, i % m)));
  }

  // ----- Two runs -----

  ghost function Evens(): (ks: seq<uint64>)
    ensures |ks| == 15 && forall i :: 0 <= i < 15 ==> ks[i] == 8 * i
  {
    seq(15, i requires 0 <= i < 15 => 8 * i)
  }

  ghost function Odds(): (ks: seq<uint64>)
    ensures |ks| == 15 && forall i :: 0 <= i < 15 ==> ks[i] == 2 * i + 1
  {
    seq(15, i requires 0 <= i < 15 => 2 * i + 1)
  }

  /** Fifteen multiples of 8, then 4: the bucket of the even keys splits twice, and one with local depth
      1 for the odd keys remains.  It is filled and split by sixteen odd keys. */
  ghost function FirstRun(): seq<Op> {
    Inserts(Evens()) + [DoInsert(4, 0)] + Inserts(Odds()) + [DoInsert(31, 0)]
  }

  /** One more multiple of 8 doubles the directory. */
  ghost function SecondRun(): seq<Op> {
    FirstRun() + [DoInsert(120, 0)]
  }

  /** Global depth d; bucket 0 has that depth and holds the even keys, bucket 1 has depth 1 and holds
      the odd keys; flat addresses and catalog files are right. */
  ghost predicate Stage(t: Index, s: Store, d: nat, evens: seq<uint64>, odds: seq<uint64>) {
    && Sound(t, s) && t.g == d && |t.ids| >= 2 && |t.mem| >= 2 && t.ids[0] == 0 && t.ids[1] == 1
    && t.mem[0].depth == d && t.mem[1].depth == 1
    && Holding(t.mem[0], evens) && Holding(t.mem[1], odds)
    && s.AddressesRight(t) && s.CatalogRight(t)
  }

  lemma FreshStage()
    ensures Stage(Fresh(), FreshStore(), 1, [], [])
  {
    FreshStoreRight();
    FreshShape();
  }

  lemma SmallPowers()
    ensures Pow2(1) == 2 && Pow2(2) == 4 && Pow2(3) == 8 && Pow2(4) == 16
  {
    Pow2Of16();
  }

  lemma RunAppend(t: Index, s: Store, a: seq<Op>, b: seq<Op>)
    requires Sound(t, s)
    ensures Sound(Run(t, a), RunStore(t, s, a))
    ensures Run(t, a + b) == Run(Run(t, a), b)
    ensures RunStore(t, s, a + b) == RunStore(Run(t, a), RunStore(t, s, a), b)
  {
    RunSound(t, s, a);
    RunInTwo(t, a, b);
    RunStoreInTwo(t, s, a, b);
  }

  lemma {:induction false} RunStoreInTwo(t: Index, s: Store, a: seq<Op>, b: seq<Op>)
    requires t.Inv() && s.BitsRight(t)
    ensures RunStore(t, s, a + b) == RunStore(Run(t, a), RunStore(t, s, a), b)
    decreases |a|
  {
    hide Apply, ApplyStore, Index.Inv;
    if a == [] {
      assert a + b == b;
    } else {
      ApplyStoreBits(t, s, a[0]);
      RunStoreInTwo(Apply(t, a[0]), ApplyStore(t, s, a[0]), a[1..], b);
      assert (a + b)[0] == a[0] && (a + b)[1..] == a[1..] + b;
    }
  }

  lemma RunOne(t: Index, s: Store, key: uint64)
    requires Sound(t, s)
    ensures Run(t, [DoInsert(key, 0)]) == Insert(t, key, 0)
    ensures RunStore(t, s, [DoInsert(key, 0)]) == InsertStore(t, s, key, 0)
  {
    hide Insert, InsertStore;
    var op := DoInsert(key, 0);
    ApplySound(t, s, op);
    assert [op][1..] == [];
    assert Run(t, [op]) == Run(Apply(t, op), []);
    assert RunStore(t, s, [op]) == RunStore(Apply(t, op), ApplyStore(t, s, op), []);
  }

  lemma OddEntries(t: Index, i: nat)
    requires t.Inv() && 1 < |t.ids| && t.ids[1] == 1 && t.At(1).depth == 1 && i < |t.ids| && i % 2 == 1
    ensures t.ids[i] == 1
  {
    SmallPowers();
    assert t.ids[1] == t.ids[i] <==> 1 % t.Period(1) == i % t.Period(1);
  }

  lemma FillEmpty(t: Index, s: Store, k: nat, ks: seq<uint64>)
    requires Sound(t, s) && k < t.next && Holding(t.mem[k], []) && |ks| <= 15 && NoKeyTwice(ks)
    requires forall i :: 0 <= i < |ks| ==> t.ids[t.Hash(ks[i])] == k
    ensures var t', s' := Run(t, Inserts(ks)), RunStore(t, s, Inserts(ks));
      && Sound(t', s') && OnlyBucket(t, s, t', s', k) && Holding(t'.mem[k], ks)
      && (s'.AddressesRight(t') <==> s.AddressesRight(t)) && (s'.CatalogRight(t') <==> s.CatalogRight(t))
  {
    hide Holding, NoKeyTwice, Run, RunStore;
    assert [] + ks == ks;
    FillRun(t, s, k, [], ks);
    SameCatalog(t, s, Run(t, Inserts(ks)), RunStore(t, s, Inserts(ks)), k);
  }

  lemma EvensAndOdds()
    ensures NoKeyTwice(Evens()) && NoKeyTwice(Odds())
    ensures forall i :: 0 <= i < 15 ==> Evens()[i] % 2 == 0 && Odds()[i] % 8 % 2 == 1
  {
  }

  lemma FillEvens(t: Index, s: Store)
    requires Stage(t, s, 1, [], [])
    ensures Stage(Run(t, Inserts(Evens())), RunStore(t, s, Inserts(Evens())), 1, Evens(), [])
  {
    hide Holding, NoKeyTwice, Run, RunStore, Inserts, Evens, Store.AddressesRight, Store.CatalogRight;
    SmallPowers();
    EvensAndOdds();
    FillEmpty(t, s, 0, Evens());
  }

  lemma FillOdds(t: Index, s: Store)
    requires Stage(t, s, 3, Evens(), [])
    ensures Stage(Run(t, Inserts(Odds())), RunStore(t, s, Inserts(Odds())), 3, Evens(), Odds())
  {
    hide Holding, NoKeyTwice, Run, RunStore, Inserts, Evens, Odds, Store.AddressesRight, Store.CatalogRight;
    SmallPowers();
    EvensAndOdds();
    forall i | 0 <= i < 15
      ensures t.ids[t.Hash(Odds()[i])] == 1
    {
      OddEntries(t, t.Hash(Odds()[i]));
    }
    FillEmpty(t, s, 1, Odds());
  }

  /** The entries that a split does not touch, and the one it is called for. */
  lemma SplitEntries(t: Index, s: Store, b: nat, i: nat)
    requires Sound(t, s) && b < |t.ids| && t.At(b).Full() && i < |t.ids| && (t.ids[i] != t.ids[b] || i == b)
    ensures Sound(t.Split(b), Split(t, s, b)) && |t.ids| <= |t.Split(b).ids| && |t.mem| <= |t.Split(b).mem|
    ensures t.Split(b).ids[i] == t.ids[i]
    ensures t.ids[i] != t.ids[b] ==> t.Split(b).mem[t.ids[i]] == t.mem[t.ids[i]]
    ensures t.Split(b).g == if t.At(b).depth == t.g then t.g + 1 else t.g
  {
    SplitSound(t, s, b);
    SplitKeeps(t, b);
    PreparedConsistent(t, b);
    DividedEntry(t.Prepared(b), b, i);
  }

  lemma MultiplesStay(c: BucketVal, d: nat)
    requires Holding(c, Evens()) && 1 <= d <= 2
    ensures Keys(Select(c.slot, Pow2(d + 1), 0)) == Evens()
    ensures Keys(Select(c.slot, Pow2(d + 1), Pow2(d))) == []
  {
    var m := Pow2(d + 1);
    forall i | 0 <= i < 15
      ensures c.slot[i].key % m == 0
    {
      assert c.slot[i].key == Evens()[i];
      MultipleOf8(i, d);
    }
    hide Pow2, Select;
    SelectAll(c.slot, m, 0);
    SelectNone(c.slot, m, Pow2(d));
    assert Keys(c.slot) == Evens();
  }

  lemma MultipleOf8(i: nat, d: nat)
    requires 1 <= d <= 2
    ensures 8 * i % Pow2(d + 1) == 0 && Pow2(d) > 0
  {
    SmallPowers();
    assert if d == 1 then Pow2(d + 1) == 4 else Pow2(d + 1) == 8;
    MultipleOf4Or8(i);
  }

  lemma MultipleOf4Or8(i: nat)
    ensures 8 * i % 4 == 0 && 8 * i % 8 == 0
  {
    DivModUnique(8 * i, 4, 2 * i, 0);
    DivModUnique(8 * i, 8, i, 0);
  }

  lemma SmallResidues(d: nat)
    requires 1 <= d <= 2
    ensures Pow2(d) % Pow2(d + 1) == Pow2(d) && 0 % Pow2(d + 1) == 0 < Pow2(d + 1)
  {
    SmallPowers();
    assert if d == 1 then Pow2(d + 1) == 4 else Pow2(d + 1) == 8;
  }

  /** Splitting the bucket of the multiples of 8 moves none of them. */
  lemma SplitEvens(t: Index, s: Store, d: nat)
    requires Stage(t, s, d, Evens(), []) && 1 <= d <= 2
    ensures t.At(0).Full() && Stage(t.Split(0), Split(t, s, 0), d + 1, Evens(), [])
    ensures var n := t.Split(0); Pow2(d) < |n.ids| && Holding(n.At(Pow2(d)), []) && n.At(Pow2(d)).depth == d + 1
  {
    hide Holding, Evens, Select, Keys, Store.AddressesRight, Store.CatalogRight, Index.Split, Split;
    SmallPowers();
    HoldingFacts(t.mem[0], Evens());
    SplitEntries(t, s, 0, 0);
    SplitEntries(t, s, 0, 1);
    AddressesAfterSplit(t, s, 0);
    CatalogAfterSplit(t, s, 0);
    MultiplesStay(t.mem[0], d);
    SmallResidues(d);
    SplitAt(t, s, 0, 0);
    SplitAt(t, s, 0, Pow2(d));
  }

  lemma StageElsewhere(t: Index, s: Store, n: Index, e: Store, k: nat, d: nat, evens: seq<uint64>, odds: seq<uint64>)
    requires Stage(t, s, d, evens, odds) && OnlyBucket(t, s, n, e, k) && k > 1 && Sound(n, e)
    ensures Stage(n, e, d, evens, odds)
  {
    SameCatalog(t, s, n, e, k);
  }

  lemma FourModulo()
    ensures 4 % Pow2(1) == 0 && 4 % Pow2(2) == 0 && 4 % Pow2(3) == 4 && Pow2(2) == 4
  {
    SmallPowers();
  }

  lemma TurnForFour(t: Index, s: Store, d: nat)
    requires Stage(t, s, d, Evens(), []) && 1 <= d <= 2
    ensures t.Hash(4) == 0 && t.Lookup(4) == None
    ensures var n, e := t.Split(0), Split(t, s, 0);
      && Stage(n, e, d + 1, Evens(), [])
      && MakeRoom(t, 4) == MakeRoom(n, 4) && MakeRoomStore(t, s, 4) == MakeRoomStore(n, e, 4)
      && Pow2(d) < |n.ids| && Holding(n.At(Pow2(d)), []) && n.At(Pow2(d)).depth == d + 1
  {
    FourModulo();
    hide Stage, MakeRoom, MakeRoomStore, Index.Split, Split, Pow2, Holding;
    StageFacts(t, s, d, Evens(), []);
    HoldingFacts(t.mem[0], Evens());
    SplitEvens(t, s, d);
    AnotherSplit(t, s, 4);
  }

  /** Two turns of the split loop make room for the key 4. */
  lemma RoomForFour(t: Index, s: Store)
    requires Stage(t, s, 1, Evens(), [])
    ensures t.Lookup(4) == None
    ensures var r, u := MakeRoom(t, 4), MakeRoomStore(t, s, 4);
      Stage(r, u, 3, Evens(), []) && r.Hash(4) == 4 < |r.ids| && Holding(r.At(4), []) && r.At(4).depth == 3
  {
    hide Stage, MakeRoom, MakeRoomStore, Index.Split, Split, Holding, Evens, Index.Lookup, Pow2;
    FourModulo();
    StageFacts(t, s, 1, Evens(), []);
    TurnForFour(t, s, 1);
    var t1, s1 := t.Split(0), Split(t, s, 0);
    StageFacts(t1, s1, 2, Evens(), []);
    var t2, s2 := t1.Split(0), Split(t1, s1, 0);
    TurnForFour(t1, s1, 2);
    StageFacts(t2, s2, 3, Evens(), []);
    HoldingFacts(t2.At(4), []);
    NoSplit(t2, s2, 4);
  }

  lemma StageFacts(t: Index, s: Store, d: nat, evens: seq<uint64>, odds: seq<uint64>)
    requires Stage(t, s, d, evens, odds)
    ensures Sound(t, s) && t.g == d && |t.ids| >= 2 && |t.mem| >= 2 && t.ids[0] == 0 && t.ids[1] == 1
    ensures t.mem[1].depth == 1 && Holding(t.mem[0], evens) && t.Inv() && s.Fits(t)
  {
  }

  lemma InsertFour(t: Index, s: Store)
    requires Stage(t, s, 1, Evens(), [])
    ensures Stage(Insert(t, 4, 0), InsertStore(t, s, 4, 0), 3, Evens(), [])
  {
    hide Insert, InsertStore, MakeRoom, MakeRoomStore, Stage;
    StageFacts(t, s, 1, Evens(), []);
    RoomForFour(t, s);
    var r, u := MakeRoom(t, 4), MakeRoomStore(t, s, 4);
    StageFacts(r, u, 3, Evens(), []);
    assert r.ids[4] != 0 by {
      assert Holding(r.mem[0], Evens()) ==> r.mem[0].live[0];
    }
    InsertThrough(t, s, 4, []);
    StageElsewhere(r, u, Insert(t, 4, 0), InsertStore(t, s, 4, 0), r.ids[4], 3, Evens(), []);
  }

  /** The flat addresses are wrong, the catalog files still right, and bucket 0 is full and uses all
      bits of the directory. */
  ghost predicate Stale(t: Index, s: Store) {
    && Sound(t, s) && t.g == 3 && |t.ids| > 0 && |t.mem| > 0 && t.ids[0] == 0
    && t.mem[0].depth == 3 && Holding(t.mem[0], Evens())
    && !s.AddressesRight(t) && s.CatalogRight(t)
  }

  lemma InsertThirtyOne(t: Index, s: Store)
    requires Stage(t, s, 3, Evens(), Odds())
    ensures Stale(Insert(t, 31, 0), InsertStore(t, s, 31, 0))
  {
    SmallPowers();
    HoldingFacts(t.mem[1], Odds());
    OddEntries(t, 7);
    SplitEntries(t, s, 7, 0);
    SplitEntries(t, s, 7, 7);
    AddressesAfterSplit(t, s, 7);
    CatalogAfterSplit(t, s, 7);
    SplitLeavesRoom(t, s, 7, 7, 0);
    OneSplit(t, s, 31);
    var r, u := t.Split(7), Split(t, s, 7);
    var ks :| Holding(r.At(7), ks) && |ks| < 15;
    InsertThrough(t, s, 31, ks);
  }

  lemma InsertOneTwenty(t: Index, s: Store)
    requires Stale(t, s)
    ensures Sound(Insert(t, 120, 0), InsertStore(t, s, 120, 0))
    ensures !InsertStore(t, s, 120, 0).CatalogRight(Insert(t, 120, 0))
  {
    SmallPowers();
    HoldingFacts(t.mem[0], Evens());
    SplitEntries(t, s, 0, 0);
    CatalogAfterSplit(t, s, 0);
    SplitLeavesRoom(t, s, 0, 8, 0);
    OneSplit(t, s, 120);
    var r := t.Split(0);
    var ks :| Holding(r.At(8), ks) && |ks| < 15;
    InsertThrough(t, s, 120, ks);
  }

  lemma AfterFirstRun()
    ensures Sound(Fresh(), FreshStore())
    ensures Stale(Run(Fresh(), FirstRun()), RunStore(Fresh(), FreshStore(), FirstRun()))
  {
    hide Stage, Stale, Insert, InsertStore, Run, RunStore, Fresh, FreshStore, Inserts;
    var t, s := Fresh(), FreshStore();
    var a, b, c, d := Inserts(Evens()), [DoInsert(4, 0)], Inserts(Odds()), [DoInsert(31, 0)];
    FreshStage();
    StageFacts(t, s, 1, [], []);
    FillEvens(t, s);
    RunAppend(t, s, a, b);
    RunOne(Run(t, a), RunStore(t, s, a), 4);
    InsertFour(Run(t, a), RunStore(t, s, a));
    RunAppend(t, s, a + b, c);
    FillOdds(Run(t, a + b), RunStore(t, s, a + b));
    RunAppend(t, s, a + b + c, d);
    RunOne(Run(t, a + b + c), RunStore(t, s, a + b + c), 31);
    InsertThirtyOne(Run(t, a + b + c), RunStore(t, s, a + b + c));
  }

  /** Thirty-two insertions into a fresh table leave a wrong flat address, while the catalog files are
      right; the next insertion makes the catalog files wrong as well. */
  lemma RunsLoseAddresses()
    ensures Fresh().Inv() && FreshStore().BitsRight(Fresh())
    ensures |FirstRun()| == 32
    ensures !RunStore(Fresh(), FreshStore(), FirstRun()).AddressesRight(Run(Fresh(), FirstRun()))
    ensures RunStore(Fresh(), FreshStore(), FirstRun()).CatalogRight(Run(Fresh(), FirstRun()))
    ensures !RunStore(Fresh(), FreshStore(), SecondRun()).CatalogRight(Run(Fresh(), SecondRun()))
  {
    hide Insert, InsertStore, Run, RunStore, Fresh, FreshStore, Store.CatalogRight, Store.AddressesRight;
    var t, s := Fresh(), FreshStore();
    AfterFirstRun();
    var t', s' := Run(t, FirstRun()), RunStore(t, s, FirstRun());
    InsertOneTwenty(t', s');
    RunAppend(t, s, FirstRun(), [DoInsert(120, 0)]);
    RunOne(t', s', 120);
  }
}
