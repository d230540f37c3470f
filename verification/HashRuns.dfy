/** The four operations on the index, the bound on the split loop, and whole runs
    compared with a plain map. */
module HashRuns {
  import opened BitOps
  import opened Buckets
  import opened HashIndex
  import opened Pigeonhole

  // ----- Replacing the bucket of one entry -----

  ghost function Replaced(t: Index, h: nat, c: BucketVal): Index
    requires t.Shape() && h < |t.ids|
  {
    Index(t.g, t.ids, t.mem[t.ids[h] := c], t.next)
  }

  lemma ReplacedKeeps(t: Index, h: nat, c: BucketVal)
    requires t.Inv() && h < |t.ids|
    requires c.Wf() && c.Unique() && c.depth == t.At(h).depth
    requires forall s: nat :: s < 15 && c.live[s] ==> c.slot[s].key % t.Period(h) == h % t.Period(h)
    ensures Replaced(t, h, c).Inv()
    ensures forall key: uint64 ::
      Replaced(t, h, c).Lookup(key) == if t.ids[t.Hash(key)] == t.ids[h] then c.Lookup(key) else t.Lookup(key)
  {
    var n := Replaced(t, h, c);
    forall i: nat | i < |n.ids|
      ensures n.At(i).depth == t.At(i).depth
      ensures n.At(i) == if t.ids[i] == t.ids[h] then c else t.At(i)
    {
    }
    forall i: nat, j: nat | i < |n.ids| && j < |n.ids|
      ensures n.ids[i] == n.ids[j] <==> i % n.Period(i) == j % n.Period(i)
    {
      assert t.ids[i] == t.ids[j] <==> i % t.Period(i) == j % t.Period(i);
    }
    forall i: nat, s: nat | i < |n.ids| && s < 15
      ensures n.InPlace(i, s)
    {
      assert t.InPlace(i, s);
      assert t.ids[i] == t.ids[h] <==> i % t.Period(i) == h % t.Period(i);
    }
    var i: nat :| i < |t.ids| && t.At(i).depth == t.g;
    assert n.At(i).depth == n.g;
  }

  /** Live keys are stored where the hash function looks for them. */
  lemma HomeOfKey(t: Index, i: nat, s: nat)
    requires t.Inv() && i < |t.ids| && s < 15 && t.At(i).live[s]
    ensures t.ids[t.Hash(t.At(i).slot[s].key)] == t.ids[i]
  {
    var key := t.At(i).slot[s].key;
    var h := t.Hash(key);
    assert t.InPlace(i, s);
    assert 1 <= t.At(i).depth <= t.g;
    ModMod(key, t.At(i).depth, t.g);
    assert t.ids[i] == t.ids[h] <==> i % t.Period(i) == h % t.Period(i);
  }

  lemma KeyHome(t: Index, key: uint64)
    requires t.Inv()
    ensures key % t.Period(t.Hash(key)) == t.Hash(key) % t.Period(t.Hash(key))
  {
    var h := t.Hash(key);
    assert 1 <= t.At(h).depth <= t.g;
    ModMod(key, t.At(h).depth, t.g);
  }

  // ----- The bound on the split loop -----

  lemma QuotientsDiffer(x: nat, y: nat, m: nat)
    requires m > 0 && x % m == y % m && x != y
    ensures x / m != y / m
  {
    assert x == m * (x / m) + x % m;
    assert y == m * (y / m) + y % m;
  }

  lemma SmallQuotient(x: uint64)
    ensures x / Pow2(61) < 8
  {
    Pow2Of64();
  }

  ghost function Quotients(ks: seq<uint64>, m: nat): (xs: seq<nat>)
    requires m > 0
    ensures |xs| == |ks| && forall i :: 0 <= i < |ks| ==> xs[i] == ks[i] / m
  {
    seq(|ks|, i requires 0 <= i < |ks| => ks[i] / m)
  }

  /** Different numbers with one residue modulo m and quotients below n: there are at most n. */
  lemma FewKeysAgree(ks: seq<uint64>, m: nat, r: nat, n: nat)
    requires m > 0
    requires forall i, j :: 0 <= i < j < |ks| ==> ks[i] != ks[j]
    requires forall i :: 0 <= i < |ks| ==> ks[i] % m == r && ks[i] / m < n
    ensures |ks| <= n
  {
    var xs := Quotients(ks, m);
    forall a, b | 0 <= a < b < |ks|
      ensures xs[a] != xs[b]
    {
      QuotientsDiffer(ks[a], ks[b], m);
    }
    FillsUp(xs, n);
  }

  /** A full bucket holds fifteen distinct 64-bit keys that agree on local_depth low bits,
      so its local depth is at most 60. */
  lemma FullBucketDepth(t: Index, i: nat)
    requires t.Inv() && i < |t.ids| && t.At(i).Full()
    ensures t.At(i).depth <= 60
  {
    var c := t.At(i);
    if c.depth >= 61 {
      var ks := seq(15, s requires 0 <= s < 15 => c.slot[s].key);
      forall s: nat | s < 15
        ensures ks[s] % Pow2(61) == i % Pow2(61) && ks[s] / Pow2(61) < 8
      {
        assert t.InPlace(i, s);
        SameModulo(ks[s], i, 61, c.depth);
        SmallQuotient(ks[s]);
      }
      FewKeysAgree(ks, Pow2(61), i % Pow2(61), 8);
    }
  }

  /** The loop that splits the key's bucket until it has room. */
  ghost function MakeRoom(t: Index, key: uint64): (r: Index)
    requires t.Inv()
    ensures r.Inv() && !r.At(r.Hash(key)).Full()
    ensures forall k: uint64 :: r.Lookup(k) == t.Lookup(k)
    ensures r.next - t.next == r.At(r.Hash(key)).depth - t.At(t.Hash(key)).depth
    ensures t.next <= r.next
    ensures r == t || r.At(r.Hash(key)).depth <= 61
    ensures t.g <= r.g && (t.g <= 61 ==> r.g <= 61)
    decreases 61 - t.At(t.Hash(key)).depth
  {
    if t.At(t.Hash(key)).Full() then
      FullBucketDepth(t, t.Hash(key));
      SplitKeeps(t, t.Hash(key));
      SplitDeepens(t, key);
      MakeRoom(t.Split(t.Hash(key)), key)
    else t
  }

  /** One insertion splits at most sixty buckets, however adversarial the keys are. */
  lemma SplitLoopBound(t: Index, key: uint64)
    requires t.Inv()
    ensures MakeRoom(t, key).next - t.next <= 60
  {
    var r := MakeRoom(t, key);
    assert 1 <= t.At(t.Hash(key)).depth;
  }

  // ----- Operations -----

  ghost function InsertNew(t: Index, key: uint64, value: uint64): Index
    requires t.Inv()
  {
    var r := MakeRoom(t, key);
    var h := r.Hash(key);
    Replaced(r, h, r.At(h).Put(r.At(h).FreeFrom(0), KV(key, value)))
  }

  ghost function Insert(t: Index, key: uint64, value: uint64): Index
    requires t.Inv()
  {
    if t.Lookup(key).Some? then t else InsertNew(t, key, value)
  }

  ghost function Remove(t: Index, key: uint64): Index
    requires t.Inv()
  {
    var h := t.Hash(key);
    var s := t.At(h).FindFrom(key, 0);
    if s == 15 then t else Replaced(t, h, t.At(h).Drop(s))
  }

  ghost function Update(t: Index, key: uint64, value: uint64): Index
    requires t.Inv()
  {
    var h := t.Hash(key);
    var s := t.At(h).FindFrom(key, 0);
    if s == 15 then t else Replaced(t, h, t.At(h).Store(s, value))
  }

  lemma PutPlaced(t: Index, h: nat, s: nat, p: KV)
    requires t.Inv() && h == t.Hash(p.key) && s < 15
    ensures var c := t.At(h).Put(s, p);
      forall j: nat :: j < 15 && c.live[j] ==> c.slot[j].key % t.Period(h) == h % t.Period(h)
  {
    KeyHome(t, p.key);
    var c := t.At(h).Put(s, p);
    forall j: nat | j < 15 && c.live[j]
      ensures c.slot[j].key % t.Period(h) == h % t.Period(h)
    {
      assert t.InPlace(h, j);
    }
  }

  lemma InsertIntoRoom(r: Index, key: uint64, value: uint64)
    requires r.Inv() && !r.At(r.Hash(key)).Full() && r.Lookup(key) == None
    ensures var h := r.Hash(key); var c := r.At(h).Put(r.At(h).FreeFrom(0), KV(key, value));
      && Replaced(r, h, c).Inv()
      && (forall k: uint64 :: Replaced(r, h, c).Lookup(k) == if k == key then Some(value) else r.Lookup(k))
  {
    var h := r.Hash(key);
    var s := r.At(h).FreeFrom(0);
    assert s < 15;
    PutLookup(r.At(h), s, KV(key, value));
    PutPlaced(r, h, s, KV(key, value));
    ReplacedKeeps(r, h, r.At(h).Put(s, KV(key, value)));
  }

  lemma InsertKeeps(t: Index, key: uint64, value: uint64)
    requires t.Inv()
    ensures Insert(t, key, value).Inv()
    ensures forall k: uint64 ::
      Insert(t, key, value).Lookup(k) == if k == key && t.Lookup(key) == None then Some(value) else t.Lookup(k)
  {
    if t.Lookup(key) == None {
      InsertIntoRoom(MakeRoom(t, key), key, value);
    }
  }

  lemma RemoveKeeps(t: Index, key: uint64)
    requires t.Inv()
    ensures Remove(t, key).Inv()
    ensures forall k: uint64 :: Remove(t, key).Lookup(k) == if k == key then None else t.Lookup(k)
    ensures t.Lookup(key) == None ==> Remove(t, key) == t
  {
    var h := t.Hash(key);
    var s := t.At(h).FindFrom(key, 0);
    if s < 15 {
      DropLookup(t.At(h), s);
      forall j: nat | j < 15 && t.At(h).Drop(s).live[j]
        ensures t.At(h).slot[j].key % t.Period(h) == h % t.Period(h)
      {
        assert t.InPlace(h, j);
      }
      ReplacedKeeps(t, h, t.At(h).Drop(s));
    }
  }

  lemma UpdateKeeps(t: Index, key: uint64, value: uint64)
    requires t.Inv()
    ensures Update(t, key, value).Inv()
    ensures forall k: uint64 ::
      Update(t, key, value).Lookup(k) == if k == key && t.Lookup(key).Some? then Some(value) else t.Lookup(k)
    ensures t.Lookup(key) == None ==> Update(t, key, value) == t
  {
    var h := t.Hash(key);
    var s := t.At(h).FindFrom(key, 0);
    if s < 15 {
      StoreLookup(t.At(h), s, value);
      forall j: nat | j < 15 && t.At(h).live[j]
        ensures t.At(h).Store(s, value).slot[j].key % t.Period(h) == h % t.Period(h)
      {
        assert t.InPlace(h, j);
      }
      ReplacedKeeps(t, h, t.At(h).Store(s, value));
    }
  }

  // ----- The fresh table -----

  /** An empty bucket of local depth 1. */
  ghost function FirstVal(): BucketVal {
    BucketVal(1, seq(16, i => false), seq(15, i => KV(0, 0)))
  }

  /** Sixteen buckets, the first n of them taken by the fresh directory. */
  ghost function FreshMem(n: nat): (m: seq<BucketVal>)
    ensures |m| == 16
    ensures forall k :: 0 <= k < 16 ==> m[k] == if k < n then FirstVal() else Blank()
  {
    seq(16, k => if k < n then FirstVal() else Blank())
  }

  ghost function Fresh(): Index {
    Index(1, [0, 1], FreshMem(2), 2)
  }

  lemma FreshShape()
    ensures Fresh().Shape()
    ensures |Fresh().ids| == 2 && Fresh().ids[0] == 0 && Fresh().ids[1] == 1
    ensures Fresh().At(0).depth == 1 && Fresh().At(1).depth == 1
    ensures forall k: nat, s: nat :: k < 16 && s < 15 ==> !Fresh().mem[k].live[s]
  {
    assert Pow2(1) == 2;
  }

  lemma FreshConsistent()
    ensures Fresh().Inv()
    ensures forall i: nat, s: nat :: i < |Fresh().ids| && s < 15 ==> !Fresh().At(i).live[s]
  {
    var t := Fresh();
    FreshShape();
    assert Pow2(1) == 2;
    forall i: nat, j: nat | i < 2 && j < 2
      ensures t.ids[i] == t.ids[j] <==> i % t.Period(i) == j % t.Period(i)
    {
      assert t.Period(i) == 2 && t.ids[i] == i && t.ids[j] == j;
    }
    forall k: nat | k < 2
      ensures k in t.ids
    {
      assert t.ids[k] == k;
    }
  }

  lemma FreshInv()
    ensures Fresh().Inv()
    ensures forall key: uint64 :: Fresh().Lookup(key) == None
  {
    var t := Fresh();
    FreshConsistent();
    forall key: uint64
      ensures t.Lookup(key) == None
    {
      LookupMiss(t.At(t.Hash(key)), key);
    }
  }

  // ----- Whole runs -----

  datatype Op =
    | DoInsert(key: uint64, value: uint64)
    | DoRemove(key: uint64)
    | DoUpdate(key: uint64, value: uint64)
    | DoSearch(key: uint64)

  /** Return code, and the value a successful search stores in its reference argument. */
  datatype Reply = Reply(code: int, found: Option<uint64>)

  ghost function Apply(t: Index, op: Op): Index
    requires t.Inv()
  {
    match op
    case DoInsert(k, v) => Insert(t, k, v)
    case DoRemove(k) => Remove(t, k)
    case DoUpdate(k, v) => Update(t, k, v)
    case DoSearch(k) => t
  }

  ghost function Answer(t: Index, op: Op): Reply
    requires t.Inv()
  {
    match op
    case DoInsert(k, v) => Reply(if t.Lookup(k).Some? then -1 else 0, None)
    case DoRemove(k) => Reply(if t.Lookup(k).Some? then 0 else -1, None)
    case DoUpdate(k, v) => Reply(if t.Lookup(k).Some? then 0 else -1, None)
    case DoSearch(k) => Reply(if t.Lookup(k).Some? then 0 else -1, t.Lookup(k))
  }

  /** The same operation on a plain map. */
  function MapStep(m: map<uint64, uint64>, op: Op): (map<uint64, uint64>, Reply) {
    match op
    case DoInsert(k, v) => if k in m then (m, Reply(-1, None)) else (m[k := v], Reply(0, None))
    case DoRemove(k) => if k in m then (m - {k}, Reply(0, None)) else (m, Reply(-1, None))
    case DoUpdate(k, v) => if k in m then (m[k := v], Reply(0, None)) else (m, Reply(-1, None))
    case DoSearch(k) => if k in m then (m, Reply(0, Some(m[k]))) else (m, Reply(-1, None))
  }

  function Get(m: map<uint64, uint64>, key: uint64): Option<uint64> {
    if key in m then Some(m[key]) else None
  }

  ghost predicate Represents(t: Index, m: map<uint64, uint64>)
    requires t.Shape()
  {
    forall key: uint64 :: t.Lookup(key) == Get(m, key)
  }

  lemma ApplyKeeps(t: Index, op: Op)
    requires t.Inv()
    ensures Apply(t, op).Inv()
  {
    match op
    case DoInsert(k, v) => InsertKeeps(t, k, v);
    case DoRemove(k) => RemoveKeeps(t, k);
    case DoUpdate(k, v) => UpdateKeeps(t, k, v);
    case DoSearch(k) =>
  }

  /** One operation answers like the map and leaves a table that represents the new map. */
  lemma StepRefines(t: Index, m: map<uint64, uint64>, op: Op)
    requires t.Inv() && Represents(t, m)
    ensures Apply(t, op).Inv() && Represents(Apply(t, op), MapStep(m, op).0)
    ensures Answer(t, op) == MapStep(m, op).1
  {
    ApplyKeeps(t, op);
    assert t.Lookup(op.key) == Get(m, op.key);
    forall key: uint64
      ensures Apply(t, op).Lookup(key) == Get(MapStep(m, op).0, key)
    {
      ApplyLookup(t, op, key);
      MapStepGet(m, op, key);
    }
  }

  ghost function Expected(op: Op, key: uint64, mine: Option<uint64>, target: Option<uint64>): Option<uint64> {
    if key != op.key then mine
    else
      match op
      case DoInsert(k, v) => if target == None then Some(v) else target
      case DoRemove(k) => None
      case DoUpdate(k, v) => if target.Some? then Some(v) else None
      case DoSearch(k) => target
  }

  lemma ApplyLookup(t: Index, op: Op, key: uint64)
    requires t.Inv() && Apply(t, op).Inv()
    ensures Apply(t, op).Lookup(key) == Expected(op, key, t.Lookup(key), t.Lookup(op.key))
  {
    hide Insert, Remove, Update, Index.Lookup;
    match op
    case DoInsert(k, v) => InsertKeeps(t, k, v);
    case DoRemove(k) => RemoveKeeps(t, k);
    case DoUpdate(k, v) => UpdateKeeps(t, k, v);
    case DoSearch(k) =>
  }

  lemma MapStepGet(m: map<uint64, uint64>, op: Op, key: uint64)
    ensures Get(MapStep(m, op).0, key) == Expected(op, key, Get(m, key), Get(m, op.key))
  {
  }

  /** The state after a sequence of operations. */
  ghost function Run(t: Index, ops: seq<Op>): (r: Index)
    requires t.Inv()
    ensures r.Inv()
    decreases |ops|
  {
    if ops == [] then t
    else
      ApplyKeeps(t, ops[0]);
      Run(Apply(t, ops[0]), ops[1..])
  }

  ghost function Replies(t: Index, ops: seq<Op>): seq<Reply>
    requires t.Inv()
    decreases |ops|
  {
    if ops == [] then []
    else
      ApplyKeeps(t, ops[0]);
      [Answer(t, ops[0])] + Replies(Apply(t, ops[0]), ops[1..])
  }

  function MapRun(m: map<uint64, uint64>, ops: seq<Op>): map<uint64, uint64>
    decreases |ops|
  {
    if ops == [] then m else MapRun(MapStep(m, ops[0]).0, ops[1..])
  }

  function MapReplies(m: map<uint64, uint64>, ops: seq<Op>): seq<Reply>
    decreases |ops|
  {
    if ops == [] then [] else [MapStep(m, ops[0]).1] + MapReplies(MapStep(m, ops[0]).0, ops[1..])
  }

  lemma {:induction false} RunRefines(t: Index, m: map<uint64, uint64>, ops: seq<Op>)
    requires t.Inv() && Represents(t, m)
    ensures Represents(Run(t, ops), MapRun(m, ops))
    ensures Replies(t, ops) == MapReplies(m, ops)
    decreases |ops|
  {
    if ops == [] {
    } else {
      StepRefines(t, m, ops[0]);
      RunRefines(Apply(t, ops[0]), MapStep(m, ops[0]).0, ops[1..]);
    }
  }

  /** Every run from the fresh table answers like a plain map, through any number of splits
      and doublings, and ends in a state that satisfies the directory invariant. */
  lemma TableIsMap(ops: seq<Op>)
    ensures Fresh().Inv()
    ensures Replies(Fresh(), ops) == MapReplies(map[], ops)
    ensures Run(Fresh(), ops).Inv() && Represents(Run(Fresh(), ops), MapRun(map[], ops))
  {
    FreshInv();
    RunRefines(Fresh(), map[], ops);
  }

  // ----- Runs within 32-bit ints -----

  lemma ApplyDeepens(t: Index, op: Op)
    requires t.Inv()
    ensures t.g <= Apply(t, op).g
  {
    hide Index.Inv, Index.Lookup;
  }

  lemma {:induction false} RunDeepens(t: Index, ops: seq<Op>)
    requires t.Inv()
    ensures t.g <= Run(t, ops).g
    decreases |ops|
  {
    if ops == [] {
    } else {
      ApplyKeeps(t, ops[0]);
      ApplyDeepens(t, ops[0]);
      RunDeepens(Apply(t, ops[0]), ops[1..]);
    }
  }

  lemma {:induction false} RunInTwo(t: Index, a: seq<Op>, b: seq<Op>)
    requires t.Inv()
    ensures Run(t, a + b) == Run(Run(t, a), b)
    decreases |a|
  {
    hide Apply, Index.Inv;
    if a == [] {
      assert a + b == b;
    } else {
      ApplyKeeps(t, a[0]);
      RunInTwo(Apply(t, a[0]), a[1..], b);
      assert (a + b)[0] == a[0] && (a + b)[1..] == a[1..] + b;
    }
  }

  /** The hash expression and the shifts by local depths are those of the source over 32-bit ints. */
  ghost predicate WithinInt(t: Index) {
    && t.Shape() && t.g <= 30
    && (forall key: uint64 :: t.Hash(key) == And(key, IntMask(t.g)))
    && (forall i: nat :: i < |t.ids| ==> Int32(t.Period(i)) == t.Period(i))
  }

  lemma ShallowIsWithinInt(t: Index)
    requires t.Inv() && t.g <= 30
    ensures WithinInt(t)
  {
    forall key: uint64
      ensures t.Hash(key) == And(key, IntMask(t.g))
    {
      AndMask(key, t.g);
      MaskInInt(t.g);
    }
    forall i: nat | i < |t.ids|
      ensures Int32(t.Period(i)) == t.Period(i)
    {
      assert t.At(i).depth <= t.g;
      ShiftInInt(t.At(i).depth);
    }
  }

  /** A turn of the split loop stays within the depth at which the loop ends, also with the local depth
      that it raises. */
  lemma TurnWithinInt(t: Index, key: uint64)
    requires t.Inv() && t.At(t.Hash(key)).Full()
    ensures t.Split(t.Hash(key)).Inv()
    ensures t.At(t.Hash(key)).depth + 1 <= t.Split(t.Hash(key)).g <= MakeRoom(t, key).g
  {
    var d := t.Split(t.Hash(key));
    SplitDeepens(t, key);
    assert d.At(d.Hash(key)).depth <= d.g;
    assert MakeRoom(t, key) == MakeRoom(d, key) by {
      FullBucketDepth(t, t.Hash(key));
    }
  }

  lemma PrefixWithinInt(ops: seq<Op>, i: nat)
    requires Fresh().Inv() && i <= |ops| && Run(Fresh(), ops).g <= 30
    ensures WithinInt(Run(Fresh(), ops[..i]))
  {
    hide WithinInt, Run, Fresh, Index.Inv;
    var a, b := ops[..i], ops[i..];
    assert ops == a + b;
    RunInTwo(Fresh(), a, b);
    RunDeepens(Run(Fresh(), a), b);
    ShallowIsWithinInt(Run(Fresh(), a));
  }

  /** A run that ends with a global depth of at most 30 answers like a plain map with the expressions
      of the source as they stand: no state on the way leaves the range of 32-bit ints. */
  lemma TableIsMapWithinInt(ops: seq<Op>)
    ensures Fresh().Inv() && (Run(Fresh(), ops).g <= 30 ==>
      && Replies(Fresh(), ops) == MapReplies(map[], ops)
      && Represents(Run(Fresh(), ops), MapRun(map[], ops))
      && forall i {:trigger ops[..i]} :: 0 <= i <= |ops| ==> WithinInt(Run(Fresh(), ops[..i])))
  {
    hide Represents, WithinInt, Run, Replies, MapReplies, Fresh, Index.Inv;
    TableIsMap(ops);
    forall i | 0 <= i <= |ops| && Run(Fresh(), ops).g <= 30
      ensures WithinInt(Run(Fresh(), ops[..i]))
    {
      PrefixWithinInt(ops, i);
    }
  }

  /** The live slots are the map: each live slot is the answer for its key, and each answer
      comes from exactly one live slot of one bucket. */
  lemma LiveSlotsAreTheMap(t: Index, m: map<uint64, uint64>)
    requires t.Inv() && Represents(t, m)
    ensures forall k: nat, s: nat :: k < t.next && s < 15 && t.mem[k].live[s] ==>
      t.mem[k].slot[s].key in m && m[t.mem[k].slot[s].key] == t.mem[k].slot[s].value
    ensures forall k: nat, s: nat, k': nat, s': nat ::
      (&& k < t.next && s < 15 && t.mem[k].live[s]
       && k' < t.next && s' < 15 && t.mem[k'].live[s']
       && t.mem[k].slot[s].key == t.mem[k'].slot[s'].key) ==> k == k' && s == s'
    ensures forall key: uint64 :: key in m ==>
      exists k: nat, s: nat :: k < t.next && s < 15 && t.mem[k].live[s] && t.mem[k].slot[s] == KV(key, m[key])
  {
    forall k: nat, s: nat | k < t.next && s < 15 && t.mem[k].live[s]
      ensures t.ids[t.Hash(t.mem[k].slot[s].key)] == k
      ensures t.Lookup(t.mem[k].slot[s].key) == Some(t.mem[k].slot[s].value)
    {
      assert k in t.ids;
      var i :| 0 <= i < |t.ids| && t.ids[i] == k;
      HomeOfKey(t, i, s);
      LookupHit(t.mem[k], t.mem[k].slot[s].key, s);
    }
    forall key: uint64 | key in m
      ensures exists k: nat, s: nat :: k < t.next && s < 15 && t.mem[k].live[s] && t.mem[k].slot[s] == KV(key, m[key])
    {
      assert t.Lookup(key) == Some(m[key]);
      var k := t.ids[t.Hash(key)];
      var s := t.mem[k].FindFrom(key, 0);
      assert t.mem[k].slot[s] == KV(key, m[key]);
    }
  }

  // ----- Sizes -----

  /** A bucket of local depth l is shared by exactly 2^(g-l) directory entries. */
  lemma EntriesOfBucket(t: Index, b: nat)
    requires t.Inv() && b < |t.ids|
    ensures t.At(b).depth <= t.g
    ensures multiset(t.ids)[t.ids[b]] == Pow2(t.g - t.At(b).depth)
  {
    assert 1 <= t.At(b).depth <= t.g;
    var l := t.At(b).depth;
    Pow2Add(t.g - l, l);
    CountClassMultiple(Pow2(t.g - l), Pow2(l), b % Pow2(l));
    SharedIsClass(t, b, |t.ids|);
    SharedIsMultiplicity(t.ids, |t.ids|, t.ids[b]);
    assert t.ids[..|t.ids|] == t.ids;
  }

  lemma {:induction false} SharedIsMultiplicity(ids: seq<nat>, n: nat, id: nat)
    requires n <= |ids|
    ensures CountShared(ids, n, id) == multiset(ids[..n])[id]
  {
    if n == 0 {
    } else {
      SharedIsMultiplicity(ids, n - 1, id);
      assert ids[..n] == ids[..n - 1] + [ids[n - 1]];
    }
  }

  ghost function CountShared(ids: seq<nat>, n: nat, id: nat): nat
    requires n <= |ids|
  {
    if n == 0 then 0 else CountShared(ids, n - 1, id) + (if ids[n - 1] == id then 1 else 0)
  }

  lemma {:induction false} SharedIsClass(t: Index, b: nat, n: nat)
    requires t.Inv() && b < |t.ids| && n <= |t.ids|
    ensures CountShared(t.ids, n, t.ids[b]) == CountClass(n, t.Period(b), b % t.Period(b))
  {
    if n == 0 {
    } else {
      SharedIsClass(t, b, n - 1);
      assert t.ids[b] == t.ids[n - 1] <==> b % t.Period(b) == (n - 1) % t.Period(b);
    }
  }
}
