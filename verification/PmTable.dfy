/** The hash table object: directory, catalog files, data pages, free list and address maps,
    updated in place.  Directory entries share bucket objects.  Every public method is proved
    against the step functions of the value models. */
module PmTable {
  import opened BitOps
  import opened Bitmaps
  import opened Buckets
  import opened HashIndex
  import opened HashRuns
  import opened PageStore
  import opened PageLayout
  import opened BucketObject

  ghost predicate Extends(a: seq<Bucket>, b: seq<Bucket>) {
    |b| <= |a| && forall k {:trigger a[k]} {:trigger b[k]} :: 0 <= k < |b| ==> a[k] == b[k]
  }

  ghost predicate Distinct(all: seq<Bucket>) {
    forall i, j :: 0 <= i < j < |all| ==> all[i] != all[j]
  }

  /** Bucket number k, as the address maps know it. */
  ghost function Entry(all: seq<Bucket>, k: nat): Bucket
    requires k < |all|
  {
    all[k]
  }

  /** The two address maps cover exactly the given buckets, numbered in order. */
  ghost predicate Registered(v: map<Bucket, PmAddress>, p: map<PmAddress, Bucket>, all: seq<Bucket>) {
    && (forall k: nat {:trigger Entry(all, k)} :: k < |all| ==>
          && Entry(all, k) in v && v[Entry(all, k)] == Addr(k)
          && Addr(k) in p && p[Addr(k)] == Entry(all, k))
    && (forall b {:trigger b in v} :: b in v ==>
          exists k: nat {:trigger Entry(all, k)} :: k < |all| && b == Entry(all, k))
    && (forall a {:trigger a in p} :: a in p ==>
          exists k: nat {:trigger Entry(all, k)} :: k < |all| && p[a] == Entry(all, k) && a == Addr(k))
  }

  /** The two address maps are inverse to each other. */
  lemma MapsInverse(v: map<Bucket, PmAddress>, p: map<PmAddress, Bucket>, all: seq<Bucket>)
    requires Registered(v, p, all)
    ensures forall b :: b in v ==> v[b] in p && p[v[b]] == b
    ensures forall a :: a in p ==> p[a] in v && v[p[a]] == a
  {
    forall a | a in p
      ensures p[a] in v && v[p[a]] == a
    {
      var k: nat :| k < |all| && p[a] == Entry(all, k) && a == Addr(k);
    }
  }

  lemma InBoth(v: map<Bucket, PmAddress>, p: map<PmAddress, Bucket>, all: seq<Bucket>, b: Bucket)
    requires Registered(v, p, all)
    ensures b in v <==> b in all
  {
    if b in v {
      var k: nat :| k < |all| && b == Entry(all, k);
    }
    if b in all {
      var k :| 0 <= k < |all| && all[k] == b;
      assert Entry(all, k) == b;
    }
  }

  lemma RegisterAddress(v: map<Bucket, PmAddress>, p: map<PmAddress, Bucket>, all: seq<Bucket>, b: Bucket)
    requires Registered(v, p, all)
    ensures var all', p' := all + [b], p[Addr(|all|) := b];
      forall a {:trigger a in p'} :: a in p' ==>
        exists k: nat {:trigger Entry(all', k)} :: k < |all'| && p'[a] == Entry(all', k) && a == Addr(k)
  {
    var all', p' := all + [b], p[Addr(|all|) := b];
    forall a | a in p'
      ensures exists k: nat :: k < |all'| && p'[a] == Entry(all', k) && a == Addr(k)
    {
      if a == Addr(|all|) {
        assert Entry(all', |all|) == b;
      } else {
        var k: nat :| k < |all| && p[a] == Entry(all, k) && a == Addr(k);
        assert Entry(all', k) == p'[a];
      }
    }
  }

  lemma RegisterStep(v: map<Bucket, PmAddress>, p: map<PmAddress, Bucket>, all: seq<Bucket>, b: Bucket)
    requires Registered(v, p, all) && forall k :: 0 <= k < |all| ==> all[k] != b
    ensures Registered(v[b := Addr(|all|)], p[Addr(|all|) := b], all + [b])
  {
    var all', v', p' := all + [b], v[b := Addr(|all|)], p[Addr(|all|) := b];
    AddrInverse(|all|);
    forall k: nat | k < |all'|
      ensures Entry(all', k) in v' && v'[Entry(all', k)] == Addr(k) && Addr(k) in p' && p'[Addr(k)] == Entry(all', k)
    {
      AddrInverse(k);
      if k < |all| {
        assert Entry(all', k) == Entry(all, k);
      }
    }
    forall c | c in v'
      ensures exists k: nat :: k < |all'| && c == Entry(all', k)
    {
      if c == b {
        assert Entry(all', |all|) == b;
      } else {
        var k: nat :| k < |all| && c == Entry(all, k);
        assert Entry(all', k) == c;
      }
    }
    RegisterAddress(v, p, all, b);
  }

  lemma RegisterNext(v: map<Bucket, PmAddress>, p: map<PmAddress, Bucket>, all: seq<Bucket>, n: nat)
    requires n < |all| && Registered(v, p, all[..n]) && Distinct(all)
    ensures Registered(v[all[n] := Addr(n)], p[Addr(n) := all[n]], all[..n + 1])
  {
    RegisterStep(v, p, all[..n], all[n]);
    assert all[..n] + [all[n]] == all[..n + 1];
  }

  lemma NothingRegistered(v: map<Bucket, PmAddress>, p: map<PmAddress, Bucket>, all: seq<Bucket>)
    requires v == map[] && p == map[] && all == []
    ensures Registered(v, p, all) && Distinct(all)
  {
  }

  lemma {:induction false} ElementCount(all: seq<Bucket>)
    requires Distinct(all)
    ensures |set b | b in all| == |all|
    decreases |all|
  {
    if all == [] {
    } else {
      var n := |all| - 1;
      ElementCount(all[..n]);
      assert all == all[..n] + [all[n]];
      assert (set b | b in all) == (set b | b in all[..n]) + {all[n]};
    }
  }

  /** As many buckets are registered as there are in the sequence. */
  lemma RegisteredCount(v: map<Bucket, PmAddress>, p: map<PmAddress, Bucket>, all: seq<Bucket>)
    requires Registered(v, p, all) && Distinct(all)
    ensures |v| == |all|
  {
    forall b
      ensures b in v <==> b in all
    {
      InBoth(v, p, all, b);
    }
    ElementCount(all);
    assert v.Keys == set b | b in all;
  }

  lemma AddrOf(fid: nat, j: nat)
    requires j < 16
    ensures Addr(16 * fid + j) == PmAddress(fid, 2 + j * 255)
  {
  }

  lemma SliceAppend(a: seq<Bucket>, b: seq<Bucket>, n: nat)
    requires n <= |a|
    ensures (a + b)[n..] == a[n..] + b
  {
  }

  lemma DistinctAppend(a: seq<Bucket>, b: seq<Bucket>)
    requires Distinct(a) && Distinct(b)
    requires forall i, k :: 0 <= i < |a| && 0 <= k < |b| ==> a[i] != b[k]
    ensures Distinct(a + b)
  {
  }

  lemma HeldCopy(pages: seq<DataPage>, k: nat, b: Bucket)
    requires Pages(pages) && k < 16 * |pages|
    ensures Copies(pages)[k] == MirrorOf(b.Val()) <==>
      CopyAt(pages, k, PageBucket(b.bitmap0, b.bitmap1, b.slot))
  {
    var c := pages[k / 16].pageBucket[k % 16];
    assert Copies(pages)[k] == CopyVal(c);
    if Bits(c.bitmap0, c.bitmap1) == Bits(b.bitmap0, b.bitmap1) {
      BitsInjective(c.bitmap0, c.bitmap1, b.bitmap0, b.bitmap1);
    }
  }

  /** Cutting a sequence of different buckets in two leaves nothing out and nothing in both parts. */
  lemma DistinctParts(all: seq<Bucket>, n: nat)
    requires Distinct(all) && n <= |all|
    ensures Distinct(all[n..])
    ensures forall b :: b in all <==> b in all[..n] || b in all[n..]
    ensures forall b :: b in all[n..] ==> b !in all[..n]
  {
    assert all == all[..n] + all[n..];
  }

  class PmEHash {
    // metadata
    var maxFileId: nat
    var catalogSize: nat
    var globalDepth: nat
    // catalog
    var phys: array<PmAddress>
    var virt: array<Bucket>
    var catalogFiles: seq<CatalogPage>
    // pages and their slots
    var pages: seq<DataPage>
    var freeList: seq<Bucket>
    var vAddr2pmAddr: map<Bucket, PmAddress>
    var pmAddr2vAddr: map<PmAddress, Bucket>
    // every bucket ever created, in order; how many of them are in use; their values;
    // and the number of the bucket behind each directory entry
    ghost var all: seq<Bucket>
    ghost var next: nat
    ghost var mem: seq<BucketVal>
    ghost var ids: seq<nat>

    // ----- Views -----

    ghost function TheIndex(): Index
      reads this`globalDepth, this`ids, this`mem, this`next
    {
      Index(globalDepth, ids, mem, next)
    }

    ghost predicate Laid()
      reads this`catalogFiles, this`pages
    {
      Pages(pages) && Catalogs(catalogFiles)
    }

    ghost function TheStore(): Store
      requires Laid()
      reads this`phys, phys, this`catalogFiles, this`pages
    {
      Store(phys[..], Items(catalogFiles), UsedBits(pages), Copies(pages))
    }

    // ----- Representation invariant -----

    /** Directory entry i points to bucket number ids[i]. */
    ghost predicate Linked()
      reads this`virt, this`phys, this`catalogSize, this`ids, this`all, virt
    {
      && virt.Length == phys.Length == catalogSize == |ids|
      && forall i {:trigger ids[i]} {:trigger virt[i]} :: 0 <= i < |ids| ==> ids[i] < |all| && virt[i] == all[ids[i]]
    }

    /** Bucket number k is a separate object and has value mem[k]. */
    ghost predicate Valued()
      reads this`all, this`mem, all
    {
      && Distinct(all)
      && |mem| == |all|
      && forall k {:trigger all[k]} {:trigger mem[k]} :: 0 <= k < |all| ==> all[k].Val() == mem[k]
    }

    /** The free list is the tail of the sequence of all buckets; there are sixteen per page. */
    ghost predicate Pooled()
      reads this`all, this`maxFileId, this`pages, this`next, this`freeList
    {
      && |all| == 16 * maxFileId && |pages| == maxFileId
      && next <= |all|
      && freeList == all[next..]
    }

    /** The two address maps cover exactly all buckets, in order. */
    ghost predicate Addressed()
      reads this`all, this`vAddr2pmAddr, this`pmAddr2vAddr
    {
      Registered(vAddr2pmAddr, pmAddr2vAddr, all)
    }

    ghost predicate Struct()
      reads this, virt, all
    {
      Laid() && Linked() && Valued() && Pooled() && Addressed()
    }

    ghost predicate Valid()
      reads this, virt, phys, all
    {
      Struct() && Sound(TheIndex(), TheStore())
    }

    /** The sequence of buckets has only been extended, with new objects. */
    twostate predicate AllGrown()
      reads this`all
    {
      Extends(all, old(all)) && forall k :: |old(all)| <= k < |all| ==> fresh(all[k])
    }

    // ----- Lookup -----

    /** `key & ((1 << global_depth) - 1)`, over 32-bit ints as far as they can hold the shifted one. */
    function HashFunc(key: uint64): (h: nat)
      reads this`globalDepth
      ensures h == key % Pow2(globalDepth)
      ensures globalDepth <= 30 ==> h == And(key, IntMask(globalDepth))
    {
      AndMask(key, globalDepth);
      if globalDepth <= 30 then
        MaskInInt(globalDepth);
        And(key, IntMask(globalDepth))
      else And(key, Pow2(globalDepth) - 1)
    }

    method Search(key: uint64, returnVal: uint64) returns (code: int, value: uint64)
      requires Valid()
      ensures code == if TheIndex().Lookup(key).Some? then 0 else -1
      ensures value == match TheIndex().Lookup(key) case Some(v) => v case None => returnVal
    {
      var b := HashFunc(key);
      assert b < |ids| && ids[b] < next;
      var s := virt[b].FindSlot(key);
      if s < 15 {
        return 0, virt[b].slot[s].value;
      }
      return -1, returnVal;
    }

    // ----- Writing to pages -----

    method AddressOf(b: Bucket, ghost k: nat) returns (address: PmAddress)
      requires Addressed() && k < |all| && all[k] == b
      ensures address == Addr(k)
    {
      assert b == Entry(all, k);
      address := vAddr2pmAddr[b];
    }

    /** File and slot index of bucket number k, from the address map. */
    method PlaceOf(b: Bucket, ghost k: nat) returns (fid: nat, index: nat)
      requires Distinct(all) && Pooled() && Addressed() && k < |all| && all[k] == b
      ensures fid == k / 16 < |pages| && index == k % 16
    {
      assert b == Entry(all, k);
      AddrInverse(k);
      var address := vAddr2pmAddr[b];
      fid, index := address.fileId, SlotIndex(address.offset);
    }

    /** Copies bucket number k to its page. */
    method CopyToPage(b: Bucket, ghost k: nat) returns (ghost c: PageBucket)
      requires Distinct(all) && Pooled() && Addressed() && Laid() && k < |all| && all[k] == b
      modifies this`pages
      ensures Laid() && CopyVal(c) == MirrorOf(b.Val()) && c == PageBucket(b.bitmap0, b.bitmap1, b.slot)
      ensures pages == Saved(old(pages), k, c)
    {
      var fid, index := PlaceOf(b, k);
      var copy := PageBucket(b.bitmap0, b.bitmap1, b.slot);
      pages := WithCopy(pages, fid, index, copy);
      c := copy;
    }

    /** `page_pointer_table[fid]->page_bucket->bitmap[..] &= ~(1 << ..)`. */
    method ClearHeadBit(fid: nat, ghost k: nat, s: nat)
      requires Laid() && fid == k / 16 < |pages| && s < 15
      modifies this`pages
      ensures Laid() && |pages| == |old(pages)|
      ensures Copies(pages) == HeadCleared(old(Copies(pages)), k, s)
      ensures UsedBits(pages) == old(UsedBits(pages))
      ensures HeadBitCleared(old(pages), pages, fid, s)
    {
      var head := pages[fid].pageBucket[0];
      assert CopyVal(head) == Copies(pages)[16 * fid];
      if s < 8 {
        ClearFirst(head.bitmap0, head.bitmap1, s);
        head := PageBucket(ClearByte(head.bitmap0, s), head.bitmap1, head.kv);
      } else {
        ClearSecond(head.bitmap0, head.bitmap1, s - 8);
        head := PageBucket(head.bitmap0, ClearByte(head.bitmap1, s - 8), head.kv);
      }
      WithCopyEffect(pages, fid, 0, head);
      pages := WithCopy(pages, fid, 0, head);
    }

    /** `page_pointer_table[fid]->page_bucket->inner_kv[j].value = value`; position 15 lies in the
        unused bytes behind the pairs. */
    method SetHeadValue(fid: nat, j: nat, value: uint64)
      requires Laid() && fid < |pages| && j < 16
      requires |Copies(pages)[16 * fid].kv| == 15
      modifies this`pages
      ensures Laid() && |pages| == |old(pages)|
      ensures Copies(pages) == HeadStored(old(Copies(pages)), 16 * fid + j, value)
      ensures UsedBits(pages) == old(UsedBits(pages))
      ensures HeadValueStored(old(pages), pages, fid, j, value)
    {
      var head := pages[fid].pageBucket[0];
      assert CopyVal(head) == Copies(pages)[16 * fid];
      if j < 15 {
        head := PageBucket(head.bitmap0, head.bitmap1, head.kv[j := KV(head.kv[j].key, value)]);
        WithCopyEffect(pages, fid, 0, head);
        pages := WithCopy(pages, fid, 0, head);
      }
    }

    /** Marks bucket number k as used and copies it to its page. */
    method WriteBucket(b: Bucket, ghost k: nat) returns (ghost c: PageBucket)
      requires Laid() && Distinct(all) && Pooled() && Addressed() && k < |all| && all[k] == b
      modifies this`pages
      ensures Laid() && CopyVal(c) == MirrorOf(b.Val()) && c == PageBucket(b.bitmap0, b.bitmap1, b.slot)
      ensures pages == Saved(Marked(old(pages), k), k, c)
    {
      var fid, index := PlaceOf(b, k);
      pages := WithBit(pages, fid, index);
      c := CopyToPage(b, k);
    }

    // ----- Changing one bucket -----

    method ClearSlot(b: Bucket, ghost k: nat, s: nat)
      requires Valued() && k < |all| && all[k] == b && mem[k].Wf() && s < 15
      modifies b, this`mem
      ensures Valued() && mem == old(mem)[k := old(mem)[k].Drop(s)]
    {
      b.Clear(s);
      mem := mem[k := mem[k].Drop(s)];
    }

    method SetDepth(b: Bucket, ghost k: nat, depth: nat)
      requires Valued() && k < |all| && all[k] == b
      modifies b, this`mem
      ensures Valued() && mem == old(mem)[k := BucketVal(depth, old(mem)[k].live, old(mem)[k].slot)]
    {
      b.localDepth := depth;
      mem := mem[k := BucketVal(depth, mem[k].live, mem[k].slot)];
    }

    method SetSlotValue(b: Bucket, ghost k: nat, s: nat, value: uint64)
      requires Valued() && k < |all| && all[k] == b && mem[k].Wf() && s < 15
      modifies b, this`mem
      ensures Valued() && mem == old(mem)[k := old(mem)[k].Store(s, value)]
    {
      b.SetValue(s, value);
      mem := mem[k := mem[k].Store(s, value)];
    }

    method EmptyBucket(b: Bucket, ghost k: nat, depth: nat)
      requires Valued() && k < |all| && all[k] == b && |mem[k].slot| == 15
      modifies b, this`mem
      ensures Valued() && mem == old(mem)[k := Filled(old(mem)[k], depth, [])]
    {
      b.bitmap0 := 0;
      b.bitmap1 := 0;
      b.localDepth := depth;
      FullValue();
      mem := mem[k := Filled(mem[k], depth, [])];
    }

    method AddTo(b: Bucket, ghost k: nat, p: KV)
      requires Valued() && k < |all| && all[k] == b && mem[k].Wf() && mem[k].FreeFrom(0) < 15
      modifies b, this`mem
      ensures Valued() && mem == old(mem)[k := old(mem)[k].Put(old(mem)[k].FreeFrom(0), p)]
    {
      ghost var s := b.Add(p);
      mem := mem[k := mem[k].Put(s, p)];
    }

    /** Adds a pair to a bucket that was emptied and has received the pairs ps so far. */
    method AddFilled(b: Bucket, ghost k: nat, p: KV, ghost base: BucketVal, ghost d: nat, ghost ps: seq<KV>)
      requires Valued() && k < |all| && all[k] == b
      requires |base.slot| == 15 && |ps| < 15 && mem[k] == Filled(base, d, ps)
      modifies b, this`mem
      ensures Valued() && mem == old(mem)[k := Filled(base, d, ps + [p])]
    {
      FilledFree(base, d, ps);
      FilledPut(base, d, ps, p);
      AddTo(b, k, p);
    }

    // ----- The allocator -----

    /** Sixteen bucket objects with empty bitmaps and zero slots. */
    static method NewBuckets() returns (bs: seq<Bucket>)
      ensures |bs| == 16 && Distinct(bs)
      ensures forall k :: 0 <= k < 16 ==> fresh(bs[k]) && bs[k].Val() == Blank()
    {
      bs := [];
      while |bs| < 16
        invariant |bs| <= 16 && Distinct(bs)
        invariant forall k :: 0 <= k < |bs| ==> fresh(bs[k]) && bs[k].Val() == Blank()
      {
        var b := new Bucket();
        bs := bs + [b];
      }
    }

    ghost method AppendBuckets(bs: seq<Bucket>)
      requires Valued() && |bs| == 16 && Distinct(bs)
      requires forall i, k :: 0 <= i < |all| && 0 <= k < 16 ==> all[i] != bs[k]
      requires forall k :: 0 <= k < 16 ==> bs[k].Val() == Blank()
      modifies this`all, this`mem
      ensures Valued() && all == old(all) + bs && mem == old(mem) + seq(16, i => Blank())
    {
      all := all + bs;
      mem := mem + seq(16, i => Blank());
    }

    /** Enters the addresses of sixteen new buckets into both maps. */
    method RegisterAddresses(newBucket: seq<Bucket>)
      requires Pooled() && Addressed() && |newBucket| == 16 && Distinct(all + newBucket)
      modifies this`vAddr2pmAddr, this`pmAddr2vAddr
      ensures Registered(vAddr2pmAddr, pmAddr2vAddr, all + newBucket)
    {
      hide Registered, Distinct;
      ghost var target := all + newBucket;
      assert target[..|all|] == all;
      var j := 0;
      while j < 16
        invariant 0 <= j <= 16
        invariant Registered(vAddr2pmAddr, pmAddr2vAddr, target[..|all| + j])
      {
        var address := PmAddress(maxFileId, 2 + j * 255);
        RegisterNext(vAddr2pmAddr, pmAddr2vAddr, target, |all| + j);
        AddrOf(maxFileId, j);
        vAddr2pmAddr := vAddr2pmAddr[newBucket[j] := address];
        pmAddr2vAddr := pmAddr2vAddr[address := newBucket[j]];
        j := j + 1;
      }
      assert target[..|all| + 16] == target;
    }

    /** Maps a new page and queues its sixteen buckets. */
    method AllocNewPage()
      requires Laid() && Valued() && Pooled() && Addressed()
      modifies this`pages, this`freeList, this`all, this`mem, this`vAddr2pmAddr, this`pmAddr2vAddr, this`maxFileId
      ensures Laid() && Valued() && Pooled() && Addressed()
      ensures AllGrown() && |all| == |old(all)| + 16
      ensures forall k :: |old(all)| <= k < |all| ==> fresh(all[k])
      ensures mem == old(mem) + seq(16, i => Blank())
      ensures pages == old(pages) + [ZeroPage()]
    {
      var newBucket := NewBuckets();
      DistinctAppend(all, newBucket);
      RegisterAddresses(newBucket);
      SliceAppend(all, newBucket, next);
      AppendBuckets(newBucket);
      pages := pages + [ZeroPage()];
      freeList := freeList + newBucket;
      maxFileId := maxFileId + 1;
    }

    method EnsureFree()
      requires Laid() && Valued() && Pooled() && Addressed()
      modifies this`pages, this`freeList, this`all, this`mem, this`vAddr2pmAddr, this`pmAddr2vAddr, this`maxFileId
      ensures Laid() && Valued() && Pooled() && Addressed()
      ensures AllGrown() && next < |all|
      ensures if next == |old(all)| then fresh(all[next]) else all == old(all) && freeList == old(freeList)
      ensures mem == GrownMem(next, old(mem))
      ensures pages == old(GrownPages(next, pages))
    {
      if freeList == [] {
        AllocNewPage();
      }
    }

    method TakeHead() returns (b: Bucket, address: PmAddress)
      requires Laid() && Valued() && Pooled() && Addressed() && next < |all|
      modifies this`pages, this`freeList, this`mem, this`next, all[next]
      ensures Laid() && Valued() && Pooled()
      ensures next == old(next) + 1 && b == all[old(next)] && address == Addr(old(next))
      ensures var m := old(mem); mem == m[old(next) := BucketVal(globalDepth, m[old(next)].live, m[old(next)].slot)]
      ensures pages == old(Marked(pages, next))
    {
      hide Registered, Distinct;
      b := freeList[0];
      SetDepth(b, next, globalDepth);
      var fid, index := PlaceOf(b, next);
      pages := WithBit(pages, fid, index);
      freeList := freeList[1..];
      address := AddressOf(b, next);
      next := next + 1;
    }

    /** Takes the first free bucket, after mapping a new page when there is none. */
    method GetFreeSlot() returns (b: Bucket, address: PmAddress)
      requires Laid() && Valued() && Pooled() && Addressed()
      modifies this`pages, this`freeList, this`all, this`mem, this`vAddr2pmAddr, this`pmAddr2vAddr, this`maxFileId
      modifies this`next, freeList
      ensures Laid() && Valued() && Pooled() && Addressed()
      ensures AllGrown() && old(next) < |all| && next == old(next) + 1
      ensures b == all[old(next)] && address == Addr(old(next))
      ensures fresh(b) || b in old(freeList)
      ensures var m := GrownMem(old(next), old(mem));
        |m| == |all| && mem == m[old(next) := BucketVal(globalDepth, m[old(next)].live, m[old(next)].slot)]
      ensures pages == old(Marked(GrownPages(next, pages), next))
    {
      hide Registered, Distinct, Marked, GrownPages;
      EnsureFree();
      b, address := TakeHead();
    }

    /** New buckets at the end of the sequence do not disturb the links. */
    lemma Relink(was: seq<Bucket>)
      requires virt.Length == phys.Length == catalogSize == |ids| && Extends(all, was)
      requires forall i {:trigger ids[i]} :: 0 <= i < |ids| ==> ids[i] < |was| && virt[i] == was[ids[i]]
      ensures Linked()
    {
    }

    // ----- A fresh table -----

    /** Takes the bucket of directory entry i of a fresh table. */
    method FirstBucket(i: nat)
      requires Laid() && Valued() && Pooled() && Addressed() && i < 2 && globalDepth == 1
      requires virt.Length == 2 && phys.Length == 2 && next == i && FreshSoFar(i, mem, pages, catalogFiles)
      modifies this`pages, this`freeList, this`all, this`mem, this`vAddr2pmAddr, this`pmAddr2vAddr, this`maxFileId
      modifies this`next, this`catalogFiles, freeList, phys, virt
      ensures Laid() && Valued() && Pooled() && Addressed() && all == old(all)
      ensures next == i + 1 && FreshSoFar(i + 1, mem, pages, catalogFiles)
      ensures freeList == old(freeList)[1..]
      ensures virt[i] == all[i] && virt[1 - i] == old(virt[1 - i])
      ensures phys[i] == Addr(i) && phys[1 - i] == old(phys[1 - i])
    {
      hide Registered, Distinct, FreshSoFar, Marked, GrownPages, WithItem, Addressed, Valued;
      FreshStep(i, mem, pages, catalogFiles);
      var nb, address := GetFreeSlot();
      EmptyBucket(nb, i, globalDepth);
      phys[i] := address;
      virt[i] := nb;
      catalogFiles := WithItem(catalogFiles, i, address);
    }

    /** The first page, and the first two of its buckets for the directory. */
    method FirstPage()
      requires Laid() && Valued() && Pooled() && Addressed() && globalDepth == 1 && maxFileId == next == 0
      requires virt.Length == 2 && phys.Length == 2 && catalogFiles == [ZeroCatalog()]
      modifies this`pages, this`freeList, this`all, this`mem, this`vAddr2pmAddr, this`pmAddr2vAddr, this`maxFileId
      modifies this`next, this`catalogFiles, phys, virt
      ensures Laid() && Valued() && Pooled() && Addressed() && |all| == 16
      ensures forall k :: 0 <= k < |all| ==> fresh(all[k])
      ensures next == 2 && FreshSoFar(2, mem, pages, catalogFiles)
      ensures virt[0] == all[0] && virt[1] == all[1] && phys[0] == Addr(0) && phys[1] == Addr(1)
    {
      hide Registered, Distinct, FreshSoFar;
      AllocNewPage();
      FreshPage();
      var i := 0;
      while i < 2
        invariant i <= 2 && next == i && Laid() && Valued() && Pooled() && Addressed() && |all| == 16
        invariant forall k :: 0 <= k < |all| ==> fresh(all[k])
        invariant FreshSoFar(i, mem, pages, catalogFiles)
        invariant forall k: nat :: k < i ==> virt[k] == all[k] && phys[k] == Addr(k)
      {
        FirstBucket(i);
        i := i + 1;
      }
    }

    /** A table whose two directory entries have their buckets is a fresh table. */
    lemma Opened()
      requires Laid() && Valued() && Pooled() && Addressed() && |all| == 16
      requires next == 2 && FreshSoFar(2, mem, pages, catalogFiles)
      requires catalogSize == 2 && globalDepth == 1 && ids == [0, 1] && virt.Length == 2 && phys.Length == 2
      requires virt[0] == all[0] && virt[1] == all[1] && phys[0] == Addr(0) && phys[1] == Addr(1)
      ensures Valid() && TheIndex() == Fresh() && TheStore() == FreshStore()
    {
      hide Registered, Distinct, FreshSoFar, Sound, Fresh, FreshStore;
      FreshReached(mem, pages, catalogFiles, phys[..]);
    }

    lemma NothingYet()
      requires pages == [] && freeList == [] && vAddr2pmAddr == map[] && pmAddr2vAddr == map[]
      requires all == [] && next == 0 && mem == [] && maxFileId == 0 && catalogFiles == [ZeroCatalog()]
      ensures Laid() && Valued() && Pooled() && Addressed()
    {
      NothingRegistered(vAddr2pmAddr, pmAddr2vAddr, all);
    }

    /** A table over fresh files: one page, one catalog file, and a directory of two empty buckets. */
    constructor ()
      ensures Valid()
      ensures fresh(virt) && fresh(phys) && forall k :: 0 <= k < |all| ==> fresh(all[k])
      ensures TheIndex() == Fresh() && TheStore() == FreshStore()
    {
      maxFileId, catalogSize, globalDepth := 0, 2, 1;
      pages, freeList, vAddr2pmAddr, pmAddr2vAddr := [], [], map[], map[];
      catalogFiles := [ZeroCatalog()];
      phys := new PmAddress[2](i => PmAddress(0, 0));
      var none := new Bucket();
      virt := new Bucket[2](i => none);
      all, next, mem, ids := [], 0, [], [0, 1];
      new;
      hide Registered, Distinct, FreshSoFar, Sound, Fresh, FreshStore, Laid, Valued, Pooled, Addressed, Linked;
      NothingYet();
      FirstPage();
      Opened();
    }

    /** A new table has one page, one catalog file and two directory entries; their buckets are the first
        two of the page, different, empty, of local depth 1, and marked in the bitmap of the page. */
    lemma FreshObject()
      requires Valid() && TheIndex() == Fresh() && TheStore() == FreshStore()
      ensures globalDepth == 1 && catalogSize == virt.Length == phys.Length == 2
      ensures maxFileId == |pages| == |catalogFiles| == 1 && |freeList| == 14
      ensures virt[0] != virt[1] && phys[0] == PmAddress(0, 2) && phys[1] == PmAddress(0, 257)
      ensures catalogFiles[0][0] == phys[0] && catalogFiles[0][1] == phys[1]
      ensures forall i :: 0 <= i < 2 ==> virt[i].localDepth == 1 && virt[i].bitmap0 == 0 && virt[i].bitmap1 == 0
      ensures forall j :: 0 <= j < 16 ==> (PageBits(pages[0].bitmap)[j] <==> j < 2)
    {
      FullValue();
      forall i | 0 <= i < 2
        ensures virt[i].localDepth == 1 && virt[i].bitmap0 == 0 && virt[i].bitmap1 == 0
      {
        assert virt[i].Val() == mem[i];
        BitsInjective(virt[i].bitmap0, virt[i].bitmap1, 0, 0);
      }
      assert TheStore().filed[0] == catalogFiles[0][0] && TheStore().filed[1] == catalogFiles[0][1];
      forall j | 0 <= j < 16
        ensures PageBits(pages[0].bitmap)[j] <==> j < 2
      {
        assert UsedBits(pages)[j] == PageBits(pages[0].bitmap)[j];
      }
    }

    // ----- Doubling the directory -----

    /** Copies an array to both halves of one of twice its length. */
    static method CopyTwice<T>(a: array<T>, b: array<T>)
      requires a != b && b.Length == 2 * a.Length
      modifies b
      ensures b[..] == a[..] + a[..]
    {
      var size := a.Length;
      var i := 0;
      while i < size
        invariant 0 <= i <= size
        invariant forall k :: 0 <= k < i ==> b[k] == a[k]
        invariant forall k :: size <= k < size + i ==> b[k] == a[k - size]
      {
        b[i] := a[i];
        b[size + i] := a[i];
        i := i + 1;
      }
    }

    /** The doubled arrays: position i and position i + catalog_size get the old entry i. */
    method DoubleArrays()
      requires Linked() && |ids| > 0
      modifies this`phys, this`virt, this`ids
      ensures fresh(phys) && fresh(virt)
      ensures phys.Length == virt.Length == |ids| == 2 * catalogSize
      ensures ids == old(ids) + old(ids)
      ensures forall i :: 0 <= i < |ids| ==> ids[i] < |all| && virt[i] == all[ids[i]]
      ensures phys[..] == old(phys[..]) + old(phys[..])
    {
      var newPhys := new PmAddress[2 * catalogSize](i => PmAddress(0, 0));
      var first := virt[0];
      var newVirt := new Bucket[2 * catalogSize](i => first);
      CopyTwice(phys, newPhys);
      CopyTwice(virt, newVirt);
      ghost var was := virt[..];
      assert forall k :: 0 <= k < |ids| ==> was[k] == all[ids[k]];
      phys, virt := newPhys, newVirt;
      assert virt[..] == was + was;
      assert forall k :: 0 <= k < virt.Length ==> virt[k] == (was + was)[k];
      ids := ids + ids;
    }

    /** Writes items i and i + size of the doubled array to the catalog files, mapping a new file
        at every 512th item; below 512 entries the single file stays in the table. */
    method WriteCatalog(size: nat)
      requires phys.Length == 2 * size && size > 0
      requires |catalogFiles| == FileCount(size)
      requires (size < 512 ==> 2 * size <= 512) && (size >= 512 ==> size % 512 == 0)
      modifies this`catalogFiles
      ensures Catalogs(catalogFiles) && Items(catalogFiles) == Refiled(phys[..])
      ensures |catalogFiles| == if phys.Length < 512 then 1 else phys.Length / 512
      ensures forall f: nat, q: nat {:trigger catalogFiles[f][q]} :: f < |catalogFiles| && q < 512 ==>
        catalogFiles[f][q] == if 512 * f + q < phys.Length then phys[512 * f + q] else PmAddress(0, 0)
    {
      hide Regime, Written;
      var files := catalogFiles;
      if size >= 512 {
        files := seq(size / 512 * 2, i => []);
      }
      NothingWritten(files, phys[..], size);
      var i := 0;
      while i < size
        invariant 0 <= i <= size
        invariant Regime(files, phys[..], size)
        invariant Written(files, phys[..], size, i, i)
      {
        WriteLow(files, phys[..], size, i, i);
        files := WriteItem(files, i, phys[i]);
        WriteHigh(files, phys[..], size, i + 1, i);
        files := WriteItem(files, size + i, phys[size + i]);
        i := i + 1;
      }
      AllWritten(files, phys[..], size);
      catalogFiles := files;
    }

    /** Doubles both catalog arrays and writes all catalog files anew. */
    method ExtendCatalog()
      requires Laid() && Linked() && |ids| == Pow2(globalDepth) && |catalogFiles| == FileCount(|ids|)
      modifies this`phys, this`virt, this`catalogFiles, this`catalogSize, this`globalDepth, this`ids
      ensures Laid() && Linked() && fresh(phys) && fresh(virt)
      ensures ids == old(ids) + old(ids) && globalDepth == old(globalDepth) + 1
      ensures phys[..] == old(phys[..]) + old(phys[..])
      ensures Items(catalogFiles) == Refiled(phys[..])
    {
      DoubleArrays();
      FilesCoverDirectory(globalDepth);
      WriteCatalog(catalogSize);
      catalogSize := catalogSize * 2;
      globalDepth := globalDepth + 1;
    }

    // ----- Splitting -----

    /** Finds the position that differs in bit l, and doubles the directory when that position lies
        outside it or does not share the bucket. */
    method FindTarget(b: nat, l: nat) returns (to: nat)
      requires Laid() && Linked() && |ids| == Pow2(globalDepth) && |catalogFiles| == FileCount(|ids|)
      requires l <= globalDepth && l < 64 && b < |ids| && b < 0x1_0000_0000_0000_0000
      requires l < globalDepth ==> Buddy(b, l) < |ids| && ids[Buddy(b, l)] == ids[b]
      modifies this`phys, this`virt, this`catalogFiles, this`catalogSize, this`globalDepth, this`ids
      ensures Laid() && Linked() && to == Buddy(b, l)
      ensures if l == old(globalDepth)
        then && fresh(phys) && fresh(virt)
             && ids == old(ids) + old(ids) && globalDepth == old(globalDepth) + 1
             && phys[..] == old(phys[..]) + old(phys[..])
             && Items(catalogFiles) == Refiled(phys[..])
        else unchanged(this)
    {
      Pow2Of64();
      SplitTarget(b, l, 64);
      to := FlipExpression(b, Pow2(l), 64);
      BuddyRange(b, l, globalDepth);
      if to >= virt.Length || virt[to] != virt[b] {
        ExtendCatalog();
      }
    }

    /** Empties the bucket, then makes sure the directory distinguishes the new bit. */
    method OpenSplit(b: nat, ghost l: nat) returns (ori: Bucket, kvs: seq<KV>, to: nat)
      requires Laid() && Linked() && Valued()
      requires b < |ids| && b < virt.Length && b < 0x1_0000_0000_0000_0000 && ids[b] < |mem|
      requires |ids| == Pow2(globalDepth) && |catalogFiles| == FileCount(|ids|)
      requires |mem[ids[b]].slot| == 15 && mem[ids[b]].depth == l && l <= globalDepth && l <= 60
      requires l < globalDepth ==> Buddy(b, l) < |ids| && ids[Buddy(b, l)] == ids[b]
      modifies this`mem, this`phys, this`virt, this`catalogFiles, this`catalogSize, this`globalDepth, this`ids, virt[b]
      ensures Laid() && Linked() && Valued()
      ensures virt == old(virt) || fresh(virt)
      ensures phys == old(phys) || fresh(phys)
      ensures ori == all[old(ids)[b]] && kvs == old(mem)[old(ids)[b]].slot && to == Buddy(b, l)
      ensures mem == old(mem)[old(ids)[b] := Filled(old(mem)[old(ids)[b]], l, [])]
      ensures globalDepth == OpenDepth(old(globalDepth), l) && ids == OpenIds(old(ids), old(globalDepth), l)
      ensures phys[..] == OpenAddresses(old(phys[..]), old(globalDepth), l)
      ensures Items(catalogFiles) == OpenItems(old(phys[..]), old(Items(catalogFiles)), old(globalDepth), l)
    {
      ori := virt[b];
      kvs := ori.slot;
      EmptyBucket(ori, ids[b], ori.localDepth);
      to := FindTarget(b, ori.localDepth);
    }

    method Deepen(ori: Bucket, nb: Bucket, ghost o: nat, ghost n: nat, ghost l: nat, ghost was: seq<BucketVal>)
      requires Valued() && o < n < |all| && all[o] == ori && all[n] == nb && n <= |was| && |was[o].slot| == 15
      requires n < |was| ==> |was[n].slot| == 15
      requires var c := GrownMem(n, was[o := Filled(was[o], l, [])]);
        exists d: nat :: mem == c[n := BucketVal(d, c[n].live, c[n].slot)]
      modifies ori, nb, this`mem
      ensures Valued() && mem == BegunMem(was, o, n, l)
    {
      GrownRewrite(was, n, o, Filled(was[o], l, []), Filled(was[o], l + 1, []));
      SetDepth(ori, o, ori.localDepth + 1);
      EmptyBucket(nb, n, ori.localDepth);
    }

    /** Takes a free bucket and gives both halves their new depth and empty bitmaps. */
    method NewHalf(ori: Bucket, ghost o: nat, ghost l: nat, ghost was: seq<BucketVal>)
        returns (nb: Bucket, address: PmAddress)
      requires Laid() && Linked() && Valued() && Pooled() && Addressed() && o < next && all[o] == ori
      requires |was| == |mem| && |was[o].slot| == 15 && mem == was[o := Filled(was[o], l, [])]
      requires next < |mem| ==> |mem[next].slot| == 15
      modifies this`pages, this`freeList, this`all, this`mem, this`vAddr2pmAddr, this`pmAddr2vAddr, this`maxFileId
      modifies this`next, freeList, ori
      ensures Laid() && Linked() && Valued() && Pooled() && Addressed()
      ensures AllGrown() && old(next) < |all| && next == old(next) + 1
      ensures nb == all[old(next)] && address == Addr(old(next))
      ensures fresh(nb) || nb in old(freeList)
      ensures mem == BegunMem(was, o, old(next), l)
      ensures pages == old(Marked(GrownPages(next, pages), next))
    {
      hide Addressed, Pooled, Marked, GrownPages, Laid;
      ghost var n, bs := next, all;
      nb, address := GetFreeSlot();
      Relink(bs);
      Deepen(ori, nb, o, n, l, was);
    }

    /** What a split needs to know about the structure, apart from its invariants. */
    ghost predicate Splittable(b: nat, l: nat)
      reads this`ids, this`mem, this`next, this`globalDepth, this`catalogFiles, this`virt
    {
      && b < |ids| && b < virt.Length && b < 0x1_0000_0000_0000_0000 && ids[b] < next <= |mem|
      && |ids| == Pow2(globalDepth) && |catalogFiles| == FileCount(|ids|)
      && |mem[ids[b]].slot| == 15 && mem[ids[b]].depth == l && l <= globalDepth && l <= 60
      && (l < globalDepth ==> Buddy(b, l) < |ids| && ids[Buddy(b, l)] == ids[b])
      && (next < |mem| ==> |mem[next].slot| == 15)
    }

    /** Empties the bucket, doubles the directory if needed, and takes a new bucket. */
    method BeginSplit(b: nat, ghost l: nat) returns (ori: Bucket, nb: Bucket, address: PmAddress, kvs: seq<KV>, to: nat)
      requires Struct() && Splittable(b, l)
      modifies this, virt[b], freeList
      ensures Struct()
      ensures virt == old(virt) || fresh(virt)
      ensures phys == old(phys) || fresh(phys)
      ensures AllGrown()
      ensures fresh(nb) || nb in old(freeList)
      ensures var o, n := old(ids)[b], old(next);
        && o < n < |all| && all[o] == ori && all[n] == nb && address == Addr(n)
        && ori == old(virt[b]) && kvs == old(mem)[o].slot && to == Buddy(b, l)
      ensures TheIndex() == old(BegunIndex(TheIndex(), b, l))
      ensures phys[..] == old(OpenAddresses(phys[..], globalDepth, l))
      ensures Items(catalogFiles) == old(OpenItems(phys[..], Items(catalogFiles), globalDepth, l))
      ensures pages == old(Marked(GrownPages(next, pages), next))
    {
      hide Registered, Filled, OpenIds, OpenAddresses, OpenItems, BegunMem, GrownPages, Marked, PmEHash.Laid;
      hide PmEHash.Valued, PmEHash.Pooled, PmEHash.Addressed;
      ghost var o := ids[b];
      ori, kvs, to := OpenSplit(b, l);
      nb, address := NewHalf(ori, o, l, old(mem));
    }

    /** Gives every entry of residue class yu to the new bucket, in the directory and on file. */
    method Redirect(nb: Bucket, ghost n: nat, address: PmAddress, m: nat, yu: nat)
      requires Laid() && Linked() && n < |all| && all[n] == nb && m > 0 && |ids| <= 512 * |catalogFiles|
      modifies virt, this`catalogFiles, this`ids
      ensures Laid() && Linked() && |catalogFiles| == |old(catalogFiles)|
      ensures ids == Redirected(old(ids), m, yu, n)
      ensures Items(catalogFiles) == RedirectedItems(old(Items(catalogFiles)), |ids|, m, yu, address)
      ensures forall i :: 0 <= i < virt.Length ==> virt[i] == if i % m == yu then nb else old(virt[i])
      ensures forall i: nat {:trigger Items(catalogFiles)[i]} :: i < virt.Length ==>
        Items(catalogFiles)[i] == if i % m == yu then address else old(Items(catalogFiles))[i]
    {
      ghost var items := Items(catalogFiles);
      var size := catalogSize;
      var i := 0;
      while i < size
        invariant 0 <= i <= size && Laid() && |catalogFiles| == |old(catalogFiles)| && ids == old(ids)
        invariant forall k {:trigger virt[k]} :: 0 <= k < size ==>
          virt[k] == if k < i && k % m == yu then nb else all[ids[k]]
        invariant Items(catalogFiles) == RedirectedItems(items, i, m, yu, address)
      {
        if i % m == yu {
          virt[i] := nb;
          WithItemEffect(catalogFiles, i, address);
          catalogFiles := WithItem(catalogFiles, i, address);
        }
        i := i + 1;
      }
      ids := Redirected(ids, m, yu, n);
    }

    /** Both buckets of a division are empty and have their new depth. */
    ghost predicate Emptied(v: Division, ori: Bucket, nb: Bucket)
      reads this`all, this`mem
    {
      && v.Wf() && v.o < |mem| && v.n < |mem|
      && v.o < |all| && v.n < |all| && all[v.o] == ori && all[v.n] == nb
      && mem[v.o] == Filled(v.was, v.depth, []) && mem[v.n] == Filled(v.spare, v.depth, [])
    }

    lemma ReachedBucket(key: uint64, ori: Bucket, nb: Bucket, v: Division)
      requires Linked() && Valued() && v.Wf() && v.o < |all| && v.n < |all| && all[v.o] == ori && all[v.n] == nb
      requires Reaches(ids, globalDepth, key, v)
      ensures var h := HashFunc(key);
        && h < virt.Length && (virt[h] == nb || virt[h] == ori)
        && (virt[h] == nb <==> key % v.Modulus() == v.leave) && (virt[h] != nb <==> key % v.Modulus() == v.stay)
    {
    }

    /** Hashes the saved pairs again: each goes to the first free slot of the bucket its key now reaches. */
    method Rehash(kvs: seq<KV>, ori: Bucket, nb: Bucket, ghost v: Division)
      requires Linked() && Valued() && |kvs| == 15 && Emptied(v, ori, nb)
      requires forall i: nat {:trigger kvs[i]} :: i < 15 ==> Reaches(ids, globalDepth, kvs[i].key, v)
      modifies ori, nb, this`mem
      ensures Valued() && mem == FinishedMem(old(mem), v, kvs)
    {
      hide Filled, Valued, Reaches;
      var i := 0;
      ghost var m := v.Modulus();
      ghost var po, pn: seq<KV> := [], [];
      while i < 15
        invariant 0 <= i <= 15 && Valued() && |mem| == |old(mem)|
        invariant po == Select(kvs[..i], m, v.stay) && pn == Select(kvs[..i], m, v.leave)
        invariant mem[v.o] == Filled(v.was, v.depth, po) && mem[v.n] == Filled(v.spare, v.depth, pn)
        invariant mem == old(mem)[v.o := mem[v.o]][v.n := mem[v.n]]
      {
        ReachedBucket(kvs[i].key, ori, nb, v);
        var h := HashFunc(kvs[i].key);
        SelectStep(kvs, i, m, v.stay);
        SelectStep(kvs, i, m, v.leave);
        if virt[h] == nb {
          AddFilled(virt[h], v.n, kvs[i], v.spare, v.depth, pn);
          pn := pn + [kvs[i]];
        } else {
          AddFilled(virt[h], v.o, kvs[i], v.was, v.depth, po);
          po := po + [kvs[i]];
        }
        i := i + 1;
      }
      assert kvs[..15] == kvs;
    }

    /** Redirects half of the entries to the new bucket and rehashes the saved pairs. */
    method Distribute(ori: Bucket, nb: Bucket, address: PmAddress, kvs: seq<KV>, to: nat, ghost v: Division)
      requires Laid() && Linked() && Valued() && to < |ids| <= 512 * |catalogFiles|
      requires |kvs| == 15 && Emptied(v, ori, nb) && to % v.Modulus() == v.leave
      requires forall i: nat {:trigger kvs[i]} :: i < 15 ==> Leads(ids, globalDepth, kvs[i].key, v)
      modifies virt, this`catalogFiles, this`ids, ori, nb, this`mem
      ensures Laid() && Linked() && Valued() && |catalogFiles| == |old(catalogFiles)| && |ids| == |old(ids)|
      ensures ids == Redirected(old(ids), v.Modulus(), v.leave, v.n)
      ensures Items(catalogFiles)[to] == address
      ensures Items(catalogFiles) == RedirectedItems(old(Items(catalogFiles)), |ids|, v.Modulus(), v.leave, address)
      ensures mem == FinishedMem(old(mem), v, kvs)
    {
      assert ori.localDepth == v.depth;
      var m := Pow2(ori.localDepth);
      Redirect(nb, v.n, address, m, to % m);
      Rehash(kvs, ori, nb, v);
    }

    /** Writes the address of the new bucket and both buckets to their files. */
    method WriteBack(ori: Bucket, nb: Bucket, ghost o: nat, ghost n: nat, address: PmAddress, to: nat)
        returns (ghost co: PageBucket, ghost cn: PageBucket)
      requires Laid() && Distinct(all) && Pooled() && Addressed()
      requires o < |all| && n < |all| && all[o] == ori && all[n] == nb && address == Addr(n)
      requires to < phys.Length && to < 512 * |catalogFiles| && Items(catalogFiles)[to] == address
      modifies this`pages, this`catalogFiles, phys
      ensures Laid() && |catalogFiles| == |old(catalogFiles)|
      ensures phys[..] == old(phys[..])[to := address]
      ensures Items(catalogFiles) == old(Items(catalogFiles))
      ensures CopyVal(co) == MirrorOf(ori.Val()) && CopyVal(cn) == MirrorOf(nb.Val())
      ensures co == PageBucket(ori.bitmap0, ori.bitmap1, ori.slot) && cn == PageBucket(nb.bitmap0, nb.bitmap1, nb.slot)
      ensures pages == SplitPages(old(pages), o, n, co, cn) && CopyAt(pages, o, co) && CopyAt(pages, n, cn)
    {
      ghost var before := pages;
      phys[to] := address;
      WithItemEffect(catalogFiles, to, address);
      catalogFiles := WithItem(catalogFiles, to, address);
      cn := WriteBucket(nb, n);
      co := WriteBucket(ori, o);
      SplitPagesCopies(before, o, n, co, cn);
    }

    /** Redirects, rehashes and writes both buckets back. */
    method FinishSplit(ori: Bucket, nb: Bucket, address: PmAddress, kvs: seq<KV>, to: nat, ghost v: Division)
        returns (ghost co: PageBucket, ghost cn: PageBucket)
      requires Struct() && to < |ids| <= 512 * |catalogFiles|
      requires |kvs| == 15 && Emptied(v, ori, nb) && address == Addr(v.n) && to % v.Modulus() == v.leave
      requires forall i: nat {:trigger kvs[i]} :: i < 15 ==> Leads(ids, globalDepth, kvs[i].key, v)
      modifies virt, phys, this`catalogFiles, this`pages, this`ids, ori, nb, this`mem
      ensures Struct()
      ensures TheIndex() == old(FinishedIndex(TheIndex(), v, kvs))
      ensures phys[..] == old(phys[..])[to := address]
      ensures Items(catalogFiles) == RedirectedItems(old(Items(catalogFiles)), |ids|, v.Modulus(), v.leave, address)
      ensures CopyVal(co) == MirrorOf(mem[v.o]) && CopyVal(cn) == MirrorOf(mem[v.n])
      ensures pages == SplitPages(old(pages), v.o, v.n, co, cn)
    {
      hide Registered, Distinct, Leads, Filled, RedirectedItems, Redirected, SplitPages, FinishedMem;
      Distribute(ori, nb, address, kvs, to, v);
      co, cn := WriteBack(ori, nb, v.o, v.n, address, to);
    }

    /** The catalog after a split of an index t with the given flat addresses and catalog items. */
    ghost predicate CatalogSplit(t: Index, a: seq<PmAddress>, items: seq<PmAddress>, b: nat, l: nat, v: Division)
      reads this`ids, this`phys, phys, this`catalogFiles, this`pages
    {
      && Laid() && Buddy(b, l) < |OpenAddresses(a, t.g, l)|
      && phys[..] == OpenAddresses(a, t.g, l)[Buddy(b, l) := Addr(v.n)]
      && Items(catalogFiles) == RedirectedItems(OpenItems(a, items, t.g, l), |ids|, v.Modulus(), v.leave, Addr(v.n))
    }

    /** The statements of a split. */
    method SplitSteps(b: nat, ghost l: nat, ghost v: Division) returns (ghost co: PageBucket, ghost cn: PageBucket)
      requires Struct() && Splittable(b, l) && SplitPlan(TheIndex(), TheStore(), b, l, v)
      modifies this, virt, phys, virt[b], freeList
      ensures Struct() && AllGrown()
      ensures virt == old(virt) || fresh(virt)
      ensures phys == old(phys) || fresh(phys)
      ensures TheIndex() == old(FinishedIndex(BegunIndex(TheIndex(), b, l), v, mem[v.o].slot))
      ensures CatalogSplit(old(TheIndex()), old(phys[..]), old(Items(catalogFiles)), b, l, v)
      ensures CopyVal(co) == MirrorOf(mem[v.o]) && CopyVal(cn) == MirrorOf(mem[v.n])
      ensures pages == SplitPages(old(Marked(GrownPages(next, pages), next)), v.o, v.n, co, cn)
    {
      hide Leads, FinishedIndex, Filled, GrownPages, Marked, SplitPages, Redirected, RedirectedItems;
      hide PmEHash.Addressed, PmEHash.Valued, DivisionOf, BegunIndex;
      BegunFacts(TheIndex(), b, l);
      var ori, nb, address, kvs, to := BeginSplit(b, l);
      co, cn := FinishSplit(ori, nb, address, kvs, to, v);
    }

    lemma FullIsSplittable(b: nat)
      requires Struct() && Sound(TheIndex(), TheStore()) && b < |ids| && b < virt.Length && TheIndex().At(b).Full()
      ensures Splittable(b, TheIndex().At(b).depth)
    {
      hide Registered, Distinct;
      SplitFacts(TheIndex(), TheStore(), b);
    }

    /** The steps of a split, taken from index t and the given pages and catalog, make up the split. */
    lemma SplitDone(t: Index, s: Store, b: nat, l: nat, v: Division, was: seq<DataPage>, co: PageBucket, cn: PageBucket)
      requires Sound(t, s) && b < |t.ids| && t.At(b).Full() && l == t.At(b).depth && v == DivisionOf(t, b, l)
      requires Pages(was) && t.next <= 16 * |was| && s.used == UsedBits(was) && s.mirror == Copies(was)
      requires v.Wf() && v.o < v.n && CatalogSplit(t, s.phys, s.filed, b, l, v)
      requires v.n < |mem| && |t.mem[v.o].slot| == 15
      requires TheIndex() == FinishedIndex(BegunIndex(t, b, l), v, t.mem[v.o].slot)
      requires CopyVal(co) == MirrorOf(mem[v.o]) && CopyVal(cn) == MirrorOf(mem[v.n])
      requires pages == SplitPages(Marked(GrownPages(t.next, was), t.next), v.o, v.n, co, cn)
      ensures Laid() && TheIndex() == t.Split(b) && TheStore() == Split(t, s, b)
    {
      hide Registered, Distinct, Leads, DivisionOf, FinishedIndex, GrownPages, Marked, SplitPages, Redirected;
      hide RedirectedItems, OpenItems, OpenAddresses, Index.Split, Split;
      SplitInHalves(t, s, b);
      SplitStoreInHalves(t, s, b);
      SplitPagesEffect(was, v.o, v.n, co, cn);
    }

    /** Splits a full bucket into two. */
    method SplitBucket(b: nat)
      requires Struct() && Sound(TheIndex(), TheStore()) && b < |ids| && TheIndex().At(b).Full()
      requires b < virt.Length
      modifies this, virt, phys, virt[b], freeList
      ensures Struct()
      ensures TheIndex() == old(TheIndex().Split(b))
      ensures TheStore() == old(Split(TheIndex(), TheStore(), b))
      ensures virt == old(virt) || fresh(virt)
      ensures phys == old(phys) || fresh(phys)
      ensures AllGrown()
    {
      hide Registered, Distinct, Leads, FinishedIndex, BegunIndex, GrownPages, Marked, SplitPages, PmEHash.CatalogSplit;
      ghost var t, s, was := TheIndex(), TheStore(), pages;
      ghost var l := t.At(b).depth;
      ghost var v := DivisionOf(t, b, l);
      FullIsSplittable(b);
      SplitPlanned(t, s, b);
      ghost var co, cn := SplitSteps(b, l, v);
      SplitDone(t, s, b, l, v, was, co, cn);
    }

    // ----- Removal and update -----

    /** Clears slot s of bucket k, and the bit of the same number in the head copy of the page. */
    method RemoveAt(b: Bucket, ghost k: nat, s: nat)
      requires Laid() && Valued() && Pooled() && Addressed()
      requires k < |all| && all[k] == b && mem[k].Wf() && s < 15
      modifies this`mem, this`pages, b
      ensures Laid() && Valued() && |pages| == |old(pages)|
      ensures mem == old(mem)[k := old(mem)[k].Drop(s)]
      ensures Copies(pages) == HeadCleared(old(Copies(pages)), k, s)
      ensures UsedBits(pages) == old(UsedBits(pages))
      ensures HeadBitCleared(old(pages), pages, k / 16, s)
    {
      hide Registered, Distinct, HeadCleared, HeadBitCleared;
      var fid, _ := PlaceOf(b, k);
      ClearSlot(b, k, s);
      ClearHeadBit(fid, k, s);
    }

    method RemoveFound(h: nat, key: uint64)
      requires Struct() && Sound(TheIndex(), TheStore())
      requires TheIndex().Lookup(key).Some? && h == TheIndex().Hash(key) && h < virt.Length
      modifies this`mem, this`pages, virt[h]
      ensures Laid() && Valued() && |pages| == |old(pages)|
      ensures TheIndex() == old(HashRuns.Remove(TheIndex(), key))
      ensures TheStore() == old(RemoveStore(TheIndex(), TheStore(), key))
      ensures Sound(TheIndex(), TheStore())
      ensures exists s: nat ::
        old(virt[h].Val().Wf() && virt[h].Val().Holds(s, key)) && HeadBitCleared(old(pages), pages, ids[h] / 16, s)
    {
      hide HeadBitCleared;
      ApplySound(TheIndex(), TheStore(), DoRemove(key));
      RemoveEffect(TheIndex(), TheStore(), key);
      var b := virt[h];
      var s := b.FindSlot(key);
      RemoveAt(b, ids[h], s);
    }

    method Remove(key: uint64) returns (code: int)
      requires Valid()
      modifies this`mem, this`pages, virt[HashFunc(key)]
      ensures Valid()
      ensures TheIndex() == old(HashRuns.Remove(TheIndex(), key))
      ensures TheStore() == old(RemoveStore(TheIndex(), TheStore(), key))
      ensures code == if old(TheIndex().Lookup(key)).Some? then 0 else -1
      ensures code == -1 ==> pages == old(pages)
      ensures code == 0 ==> HashFunc(key) < virt.Length == |ids| && exists s: nat ::
        && old(virt[HashFunc(key)].Val().Wf() && virt[HashFunc(key)].Val().Holds(s, key))
        && HeadBitCleared(old(pages), pages, ids[HashFunc(key)] / 16, s)
    {
      hide HeadBitCleared;
      hide Registered, Distinct, Sound, RemoveStore, HashRuns.Remove, Index.Lookup;
      KeyInRange(TheIndex(), TheStore(), key);
      var found, _ := Search(key, 0);
      if found == -1 {
        MissEffect(TheIndex(), TheStore(), key, 0);
        return -1;
      }
      RemoveFound(HashFunc(key), key);
      return 0;
    }

    /** Stores a value in slot s of bucket k, and in the head copy of the page at the position given
        by the index of the bucket within the page. */
    method UpdateAt(b: Bucket, ghost k: nat, s: nat, value: uint64)
      requires Laid() && Valued() && Pooled() && Addressed()
      requires k < |all| && all[k] == b && mem[k].Wf() && s < 15 && |Copies(pages)[PageHead(k)].kv| == 15
      modifies this`mem, this`pages, b
      ensures Laid() && Valued() && |pages| == |old(pages)|
      ensures mem == old(mem)[k := old(mem)[k].Store(s, value)]
      ensures Copies(pages) == HeadStored(old(Copies(pages)), k, value)
      ensures UsedBits(pages) == old(UsedBits(pages))
      ensures HeadValueStored(old(pages), pages, k / 16, k % 16, value)
    {
      hide Registered, Distinct, HeadStored, HeadValueStored;
      var fid, index := PlaceOf(b, k);
      SetSlotValue(b, k, s, value);
      SetHeadValue(fid, index, value);
    }

    method UpdateFound(h: nat, key: uint64, value: uint64)
      requires Struct() && Sound(TheIndex(), TheStore())
      requires TheIndex().Lookup(key).Some? && h == TheIndex().Hash(key) && h < virt.Length
      modifies this`mem, this`pages, virt[h]
      ensures Laid() && Valued() && |pages| == |old(pages)|
      ensures TheIndex() == old(HashRuns.Update(TheIndex(), key, value))
      ensures TheStore() == old(UpdateStore(TheIndex(), TheStore(), key, value))
      ensures Sound(TheIndex(), TheStore())
      ensures HeadValueStored(old(pages), pages, ids[h] / 16, ids[h] % 16, value)
    {
      hide HeadValueStored;
      ApplySound(TheIndex(), TheStore(), DoUpdate(key, value));
      UpdateEffect(TheIndex(), TheStore(), key, value);
      var b := virt[h];
      var s := b.FindSlot(key);
      UpdateAt(b, ids[h], s, value);
    }

    method Update(key: uint64, value: uint64) returns (code: int)
      requires Valid()
      modifies this`mem, this`pages, virt[HashFunc(key)]
      ensures Valid()
      ensures TheIndex() == old(HashRuns.Update(TheIndex(), key, value))
      ensures TheStore() == old(UpdateStore(TheIndex(), TheStore(), key, value))
      ensures code == if old(TheIndex().Lookup(key)).Some? then 0 else -1
      ensures code == -1 ==> pages == old(pages)
      ensures code == 0 ==>
        && HashFunc(key) < |ids|
        && HeadValueStored(old(pages), pages, ids[HashFunc(key)] / 16, ids[HashFunc(key)] % 16, value)
    {
      hide HeadValueStored;
      hide Registered, Distinct, Sound, UpdateStore, HashRuns.Update, Index.Lookup;
      KeyInRange(TheIndex(), TheStore(), key);
      var found, _ := Search(key, 0);
      if found == -1 {
        MissEffect(TheIndex(), TheStore(), key, value);
        return -1;
      }
      UpdateFound(HashFunc(key), key, value);
      return 0;
    }

    // ----- Insertion -----

    /** One turn of the split loop. */
    method SplitOnce(key: uint64, b: nat, ghost t: Index, ghost s: Store, ghost d: nat)
        returns (b': nat, full: bool, ghost d': nat)
      requires Struct() && Rooming(t, s, TheIndex(), TheStore(), key, true, d)
      requires b == TheIndex().Hash(key) && b < |ids| && b < virt.Length
      modifies this, virt, phys, all
      ensures Struct() && Rooming(t, s, TheIndex(), TheStore(), key, full, d')
      ensures b' == TheIndex().Hash(key) && b' < |ids|
      ensures virt == old(virt) || fresh(virt)
      ensures phys == old(phys) || fresh(phys)
      ensures AllGrown()
      ensures d' == d + 1 <= 61
    {
      hide Registered, Distinct, Sound, Rooming, Addressed;
      RoomStep(t, s, TheIndex(), TheStore(), key, d);
      SplitBucket(b);
      b' := HashFunc(key);
      full := virt[b'].IsFull();
      d' := d + 1;
    }

    /** Splits the bucket of the key until it has a free slot. */
    method GetFreeBucket(key: uint64) returns (bucket: Bucket)
      requires Valid()
      modifies this, virt, phys, all
      ensures Valid() && HashFunc(key) < |ids| && bucket == virt[HashFunc(key)]
      ensures TheIndex() == old(MakeRoom(TheIndex(), key))
      ensures TheStore() == old(MakeRoomStore(TheIndex(), TheStore(), key))
      ensures virt == old(virt) || fresh(virt)
      ensures phys == old(phys) || fresh(phys)
      ensures AllGrown()
    {
      hide Registered, Distinct, Sound, MakeRoom, MakeRoomStore, Rooming, Addressed, Pooled;
      ghost var t, s := TheIndex(), TheStore();
      RoomStart(t, s, key);
      var b := HashFunc(key);
      ghost var d := mem[ids[b]].depth;
      var full := virt[b].IsFull();
      while full
        invariant Struct() && Rooming(t, s, TheIndex(), TheStore(), key, full, d)
        invariant b == TheIndex().Hash(key) && b < |ids| && d <= 61
        invariant virt == old(virt) || fresh(virt)
        invariant phys == old(phys) || fresh(phys)
        invariant AllGrown()
        decreases 61 - d
      {
        b, full, d := SplitOnce(key, b, t, s, d);
      }
      RoomEnd(t, s, TheIndex(), TheStore(), key, d);
      bucket := virt[b];
    }

    /** Puts a pair into the first free slot of bucket k and copies the bucket to its page. */
    method Place(b: Bucket, ghost k: nat, p: KV)
      requires Laid() && Valued() && Pooled() && Addressed()
      requires k < |all| && all[k] == b && mem[k].Wf() && mem[k].FreeFrom(0) < 15
      modifies this`mem, this`pages, b
      ensures Laid() && Valued() && |pages| == |old(pages)|
      ensures mem == old(mem)[k := old(mem)[k].Put(old(mem)[k].FreeFrom(0), p)]
      ensures UsedBits(pages) == old(UsedBits(pages))
      ensures Copies(pages) == old(Copies(pages))[k := MirrorOf(mem[k])]
      ensures CopyAt(pages, k, PageBucket(b.bitmap0, b.bitmap1, b.slot))
    {
      AddTo(b, k, p);
      ghost var was := pages;
      ghost var c := CopyToPage(b, k);
      SavedEffect(was, k, c);
    }

    /** Puts a new pair into the bucket that the split loop has made room in. */
    method PlaceNew(b: Bucket, ghost h: nat, ghost t: Index, ghost st: Store, p: KV)
      requires Struct() && Sound(t, st) && t.Lookup(p.key) == None
      requires TheIndex() == MakeRoom(t, p.key) && TheStore() == MakeRoomStore(t, st, p.key)
      requires h == TheIndex().Hash(p.key) && h < virt.Length && b == virt[h]
      modifies this`mem, this`pages, b
      ensures Valid()
      ensures TheIndex() == HashRuns.Insert(t, p.key, p.value)
      ensures TheStore() == InsertStore(t, st, p.key, p.value)
      ensures h < |ids| && CopyAt(pages, ids[h], PageBucket(b.bitmap0, b.bitmap1, b.slot))
    {
      hide CopyAt;
      hide Sound, MakeRoom, MakeRoomStore, InsertStore, HashRuns.Insert;
      InsertEffect(t, st, p.key, p.value);
      Place(b, ids[h], p);
    }

    method Insert(key: uint64, value: uint64) returns (code: int)
      requires Valid()
      modifies this, virt, phys, all
      ensures Valid()
      ensures virt == old(virt) || fresh(virt)
      ensures phys == old(phys) || fresh(phys)
      ensures AllGrown()
      ensures TheIndex() == old(HashRuns.Insert(TheIndex(), key, value))
      ensures TheStore() == old(InsertStore(TheIndex(), TheStore(), key, value))
      ensures code == if old(TheIndex().Lookup(key)).Some? then -1 else 0
      ensures code == -1 ==> pages == old(pages)
      ensures code == 0 ==> var h := HashFunc(key);
        && h < virt.Length == |ids|
        && CopyAt(pages, ids[h], PageBucket(virt[h].bitmap0, virt[h].bitmap1, virt[h].slot))
    {
      hide CopyAt;
      hide Registered, Distinct, Sound, MakeRoom, MakeRoomStore, InsertStore, HashRuns.Insert, Index.Lookup;
      hide Addressed, Valued, Pooled;
      ghost var t, st := TheIndex(), TheStore();
      var found, _ := Search(key, 0);
      if found == 0 {
        HitEffect(t, st, key, value);
        return -1;
      }
      var b := GetFreeBucket(key);
      PlaceNew(b, HashFunc(key), t, st, KV(key, value));
      return 0;
    }

    // ----- What the allocator conserves -----

    /** The free list has no repetition, no bucket of the directory is on it, and the directory and
        the free list together are the buckets of the address maps, sixteen per page. */
    lemma BucketsConserved()
      requires Valid()
      ensures forall i, j :: 0 <= i < j < |freeList| ==> freeList[i] != freeList[j]
      ensures forall b :: b in freeList ==> b !in virt[..]
      ensures forall b :: b in vAddr2pmAddr <==> b in virt[..] || b in freeList
      ensures |vAddr2pmAddr| == 16 * maxFileId
    {
      UsedInDirectory();
      hide Registered, Sound, Linked, Laid;
      RegisteredCount(vAddr2pmAddr, pmAddr2vAddr, all);
      forall b
        ensures b in vAddr2pmAddr <==> b in all
      {
        InBoth(vAddr2pmAddr, pmAddr2vAddr, all, b);
      }
      DistinctParts(all, next);
    }

    /** The buckets of the directory are those that the allocator has given out. */
    lemma UsedInDirectory()
      requires Valid()
      ensures forall b :: b in virt[..] <==> b in all[..next]
    {
      hide Registered, Distinct, Index.Depths, Index.Sharing, Index.Placed, Index.Attained, Store.BitsRight, Laid;
      forall b | b in all[..next]
        ensures b in virt[..]
      {
        var k: nat :| k < next && all[..next][k] == b;
        assert k in ids;
        var i :| 0 <= i < |ids| && ids[i] == k;
        assert virt[..][i] == b;
      }
      forall b | b in virt[..]
        ensures b in all[..next]
      {
        var i :| 0 <= i < |virt[..]| && virt[..][i] == b;
        assert virt[i] == all[ids[i]] && ids[i] < next;
        assert all[..next][ids[i]] == b;
      }
    }

    lemma SlotBit(b: Bucket, k: nat)
      requires Valid() && k < |all| && b == Entry(all, k)
      ensures b in vAddr2pmAddr
      ensures var a := vAddr2pmAddr[b];
        && a.fileId < |pages| && a.offset >= 2 && SlotIndex(a.offset) < 16
        && (PageBits(pages[a.fileId].bitmap)[SlotIndex(a.offset)] <==> b !in freeList)
    {
      hide Index.Inv, Store.Exact;
      AddrInverse(k);
      assert vAddr2pmAddr[b] == Addr(k);
      assert UsedBits(pages)[k] == PageBits(pages[k / 16].bitmap)[k % 16];
      assert TheStore().used[k] <==> k < next;
      if k >= next {
        assert freeList[k - next] == b;
      }
    }

    /** The address maps are inverse to each other, an address determines page and slot, and the bit
        of the slot in the bitmap of the page is set exactly for the buckets that are not free. */
    lemma AddressesConserved()
      requires Valid()
      ensures forall b :: b in vAddr2pmAddr ==> vAddr2pmAddr[b] in pmAddr2vAddr && pmAddr2vAddr[vAddr2pmAddr[b]] == b
      ensures forall a :: a in pmAddr2vAddr ==> pmAddr2vAddr[a] in vAddr2pmAddr && vAddr2pmAddr[pmAddr2vAddr[a]] == a
      ensures forall b :: b in vAddr2pmAddr ==>
        var a := vAddr2pmAddr[b];
        && a.fileId < |pages| && a.offset >= 2 && SlotIndex(a.offset) < 16
        && (PageBits(pages[a.fileId].bitmap)[SlotIndex(a.offset)] <==> b !in freeList)
    {
      MapsInverse(vAddr2pmAddr, pmAddr2vAddr, all);
      forall b | b in vAddr2pmAddr
        ensures var a := vAddr2pmAddr[b];
          && a.fileId < |pages| && a.offset >= 2 && SlotIndex(a.offset) < 16
          && (PageBits(pages[a.fileId].bitmap)[SlotIndex(a.offset)] <==> b !in freeList)
      {
        var k: nat :| k < |all| && b == Entry(all, k);
        SlotBit(b, k);
      }
    }

    // ----- What the pages and the catalog hold -----

    /** The copies on the pages are exact exactly when both bitmap bytes and all fifteen pairs of every
        bucket lie at its place. */
    lemma PagesHoldBuckets()
      requires Valid()
      ensures TheStore().Exact(TheIndex()) <==> forall k: nat {:trigger all[k]} :: k < |all| ==>
        && k / 16 < |pages| && |pages[k / 16].pageBucket| == 16
        && pages[k / 16].pageBucket[k % 16].bitmap0 == all[k].bitmap0
        && pages[k / 16].pageBucket[k % 16].bitmap1 == all[k].bitmap1
        && pages[k / 16].pageBucket[k % 16].kv == all[k].slot
    {
      hide Registered, Distinct, Index.Inv;
      if TheStore().Exact(TheIndex()) {
        forall k: nat | k < |all|
          ensures CopyAt(pages, k, PageBucket(all[k].bitmap0, all[k].bitmap1, all[k].slot))
        {
          assert TheStore().mirror[k] == MirrorOf(mem[k]);
          HeldCopy(pages, k, all[k]);
        }
      }
      if forall k: nat {:trigger all[k]} :: k < |all| ==>
        CopyAt(pages, k, PageBucket(all[k].bitmap0, all[k].bitmap1, all[k].slot))
      {
        forall k: nat | k < |all|
          ensures TheStore().mirror[k] == MirrorOf(mem[k])
        {
          HeldCopy(pages, k, all[k]);
        }
      }
    }

    lemma EntryValue(i: nat)
      requires Valid() && i < virt.Length
      ensures ids[i] < next <= |mem| && virt[i].Val() == mem[ids[i]] && |virt[i].slot| == 15
    {
      assert mem[ids[i]].Wf();
      assert all[ids[i]].Val() == mem[ids[i]];
    }

    /** A live slot that the directory reaches holds a pair of the map that the table represents. */
    lemma SlotIsInMap(m: map<uint64, uint64>, i: nat, s: nat)
      requires Valid() && Represents(TheIndex(), m) && i < virt.Length && s < 15
      requires Bits(virt[i].bitmap0, virt[i].bitmap1)[s]
      ensures |virt[i].slot| == 15
      ensures virt[i].slot[s].key in m && m[virt[i].slot[s].key] == virt[i].slot[s].value
    {
      hide Registered, Distinct, Index.Inv, Represents, Store.BitsRight;
      LiveSlotsAreTheMap(TheIndex(), m);
      EntryValue(i);
      assert TheIndex().mem[ids[i]].live[s];
    }

    /** Each key of the map is in a live slot of the bucket that it is hashed to. */
    lemma KeyIsInSlot(m: map<uint64, uint64>, key: uint64)
      requires Valid() && Represents(TheIndex(), m) && key in m
      ensures HashFunc(key) < virt.Length && |virt[HashFunc(key)].slot| == 15
      ensures exists s: nat ::
        s < 15 && virt[HashFunc(key)].slot[s] == KV(key, m[key])
        && Bits(virt[HashFunc(key)].bitmap0, virt[HashFunc(key)].bitmap1)[s]
    {
      var b := HashFunc(key);
      KeyInRange(TheIndex(), TheStore(), key);
      EntryValue(b);
      assert TheIndex().Lookup(key) == Some(m[key]);
      hide Index.Inv, Represents, Linked, Valued, Pooled, Addressed;
      var s := mem[ids[b]].FindFrom(key, 0);
      assert mem[ids[b]].Holds(s, key);
      assert virt[b].Val().live[s];
    }

    /** The maps give bucket number k the address of slot k % 16 of page k / 16: two bytes for the bitmap
        of the page, then 255 bytes for each bucket. */
    lemma AddressOfBucket(k: nat)
      requires Valid() && k < |all|
      ensures all[k] in vAddr2pmAddr && vAddr2pmAddr[all[k]] == PmAddress(k / 16, 2 + k % 16 * 255)
    {
      assert all[k] == Entry(all, k);
    }

    /** The flat addresses are right exactly when each is the address of the bucket of its directory
        entry, and likewise the catalog items. */
    lemma CatalogHoldsAddresses()
      requires Valid()
      ensures forall i: nat :: i < virt.Length ==> virt[i] in vAddr2pmAddr
      ensures TheStore().AddressesRight(TheIndex()) <==>
        forall i: nat {:trigger virt[i]} :: i < virt.Length ==> phys[i] == vAddr2pmAddr[virt[i]]
      ensures TheStore().CatalogRight(TheIndex()) <==>
        forall i: nat {:trigger virt[i]} :: i < virt.Length ==>
          && i / 512 < |catalogFiles| && |catalogFiles[i / 512]| == 512
          && catalogFiles[i / 512][i % 512] == vAddr2pmAddr[virt[i]]
    {
      hide Index.Inv, Distinct, Registered;
      forall i: nat | i < virt.Length
        ensures virt[i] in vAddr2pmAddr && vAddr2pmAddr[virt[i]] == Addr(ids[i])
        ensures i / 512 < |catalogFiles| && |catalogFiles[i / 512]| == 512
        ensures TheStore().filed[i] == catalogFiles[i / 512][i % 512]
      {
        EntryAddress(i);
      }
      forall i: nat | i < virt.Length
        ensures TheStore().phys[i] == phys[i]
      {
      }
      assert forall i: nat {:trigger TheStore().phys[i]} {:trigger virt[i]} :: i < virt.Length ==>
        (TheStore().phys[i] == Addr(ids[i]) <==> phys[i] == vAddr2pmAddr[virt[i]]);
      assert forall i: nat {:trigger TheStore().filed[i]} {:trigger virt[i]} :: i < virt.Length ==>
        (TheStore().filed[i] == Addr(ids[i]) <==> catalogFiles[i / 512][i % 512] == vAddr2pmAddr[virt[i]]);
    }

    lemma EntryAddress(i: nat)
      requires Valid() && i < virt.Length
      ensures virt[i] in vAddr2pmAddr && vAddr2pmAddr[virt[i]] == Addr(ids[i])
      ensures i < 512 * |catalogFiles| && i / 512 < |catalogFiles| && |catalogFiles[i / 512]| == 512
      ensures TheStore().filed[i] == catalogFiles[i / 512][i % 512]
    {
      assert virt[i] == Entry(all, ids[i]);
    }

    // ----- Whole runs -----

    method Perform(op: Op) returns (r: Reply)
      requires Valid()
      modifies this, virt, phys, all
      ensures Valid()
      ensures virt == old(virt) || fresh(virt)
      ensures phys == old(phys) || fresh(phys)
      ensures AllGrown()
      ensures TheIndex() == old(Apply(TheIndex(), op))
      ensures TheStore() == old(ApplyStore(TheIndex(), TheStore(), op))
      ensures r == old(Answer(TheIndex(), op))
    {
      hide Registered, Distinct, Sound, Index.Lookup, HashRuns.Insert, HashRuns.Remove, HashRuns.Update;
      hide InsertStore, RemoveStore, UpdateStore;
      KeyInRange(TheIndex(), TheStore(), op.key);
      var code, value;
      match op {
        case DoInsert(k, v) =>
          code := Insert(k, v);
          r := Reply(code, None);
        case DoRemove(k) =>
          code := Remove(k);
          r := Reply(code, None);
        case DoUpdate(k, v) =>
          code := Update(k, v);
          r := Reply(code, None);
        case DoSearch(k) =>
          code, value := Search(k, 0);
          r := Reply(code, if code == 0 then Some(value) else None);
      }
    }

    /** Any sequence of operations on any table in a valid state. */
    method PerformAll(ops: seq<Op>) returns (rs: seq<Reply>)
      requires Valid()
      modifies this, virt, phys, all
      ensures Valid()
      ensures TheIndex() == old(Run(TheIndex(), ops))
      ensures TheStore() == old(RunStore(TheIndex(), TheStore(), ops))
      ensures rs == old(Replies(TheIndex(), ops))
    {
      hide Registered, Distinct, Sound, Apply, ApplyStore, Answer;
      ghost var t, s := TheIndex(), TheStore();
      rs := [];
      var i := 0;
      while i < |ops|
        invariant i <= |ops| && Valid()
        invariant virt == old(virt) || fresh(virt)
        invariant phys == old(phys) || fresh(phys)
        invariant AllGrown()
        invariant Reached(t, s, ops, i, TheIndex(), TheStore(), rs)
      {
        ReachedStep(t, s, ops, i, TheIndex(), TheStore(), rs);
        var r := Perform(ops[i]);
        rs := rs + [r];
        i := i + 1;
      }
      ReachedAll(t, s, ops, TheIndex(), TheStore(), rs);
    }

    /** A fresh table answers every sequence of operations like a plain map, holds that map at the
        end, and has exact page copies when the sequence only inserts and searches. */
    static method FreshRun(ops: seq<Op>) returns (t: PmEHash, rs: seq<Reply>)
      ensures t.Valid() && rs == MapReplies(map[], ops)
      ensures Represents(t.TheIndex(), MapRun(map[], ops))
      ensures (forall i :: 0 <= i < |ops| ==> ops[i].DoInsert? || ops[i].DoSearch?) ==>
        && t.TheStore().Exact(t.TheIndex())
        && forall k: nat {:trigger t.all[k]} :: k < |t.all| ==>
             && k / 16 < |t.pages| && |t.pages[k / 16].pageBucket| == 16
             && t.pages[k / 16].pageBucket[k % 16].bitmap0 == t.all[k].bitmap0
             && t.pages[k / 16].pageBucket[k % 16].bitmap1 == t.all[k].bitmap1
             && t.pages[k / 16].pageBucket[k % 16].kv == t.all[k].slot
    {
      t := new PmEHash();
      FreshInv();
      PagesFollowRuns(ops);
      TableIsMap(ops);
      rs := t.PerformAll(ops);
      t.PagesHoldBuckets();
    }
  }
}
