/** The persistent side of the table as a value: the flat array of bucket addresses, the
    catalog files, and for every bucket number its bit in the page bitmap and its copy on
    the page.  Catalog item i lives at (i / 512, i % 512), bucket k at (k / 16, k % 16). */
module PageStore {
  import opened BitOps
  import opened Buckets
  import opened HashIndex
  import opened HashRuns

  datatype PmAddress = PmAddress(fileId: nat, offset: nat)

  /** Address of bucket number k. */
  function Addr(k: nat): PmAddress {
    PmAddress(k / 16, 2 + k % 16 * 255)
  }

  /** Slot index within its page that the table recovers from an offset. */
  function SlotIndex(offset: nat): nat
    requires offset >= 2
  {
    (offset - 2) / 255
  }

  lemma AddrInverse(k: nat)
    ensures SlotIndex(Addr(k).offset) == k % 16
    ensures Addr(k).fileId * 16 + SlotIndex(Addr(k).offset) == k
  {
    DivModUnique(k % 16 * 255, 255, k % 16, 0);
  }

  /** Number of catalog files for a directory of n entries. */
  function FileCount(n: nat): nat {
    if n < 512 then 1 else n / 512
  }

  datatype MirrorVal = MirrorVal(live: seq<bool>, kv: seq<KV>)

  ghost function MirrorOf(b: BucketVal): MirrorVal {
    MirrorVal(b.live, b.slot)
  }

  ghost function BlankMirror(): MirrorVal {
    MirrorVal(seq(16, i => false), seq(15, i => KV(0, 0)))
  }

  datatype Store = Store(phys: seq<PmAddress>, filed: seq<PmAddress>, used: seq<bool>, mirror: seq<MirrorVal>) {

    ghost predicate Fits(t: Index) {
      && |phys| == |t.ids|
      && |filed| == 512 * FileCount(|t.ids|)
      && |used| == |mirror| == |t.mem|
      && |t.ids| <= |filed|
      && (forall k {:trigger mirror[k]} :: 0 <= k < |mirror| ==> |mirror[k].live| == 16 && |mirror[k].kv| == 15)
    }

    /** A bit of a page bitmap is set exactly for the buckets that are not free. */
    ghost predicate BitsRight(t: Index) {
      && Fits(t)
      && forall k: nat :: k < |used| ==> (used[k] <==> k < t.next)
    }

    /** Every bucket equals its copy on its page. */
    ghost predicate Exact(t: Index) {
      && Fits(t)
      && forall k: nat {:trigger mirror[k]} :: k < |mirror| ==> mirror[k] == MirrorOf(t.mem[k])
    }

    /** Entry i of the flat address array is the address of the bucket entry i points to. */
    ghost predicate AddressesRight(t: Index) {
      && Fits(t)
      && forall i: nat {:trigger phys[i]} :: i < |phys| ==> phys[i] == Addr(t.ids[i])
    }

    /** The catalog files agree with the flat address array. */
    ghost predicate FiledRight() {
      && |phys| <= |filed|
      && forall i: nat {:trigger filed[i]} :: i < |phys| ==> filed[i] == phys[i]
    }

    /** Catalog item i is the address of the bucket that directory entry i points to. */
    ghost predicate CatalogRight(t: Index) {
      && Fits(t)
      && forall i: nat {:trigger filed[i]} :: i < |t.ids| ==> filed[i] == Addr(t.ids[i])
    }

    ghost function Doubled(): Store {
      Store(phys + phys, Refiled(phys + phys), used, mirror)
    }

    ghost function Grown(t: Index): Store {
      if t.next == |t.mem|
      then Store(phys, filed, used + seq(16, i => false), mirror + seq(16, i => BlankMirror()))
      else this
    }

    ghost function Prepared(t: Index, b: nat): Store
      requires t.Shape() && b < |t.ids|
    {
      (if t.At(b).depth == t.g then Doubled() else this).Grown(t)
    }

    /** What splitting bucket ids[b] writes: catalog items of all redirected entries, one entry
        of the flat array, the page bits and the page copies of both buckets.
        t is the prepared index, d the divided one. */
    ghost function Divided(t: Index, d: Index, b: nat): (r: Store)
      requires t.Shape() && b < |t.ids| && t.next < |t.mem| && |d.mem| == |t.mem| && |d.ids| == |t.ids|
      requires Fits(t) && t.At(b).depth < t.g
      ensures |r.phys| == |phys| && |r.filed| == |filed| && |r.used| == |used| && |r.mirror| == |mirror|
    {
      BuddyRange(b, t.At(b).depth, t.g);
      FinishedStore(this, d, DivisionAt(t.ids, t.mem, t.next, b, t.At(b).depth), Buddy(b, t.At(b).depth))
    }
  }

  /** Catalog files written from scratch: the given addresses, then zeros. */
  ghost function Refiled(a: seq<PmAddress>): seq<PmAddress>
  {
    seq(512 * FileCount(|a|), i requires 0 <= i => if i < |a| then a[i] else PmAddress(0, 0))
  }

  lemma FilesCoverDirectory(g: nat)
    ensures Pow2(g) <= 512 * FileCount(Pow2(g))
    ensures g >= 9 ==> Pow2(g) == 512 * FileCount(Pow2(g)) && Pow2(g) >= 512 && Pow2(g) % 512 == 0
    ensures g < 9 ==> FileCount(Pow2(g)) == 1 && 2 * Pow2(g) <= 512
  {
    Pow2Of64();
    if g >= 9 {
      Pow2Add(9, g - 9);
      DivModUnique(Pow2(g), 512, Pow2(g - 9), 0);
    } else {
      Pow2Monotonic(g + 1, 9);
    }
  }

  // ----- Splitting -----

  /** What every public operation keeps. */
  ghost predicate Sound(t: Index, s: Store) {
    t.Inv() && t.g <= 61 && s.BitsRight(t)
  }

  ghost function Split(t: Index, s: Store, b: nat): Store
    requires t.Consistent() && b < |t.ids| && s.Fits(t)
  {
    PreparedConsistent(t, b);
    PreparedFits(t, s, b);
    s.Prepared(t, b).Divided(t.Prepared(b), t.Prepared(b).Divided(b), b)
  }

  lemma PreparedFits(t: Index, s: Store, b: nat)
    requires t.Consistent() && b < |t.ids| && s.Fits(t)
    ensures s.Prepared(t, b).Fits(t.Prepared(b))
    ensures s.BitsRight(t) ==> s.Prepared(t, b).BitsRight(t.Prepared(b))
    ensures s.Exact(t) ==> s.Prepared(t, b).Exact(t.Prepared(b))
    ensures t.At(b).depth == t.g ==> s.Prepared(t, b).FiledRight()
  {
    FilesCoverDirectory(t.g + 1);
  }

  lemma SplitStoreKeeps(t: Index, s: Store, b: nat)
    requires t.Inv() && b < |t.ids| && t.At(b).Full() && s.Fits(t)
    ensures t.Split(b).Inv() && Split(t, s, b).Fits(t.Split(b))
    ensures s.BitsRight(t) ==> Split(t, s, b).BitsRight(t.Split(b))
    ensures s.Exact(t) ==> Split(t, s, b).Exact(t.Split(b))
  {
    SplitKeeps(t, b);
    PreparedConsistent(t, b);
    PreparedFits(t, s, b);
    DividedStoreKeeps(t.Prepared(b), s.Prepared(t, b), b);
  }

  lemma DividedStoreKeeps(t: Index, s: Store, b: nat)
    requires t.Consistent() && b < |t.ids| && t.next < |t.mem| && s.Fits(t)
    requires t.At(b).depth < t.g && t.Divided(b).Shape()
    ensures var d := t.Divided(b);
      && s.Divided(t, d, b).Fits(d)
      && (s.BitsRight(t) ==> s.Divided(t, d, b).BitsRight(d))
      && (s.Exact(t) ==> s.Divided(t, d, b).Exact(d))
  {
    var d := t.Divided(b);
    var e := s.Divided(t, d, b);
    assert t.ids[b] < t.next;
    assert d.mem[t.ids[b]].Wf() && d.mem[t.next].Wf();
    TwoCopies(s, e, t, d, t.ids[b], t.next);
  }

  /** Using a new bucket and copying two buckets to their pages keeps the pages in step. */
  lemma TwoCopies(s: Store, e: Store, t: Index, d: Index, o: nat, n: nat)
    requires s.Fits(t) && |d.ids| == |t.ids| && |d.mem| == |t.mem| && o < n < |t.mem|
    requires |e.phys| == |s.phys| && |e.filed| == |s.filed|
    requires e.used == s.used[n := true][o := true]
    requires e.mirror == s.mirror[n := MirrorOf(d.mem[n])][o := MirrorOf(d.mem[o])]
    requires d.mem[o].Wf() && d.mem[n].Wf()
    requires forall k: nat {:trigger d.mem[k]} :: k < |t.mem| && k != o && k != n ==> d.mem[k] == t.mem[k]
    requires t.next == n && d.next == n + 1
    ensures e.Fits(d)
    ensures s.BitsRight(t) ==> e.BitsRight(d)
    ensures s.Exact(t) ==> e.Exact(d)
  {
  }

  /** Right after a split that doubles the directory, the catalog files and the flat address
      array agree on every entry of the new directory. */
  lemma DoublingRefiles(t: Index, s: Store, b: nat)
    requires t.Inv() && b < |t.ids| && t.At(b).Full() && s.Fits(t) && t.At(b).depth == t.g
    ensures Split(t, s, b).FiledRight()
  {
    PreparedConsistent(t, b);
    PreparedFits(t, s, b);
    RedirectOnce(t.Prepared(b), s.Prepared(t, b), b);
  }

  lemma RedirectOnce(t: Index, s: Store, b: nat)
    requires t.Consistent() && b < |t.ids| && t.next < |t.mem| && s.Fits(t) && s.FiledRight()
    requires t.At(b).depth + 1 == t.g
    ensures s.Divided(t, t.Divided(b), b).FiledRight()
  {
    var e := s.Divided(t, t.Divided(b), b);
    var to := Buddy(b, t.At(b).depth);
    BuddyRange(b, t.At(b).depth, t.g);
    forall i: nat | i < |e.phys|
      ensures e.filed[i] == e.phys[i]
    {
      SmallMod(i, t.g);
      SmallMod(to, t.g);
      assert s.filed[i] == s.phys[i];
    }
  }

  /** The flat address array follows a split exactly when the bucket has at most two directory
      entries at that moment, that is, when its local depth is g or g - 1: the split redirects
      every entry of the new bucket but writes the flat array at one position only. */
  lemma AddressesAfterSplit(t: Index, s: Store, b: nat)
    requires t.Inv() && b < |t.ids| && t.At(b).Full() && s.AddressesRight(t)
    ensures t.Split(b).Inv() && Split(t, s, b).Fits(t.Split(b))
    ensures Split(t, s, b).AddressesRight(t.Split(b)) <==> t.At(b).depth + 1 >= t.g
  {
    SplitStoreKeeps(t, s, b);
    PreparedConsistent(t, b);
    PreparedFits(t, s, b);
    PreparedAddresses(t, s, b);
    DividedAddresses(t.Prepared(b), s.Prepared(t, b), b);
  }

  lemma DividedItem(t: Index, s: Store, b: nat, i: nat)
    requires t.Consistent() && b < |t.ids| && t.next < |t.mem| && s.Fits(t)
    requires t.At(b).depth < t.g && i < |t.ids|
    ensures var to, m := Buddy(b, t.At(b).depth), Pow2(t.At(b).depth + 1);
      s.Divided(t, t.Divided(b), b).filed[i] == Addr(t.Divided(b).ids[i]) <==>
        (i % m == to % m || s.filed[i] == Addr(t.ids[i]))
  {
    DividedEntry(t, b, i);
    BuddyRange(b, t.At(b).depth, t.g);
  }

  lemma SplitItem(t: Index, s: Store, b: nat, i: nat)
    requires t.Inv() && b < |t.ids| && t.At(b).Full() && s.Fits(t)
    requires t.Prepared(b).Consistent() && b < |t.Prepared(b).ids| && i < |t.Prepared(b).ids|
    requires t.Split(b).Inv() && Split(t, s, b).Fits(t.Split(b)) && s.Prepared(t, b).Fits(t.Prepared(b))
    ensures |t.Split(b).ids| == |t.Prepared(b).ids|
    ensures var q, p, d, e := s.Prepared(t, b), t.Prepared(b), t.Split(b), Split(t, s, b);
      && (q.filed[i] == Addr(p.ids[i]) ==> e.filed[i] == Addr(d.ids[i]))
      && (t.At(b).depth == t.g ==>
            (e.filed[i] == Addr(d.ids[i]) <==> i == Buddy(b, t.g) || q.filed[i] == Addr(p.ids[i])))
  {
    hide Index.Depths, Index.Sharing, Index.Placed, Index.Allocated, Index.Attained;
    hide Index.Divided, Store.Divided, Store.Prepared;
    PreparedConsistent(t, b);
    var p := t.Prepared(b);
    DividedItem(p, s.Prepared(t, b), b, i);
    BuddyRange(b, t.At(b).depth, p.g);
    SmallMod(i, p.g);
    SmallMod(Buddy(b, t.At(b).depth), p.g);
  }

  /** The catalog files, in contrast, follow every split that leaves the directory size as it is.  A
      split that doubles the directory writes them anew from the flat array, so afterwards they are
      right if and only if the flat array was right before. */
  lemma CatalogAfterSplit(t: Index, s: Store, b: nat)
    requires t.Inv() && b < |t.ids| && t.At(b).Full() && s.Fits(t)
    ensures t.Split(b).Inv() && Split(t, s, b).Fits(t.Split(b))
    ensures t.At(b).depth < t.g && s.CatalogRight(t) ==> Split(t, s, b).CatalogRight(t.Split(b))
    ensures t.At(b).depth == t.g ==> (Split(t, s, b).CatalogRight(t.Split(b)) <==> s.AddressesRight(t))
  {
    SplitStoreKeeps(t, s, b);
    PreparedConsistent(t, b);
    PreparedFits(t, s, b);
    hide Index.Split, Split, Index.Inv;
    forall i: nat | i < |t.Prepared(b).ids|
      ensures |t.Split(b).ids| == |t.Prepared(b).ids|
      ensures var q, p, d, e := s.Prepared(t, b), t.Prepared(b), t.Split(b), Split(t, s, b);
        && (q.filed[i] == Addr(p.ids[i]) ==> e.filed[i] == Addr(d.ids[i]))
        && (t.At(b).depth == t.g ==>
              (e.filed[i] == Addr(d.ids[i]) <==> i == Buddy(b, t.g) || q.filed[i] == Addr(p.ids[i])))
    {
      SplitItem(t, s, b, i);
    }
    if t.At(b).depth == t.g {
      BuddyRange(b, t.g, t.g);
      BothHalves(s.phys, t.ids, Split(t, s, b).filed, t.Split(b).ids, Buddy(b, t.g));
    }
  }

  lemma BothHalves(a: seq<PmAddress>, ids: seq<nat>, filed: seq<PmAddress>, ids': seq<nat>, to: nat)
    requires |ids'| == 2 * |ids| <= |filed| && |a| == |ids| <= to
    requires forall i: nat {:trigger filed[i]} :: i < |ids'| ==>
      (filed[i] == Addr(ids'[i]) <==> i == to || (a + a)[i] == Addr((ids + ids)[i]))
    ensures (forall i: nat {:trigger filed[i]} :: i < |ids'| ==> filed[i] == Addr(ids'[i])) <==>
      (forall j: nat {:trigger a[j]} :: j < |a| ==> a[j] == Addr(ids[j]))
  {
    var n := |ids|;
    if forall i: nat {:trigger filed[i]} :: i < |ids'| ==> filed[i] == Addr(ids'[i]) {
      forall j: nat | j < n
        ensures a[j] == Addr(ids[j])
      {
        assert filed[j] == Addr(ids'[j]) && (a + a)[j] == a[j] && (ids + ids)[j] == ids[j];
      }
    }
    if forall j: nat {:trigger a[j]} :: j < |a| ==> a[j] == Addr(ids[j]) {
      forall i: nat | i < 2 * n
        ensures filed[i] == Addr(ids'[i])
      {
        var j := if i < n then i else i - n;
        assert (a + a)[i] == a[j] && (ids + ids)[i] == ids[j];
      }
    }
  }

  lemma PreparedAddresses(t: Index, s: Store, b: nat)
    requires t.Consistent() && b < |t.ids| && s.AddressesRight(t)
    ensures s.Prepared(t, b).Fits(t.Prepared(b))
    ensures s.Prepared(t, b).AddressesRight(t.Prepared(b))
  {
    PreparedFits(t, s, b);
  }

  lemma DividedAddressEntry(t: Index, s: Store, b: nat, i: nat)
    requires t.Consistent() && b < |t.ids| && t.next < |t.mem| && s.AddressesRight(t)
    requires t.At(b).depth < t.g && i < |t.ids|
    ensures var to, m := Buddy(b, t.At(b).depth), Pow2(t.At(b).depth + 1);
      s.Divided(t, t.Divided(b), b).phys[i] == Addr(t.Divided(b).ids[i]) <==> (i == to || i % m != to % m)
  {
    DividedEntry(t, b, i);
    BuddyRange(b, t.At(b).depth, t.g);
    AddrInverse(t.ids[i]);
    AddrInverse(t.next);
    assert s.phys[i] == Addr(t.ids[i]);
  }

  lemma DividedAddresses(t: Index, s: Store, b: nat)
    requires t.Consistent() && b < |t.ids| && t.next < |t.mem| && s.AddressesRight(t)
    requires t.At(b).depth < t.g
    requires s.Divided(t, t.Divided(b), b).Fits(t.Divided(b))
    ensures s.Divided(t, t.Divided(b), b).AddressesRight(t.Divided(b)) <==> t.At(b).depth + 1 == t.g
  {
    var l := t.At(b).depth;
    var to := Buddy(b, l);
    BuddyRange(b, l, t.g);
    if l + 1 == t.g {
      forall i: nat | i < |t.ids|
        ensures s.Divided(t, t.Divided(b), b).phys[i] == Addr(t.Divided(b).ids[i])
      {
        DividedAddressEntry(t, s, b, i);
        SmallMod(i, t.g);
        SmallMod(to, t.g);
      }
    } else {
      var i := Buddy(to, l + 1);
      BuddyRange(to, l + 1, t.g);
      BuddyResidue(to, l + 1);
      DividedAddressEntry(t, s, b, i);
    }
  }

  /** What a split finds: the parts of the prepared index and store. */
  lemma SplitFacts(t: Index, s: Store, b: nat)
    requires Sound(t, s) && b < |t.ids| && t.At(b).Full()
    ensures |t.ids| == Pow2(t.g) && |s.filed| == 512 * FileCount(|t.ids|) && b < 0x1_0000_0000_0000_0000
    ensures var l := t.At(b).depth; l <= t.g && l <= 60
    ensures var l := t.At(b).depth; l < t.g ==> Buddy(b, l) < |t.ids| && t.ids[Buddy(b, l)] == t.ids[b]
    ensures t.Prepared(b).g == if t.At(b).depth == t.g then t.g + 1 else t.g
    ensures t.Prepared(b).ids == if t.At(b).depth == t.g then t.ids + t.ids else t.ids
    ensures s.Prepared(t, b).phys == if t.At(b).depth == t.g then s.phys + s.phys else s.phys
    ensures s.Prepared(t, b).filed == if t.At(b).depth == t.g then Refiled(s.phys + s.phys) else s.filed
  {
    FullBucketDepth(t, b);
    assert 1 <= t.At(b).depth <= t.g;
    Pow2Monotonic(t.g, 64);
    Pow2Of64();
    var l := t.At(b).depth;
    if l < t.g {
      BuddyRange(b, l, t.g);
      BuddyResidue(b, l);
      assert t.ids[b] == t.ids[Buddy(b, l)] <==> b % t.Period(b) == Buddy(b, l) % t.Period(b);
    }
  }

  ghost function RedirectedItems(items: seq<PmAddress>, size: nat, m: nat, yu: nat, a: PmAddress): seq<PmAddress>
    requires m > 0
  {
    seq(|items|, i requires 0 <= i < |items| => if i < size && i % m == yu then a else items[i])
  }

  ghost function GrownMem(next: nat, mem: seq<BucketVal>): seq<BucketVal> {
    if next == |mem| then mem + seq(16, i => Blank()) else mem
  }

  ghost function GrownBits(next: nat, used: seq<bool>): seq<bool> {
    if next == |used| then used + seq(16, i => false) else used
  }

  ghost function GrownCopies(next: nat, copies: seq<MirrorVal>): seq<MirrorVal> {
    if next == |copies| then copies + seq(16, i => BlankMirror()) else copies
  }

  // The directory of depth g, doubled when a bucket of depth l is to be split and l == g.

  ghost function OpenDepth(g: nat, l: nat): nat {
    if l == g then g + 1 else g
  }

  ghost function OpenIds(ids: seq<nat>, g: nat, l: nat): seq<nat> {
    if l == g then ids + ids else ids
  }

  ghost function OpenAddresses(a: seq<PmAddress>, g: nat, l: nat): seq<PmAddress> {
    if l == g then a + a else a
  }

  ghost function OpenItems(a: seq<PmAddress>, items: seq<PmAddress>, g: nat, l: nat): seq<PmAddress> {
    if l == g then Refiled(a + a) else items
  }

  ghost function BegunMem(mem: seq<BucketVal>, o: nat, n: nat, l: nat): seq<BucketVal>
    requires o < n <= |mem| && |mem[o].slot| == 15 && (n < |mem| ==> |mem[n].slot| == 15)
  {
    var c := GrownMem(n, mem);
    c[o := Filled(c[o], l + 1, [])][n := Filled(c[n], l + 1, [])]
  }

  lemma GrownRewrite(m: seq<BucketVal>, n: nat, o: nat, a: BucketVal, b: BucketVal)
    requires o < n <= |m|
    ensures GrownMem(n, m)[o] == m[o]
    ensures |GrownMem(n, m[o := a])| == |GrownMem(n, m)| > n && GrownMem(n, m[o := a])[n] == GrownMem(n, m)[n]
    ensures GrownMem(n, m[o := a])[o := b] == GrownMem(n, m)[o := b]
  {
    assert m[o := a] + seq(16, i => Blank()) == (m + seq(16, i => Blank()))[o := a];
  }

  /** The index half way through a split: the directory is doubled if the bucket uses all its bits,
      the bucket is empty, and a new empty bucket of the same depth is in use. */
  ghost function BegunIndex(t: Index, b: nat, l: nat): Index
    requires b < |t.ids| && t.ids[b] < t.next <= |t.mem|
    requires |t.mem[t.ids[b]].slot| == 15 && (t.next < |t.mem| ==> |t.mem[t.next].slot| == 15)
  {
    Index(OpenDepth(t.g, l), OpenIds(t.ids, t.g, l), BegunMem(t.mem, t.ids[b], t.next, l), t.next + 1)
  }

  ghost function BegunStore(t: Index, s: Store, l: nat): Store
    requires t.next <= |s.used|
  {
    Store(OpenAddresses(s.phys, t.g, l), OpenItems(s.phys, s.filed, t.g, l),
          GrownBits(t.next, s.used)[t.next := true], GrownCopies(t.next, s.mirror))
  }

  ghost function FinishedStore(s: Store, d: Index, v: Division, to: nat): Store
    requires to < |s.phys| && v.o < |d.mem| && v.n < |d.mem| && |s.used| == |s.mirror| == |d.mem|
  {
    Store(s.phys[to := Addr(v.n)], RedirectedItems(s.filed, |d.ids|, v.Modulus(), v.leave, Addr(v.n)),
          s.used[v.n := true][v.o := true],
          s.mirror[v.n := MirrorOf(d.mem[v.n])][v.o := MirrorOf(d.mem[v.o])])
  }

  /** The division that a split of the bucket of entry b, of depth l, carries out. */
  ghost function DivisionOf(t: Index, b: nat, l: nat): Division
    requires b < |t.ids| && t.ids[b] < t.next <= |t.mem|
  {
    DivisionAt(t.ids, GrownMem(t.next, t.mem), t.next, b, l)
  }

  lemma BegunFacts(t: Index, b: nat, l: nat)
    requires b < |t.ids| && t.ids[b] < t.next <= |t.mem|
    requires |t.mem[t.ids[b]].slot| == 15 && (t.next < |t.mem| ==> |t.mem[t.next].slot| == 15)
    ensures var u, v := BegunIndex(t, b, l), DivisionOf(t, b, l);
      && v.o == t.ids[b] && v.n == t.next && v.depth == l + 1 && v.o < v.n < |u.mem|
      && |v.was.slot| == |v.spare.slot| == 15
      && u.mem[v.o] == Filled(v.was, v.depth, []) && u.mem[v.n] == Filled(v.spare, v.depth, [])
      && u.ids == OpenIds(t.ids, t.g, l) && u.g == OpenDepth(t.g, l)
  {
  }

  lemma SplitBounds(t: Index, s: Store, b: nat)
    requires Sound(t, s) && b < |t.ids| && t.At(b).Full()
    ensures var l, g := t.At(b).depth, GrownMem(t.next, t.mem);
      && t.ids[b] < t.next < |g| && g[t.ids[b]] == t.mem[t.ids[b]]
      && DivisionOf(t, b, l).Wf() && Buddy(b, l) < |s.Prepared(t, b).phys|
      && BegunIndex(t, b, l).ids == t.Prepared(b).ids && BegunIndex(t, b, l).g == t.Prepared(b).g
      && |BegunIndex(t, b, l).mem| == |g| && t.Prepared(b).mem == g && t.Prepared(b).next == t.next
      && t.Prepared(b).ids[b] == t.ids[b]
  {
    hide Pow2, Buddy, Filled;
    PreparedConsistent(t, b);
    PreparedFits(t, s, b);
    BuddyRange(b, t.At(b).depth, t.Prepared(b).g);
    BuddyResidue(b, t.At(b).depth);
  }

  lemma FinishTwice(mem: seq<BucketVal>, v: Division, kvs: seq<KV>, a: BucketVal, b: BucketVal)
    requires v.Wf() && v.o < |mem| && v.n < |mem| && |kvs| <= 15
    ensures FinishedMem(mem[v.o := a][v.n := b], v, kvs) == FinishedMem(mem, v, kvs)
  {
    hide Select, Pow2, Filled;
    Overwrite(mem, v.o, v.n, a, b, Filled(v.was, v.depth, Select(kvs, v.Modulus(), v.stay)),
              Filled(v.spare, v.depth, Select(kvs, v.Modulus(), v.leave)));
  }

  /** The two halves make up the split. */
  lemma SplitInHalves(t: Index, s: Store, b: nat)
    requires Sound(t, s) && b < |t.ids| && t.At(b).Full()
    ensures var l, g := t.At(b).depth, GrownMem(t.next, t.mem); var v := DivisionOf(t, b, l);
      && v.o == t.ids[b] && v.n == t.next && v.o < v.n < |g| && v.Wf() && v.leave == Buddy(b, l) % v.Modulus()
      && Buddy(b, l) < |s.Prepared(t, b).phys|
      && BegunIndex(t, b, l).ids == t.Prepared(b).ids && BegunIndex(t, b, l).g == t.Prepared(b).g
      && |BegunIndex(t, b, l).mem| == |g|
      && t.Split(b) == FinishedIndex(BegunIndex(t, b, l), v, t.mem[v.o].slot)
  {
    hide FinishedMem, DivisionAt, Filled, GrownMem, Index.Prepared;
    SplitBounds(t, s, b);
    PreparedConsistent(t, b);
    var g, v := GrownMem(t.next, t.mem), DivisionOf(t, b, t.At(b).depth);
    DivisionParts(t.ids, g, t.next, b, t.At(b).depth);
    DivisionFollows(t.Prepared(b).ids, t.ids, g, t.next, b, t.At(b).depth);
    FinishTwice(g, v, t.mem[v.o].slot, Filled(g[v.o], v.depth, []), Filled(g[v.n], v.depth, []));
  }

  lemma DivisionParts(ids: seq<nat>, mem: seq<BucketVal>, n: nat, b: nat, l: nat)
    requires b < |ids| && ids[b] < |mem| && n < |mem|
    ensures var v := DivisionAt(ids, mem, n, b, l); v.o == ids[b] && v.n == n && v.depth == l + 1
    ensures var v := DivisionAt(ids, mem, n, b, l); v.leave == Buddy(b, l) % v.Modulus()
  {
  }

  lemma DivisionFollows(ids: seq<nat>, ids': seq<nat>, mem: seq<BucketVal>, n: nat, b: nat, l: nat)
    requires b < |ids| && b < |ids'| && ids[b] == ids'[b] < |mem| && n < |mem|
    ensures DivisionAt(ids, mem, n, b, l) == DivisionAt(ids', mem, n, b, l)
  {
  }

  lemma SplitStoreInHalves(t: Index, s: Store, b: nat)
    requires Sound(t, s) && b < |t.ids| && t.At(b).Full()
    ensures var l := t.At(b).depth; var u, v := BegunStore(t, s, l), DivisionOf(t, b, l);
      && Buddy(b, l) < |u.phys| <= |u.filed| && |u.phys| == |t.Prepared(b).ids|
      && |u.used| == |u.mirror| == |t.Split(b).mem| && v.o < v.n < |u.used|
      && Split(t, s, b) == FinishedStore(u, t.Split(b), v, Buddy(b, l))
  {
    PreparedConsistent(t, b);
    PreparedFits(t, s, b);
    var p, n := t.Prepared(b), t.next;
    BuddyRange(b, t.At(b).depth, p.g);
    OverwriteSame(GrownBits(n, s.used), n, true);
  }

  lemma Overwrite<T>(s: seq<T>, o: nat, n: nat, a: T, b: T, c: T, d: T)
    requires o < |s| && n < |s| && o != n
    ensures s[o := a][n := b][o := c][n := d] == s[o := c][n := d]
  {
  }

  lemma OverwriteSame<T>(s: seq<T>, n: nat, a: T)
    requires n < |s|
    ensures s[n := a][n := a] == s[n := a]
  {
  }

  /** The directory leads the key to the new bucket or the old one, according to its residue class. */
  ghost predicate Reaches(ids: seq<nat>, g: nat, key: uint64, v: Division) {
    && (key % v.Modulus() == v.stay || key % v.Modulus() == v.leave)
    && key % Pow2(g) < |ids|
    && ids[key % Pow2(g)] == if key % v.Modulus() == v.leave then v.n else v.o
  }

  /** It will, once the entries of the leaving class have been redirected. */
  ghost predicate Leads(ids: seq<nat>, g: nat, key: uint64, v: Division) {
    Reaches(Redirected(ids, v.Modulus(), v.leave, v.n), g, key, v)
  }

  lemma SplitReaches(t: Index, b: nat, i: nat)
    requires t.Inv() && b < |t.ids| && t.At(b).Full() && i < 15
    ensures t.ids[b] < t.next <= |t.mem|
    ensures Leads(t.Prepared(b).ids, t.Prepared(b).g, t.At(b).slot[i].key, DivisionOf(t, b, t.At(b).depth))
  {
    PreparedConsistent(t, b);
    var p, key, l := t.Prepared(b), t.At(b).slot[i].key, t.At(b).depth;
    HomeOfKey(t, b, i);
    var h := p.Hash(key);
    DividedEntry(p, b, h);
    ModMod(key, l + 1, p.g);
    assert p.ids[h] == t.ids[b];
  }

  /** What a split will do once the directory tells its two classes apart. */
  ghost predicate SplitPlan(t: Index, s: Store, b: nat, l: nat, v: Division) {
    && b < |t.ids| && t.ids[b] < t.next <= |t.mem| && |t.mem[t.ids[b]].slot| == 15
    && v.Wf() && v == DivisionOf(t, b, l) && v.leave == Buddy(b, l) % v.Modulus()
    && Buddy(b, l) < |OpenIds(t.ids, t.g, l)| <= |OpenItems(s.phys, s.filed, t.g, l)|
    && forall i: nat {:trigger t.mem[t.ids[b]].slot[i]} :: i < 15 ==>
         Leads(OpenIds(t.ids, t.g, l), OpenDepth(t.g, l), t.mem[t.ids[b]].slot[i].key, v)
  }

  lemma SplitPlanned(t: Index, s: Store, b: nat)
    requires Sound(t, s) && b < |t.ids| && t.At(b).Full()
    ensures SplitPlan(t, s, b, t.At(b).depth, DivisionOf(t, b, t.At(b).depth))
  {
    hide Leads, DivisionOf, FinishedIndex, FinishedStore, Index.Split, Split;
    SplitFacts(t, s, b);
    SplitInHalves(t, s, b);
    SplitStoreInHalves(t, s, b);
    var l := t.At(b).depth;
    forall i: nat | i < 15
      ensures Leads(OpenIds(t.ids, t.g, l), OpenDepth(t.g, l), t.mem[t.ids[b]].slot[i].key, DivisionOf(t, b, l))
    {
      SplitReaches(t, b, i);
    }
  }

  // ----- Operations -----

  /** Page copies written while the split loop makes room for a key. */
  ghost function MakeRoomStore(t: Index, s: Store, key: uint64): (r: Store)
    requires t.Inv() && s.Fits(t)
    ensures r.Fits(MakeRoom(t, key))
    ensures s.BitsRight(t) ==> r.BitsRight(MakeRoom(t, key))
    ensures s.Exact(t) ==> r.Exact(MakeRoom(t, key))
    decreases 61 - t.At(t.Hash(key)).depth
  {
    var b := t.Hash(key);
    if t.At(b).Full() then
      FullBucketDepth(t, b);
      SplitStoreKeeps(t, s, b);
      SplitDeepens(t, key);
      MakeRoomStore(t.Split(b), Split(t, s, b), key)
    else s
  }

  /** The copy of bucket k on its page, rewritten from the bucket. */
  ghost function Copied(s: Store, t: Index, k: nat): Store
    requires s.Fits(t) && k < |t.mem|
  {
    s.(mirror := s.mirror[k := MirrorOf(t.mem[k])])
  }

  ghost function InsertStore(t: Index, s: Store, key: uint64, value: uint64): Store
    requires t.Inv() && s.Fits(t)
  {
    if t.Lookup(key).Some? then s
    else
      var n := InsertNew(t, key, value);
      Copied(MakeRoomStore(t, s, key), n, n.ids[n.Hash(key)])
  }

  /** Bucket number of the first slot of the page of bucket k: the page copy that removal and
      update write to. */
  function PageHead(k: nat): nat {
    k / 16 * 16
  }

  /** Bit i cleared in the copy of the first bucket of the page of bucket k. */
  ghost function HeadCleared(m: seq<MirrorVal>, k: nat, i: nat): (r: seq<MirrorVal>)
    requires k < |m| && i < |m[PageHead(k)].live|
    ensures |r| == |m|
  {
    var z := PageHead(k);
    m[z := MirrorVal(m[z].live[i := false], m[z].kv)]
  }

  /** The value stored in the copy of the first bucket of the page of bucket k, at the position
      given by the index of bucket k within the page; position 15 is behind the last pair. */
  ghost function HeadStored(m: seq<MirrorVal>, k: nat, value: uint64): (r: seq<MirrorVal>)
    requires k < |m| && |m[PageHead(k)].kv| == 15
    ensures |r| == |m|
  {
    var z, j := PageHead(k), k % 16;
    if j == 15 then m else m[z := MirrorVal(m[z].live, m[z].kv[j := KV(m[z].kv[j].key, value)])]
  }

  /** Removal clears the bit in the copy of the first bucket of the page. */
  ghost function RemoveStore(t: Index, s: Store, key: uint64): Store
    requires t.Inv() && s.Fits(t)
  {
    var k := t.ids[t.Hash(key)];
    var i := t.mem[k].FindFrom(key, 0);
    if i == 15 then s else Store(s.phys, s.filed, s.used, HeadCleared(s.mirror, k, i))
  }

  /** Update writes the value to the copy of the first bucket of the page. */
  ghost function UpdateStore(t: Index, s: Store, key: uint64, value: uint64): Store
    requires t.Inv() && s.Fits(t)
  {
    var k := t.ids[t.Hash(key)];
    var i := t.mem[k].FindFrom(key, 0);
    if i == 15 then s else Store(s.phys, s.filed, s.used, HeadStored(s.mirror, k, value))
  }

  /** Every key has a well-formed bucket in use. */
  lemma KeyInRange(t: Index, s: Store, key: uint64)
    requires Sound(t, s)
    ensures t.Hash(key) < |t.ids| && t.ids[t.Hash(key)] < t.next <= |t.mem|
    ensures t.mem[t.ids[t.Hash(key)]].Wf()
  {
  }

  lemma HitEffect(t: Index, s: Store, key: uint64, value: uint64)
    requires Sound(t, s) && t.Lookup(key).Some?
    ensures Insert(t, key, value) == t && InsertStore(t, s, key, value) == s
  {
  }

  lemma MissEffect(t: Index, s: Store, key: uint64, value: uint64)
    requires Sound(t, s) && t.Lookup(key) == None
    ensures Remove(t, key) == t && RemoveStore(t, s, key) == s
    ensures Update(t, key, value) == t && UpdateStore(t, s, key, value) == s
  {
  }

  lemma RemoveEffect(t: Index, s: Store, key: uint64)
    requires t.Inv() && s.Fits(t) && t.Lookup(key).Some?
    ensures var k := t.ids[t.Hash(key)]; var i := t.mem[k].FindFrom(key, 0);
      && k < t.next && i < 15
      && Remove(t, key) == Index(t.g, t.ids, t.mem[k := t.mem[k].Drop(i)], t.next)
      && RemoveStore(t, s, key) == Store(s.phys, s.filed, s.used, HeadCleared(s.mirror, k, i))
  {
  }

  lemma UpdateEffect(t: Index, s: Store, key: uint64, value: uint64)
    requires t.Inv() && s.Fits(t) && t.Lookup(key).Some?
    ensures var k := t.ids[t.Hash(key)]; var i := t.mem[k].FindFrom(key, 0);
      && k < t.next && i < 15
      && Update(t, key, value) == Index(t.g, t.ids, t.mem[k := t.mem[k].Store(i, value)], t.next)
      && UpdateStore(t, s, key, value) == Store(s.phys, s.filed, s.used, HeadStored(s.mirror, k, value))
  {
  }

  lemma InsertEffect(t: Index, s: Store, key: uint64, value: uint64)
    requires Sound(t, s) && t.Lookup(key) == None
    ensures var r := MakeRoom(t, key); var h := r.Hash(key);
      h < |r.ids| && r.ids[h] < r.next <= |r.mem| && r.mem[r.ids[h]].Wf() && r.mem[r.ids[h]].FreeFrom(0) < 15
    ensures var r := MakeRoom(t, key); var k := r.ids[r.Hash(key)]; var i := r.mem[k].FreeFrom(0);
      && Insert(t, key, value) == Index(r.g, r.ids, r.mem[k := r.mem[k].Put(i, KV(key, value))], r.next)
    ensures var r, u := MakeRoom(t, key), MakeRoomStore(t, s, key); var k := r.ids[r.Hash(key)];
      && k < |u.mirror|
      && InsertStore(t, s, key, value) ==
           Store(u.phys, u.filed, u.used, u.mirror[k := MirrorOf(Insert(t, key, value).mem[k])])
    ensures Sound(Insert(t, key, value), InsertStore(t, s, key, value))
  {
    InsertStoreKeeps(t, s, key, value);
  }

  ghost function ApplyStore(t: Index, s: Store, op: Op): Store
    requires t.Inv() && s.Fits(t)
  {
    match op
    case DoInsert(k, v) => InsertStore(t, s, k, v)
    case DoRemove(k) => RemoveStore(t, s, k)
    case DoUpdate(k, v) => UpdateStore(t, s, k, v)
    case DoSearch(k) => s
  }

  /** The bucket of one entry changes and is copied to its page. */
  lemma CopiedKeeps(t: Index, s: Store, h: nat, c: BucketVal)
    requires t.Shape() && s.BitsRight(t) && h < |t.ids| && c.Wf()
    ensures Copied(s, Replaced(t, h, c), t.ids[h]).BitsRight(Replaced(t, h, c))
    ensures s.Exact(t) ==> Copied(s, Replaced(t, h, c), t.ids[h]).Exact(Replaced(t, h, c))
  {
  }

  lemma RoomTaken(t: Index, p: KV)
    requires t.Inv() && !t.At(t.Hash(p.key)).Full()
    ensures var h := t.Hash(p.key);
      && t.Shape() && h < |t.ids| && t.At(h).Wf() && t.At(h).FreeFrom(0) < 15
      && t.At(h).Put(t.At(h).FreeFrom(0), p).Wf()
  {
  }

  lemma InsertNewStoreKeeps(t: Index, s: Store, key: uint64, value: uint64)
    requires t.Inv() && s.BitsRight(t) && t.Lookup(key) == None
    ensures InsertStore(t, s, key, value).BitsRight(InsertNew(t, key, value))
    ensures s.Exact(t) ==> InsertStore(t, s, key, value).Exact(InsertNew(t, key, value))
  {
    hide MakeRoom, MakeRoomStore, Store.Exact, Copied, Index.Lookup, Index.Inv;
    var r := MakeRoom(t, key);
    var h := r.Hash(key);
    RoomTaken(r, KV(key, value));
    CopiedKeeps(r, MakeRoomStore(t, s, key), h, r.At(h).Put(r.At(h).FreeFrom(0), KV(key, value)));
  }

  lemma InsertStoreKeeps(t: Index, s: Store, key: uint64, value: uint64)
    requires t.Inv() && s.BitsRight(t)
    ensures Insert(t, key, value).Inv()
    ensures InsertStore(t, s, key, value).BitsRight(Insert(t, key, value))
    ensures s.Exact(t) ==> InsertStore(t, s, key, value).Exact(Insert(t, key, value))
  {
    hide InsertNew, Index.Lookup, Store.Exact;
    InsertKeeps(t, key, value);
    if t.Lookup(key) == None {
      InsertNewStoreKeeps(t, s, key, value);
    }
  }

  /** The page bitmaps stay right under every operation. */
  lemma ApplyStoreBits(t: Index, s: Store, op: Op)
    requires t.Inv() && s.BitsRight(t)
    ensures Apply(t, op).Inv() && ApplyStore(t, s, op).BitsRight(Apply(t, op))
  {
    ApplyKeeps(t, op);
    match op
    case DoInsert(k, v) => InsertStoreKeeps(t, s, k, v);
    case DoRemove(k) =>
    case DoUpdate(k, v) =>
    case DoSearch(k) =>
  }

  /** After a removal that hits, the page copies are exact again if and only if the bucket is the
      first one of its page. */
  lemma RemoveExactness(t: Index, s: Store, key: uint64)
    requires t.Inv() && s.Exact(t) && t.Lookup(key).Some?
    ensures Remove(t, key).Inv()
    ensures RemoveStore(t, s, key).Exact(Remove(t, key)) <==> t.ids[t.Hash(key)] % 16 == 0
  {
    RemoveKeeps(t, key);
    var k := t.ids[t.Hash(key)];
    var i := t.mem[k].FindFrom(key, 0);
    var n, e := Remove(t, key), RemoveStore(t, s, key);
    if k % 16 == 0 {
      assert e.mirror[k] == MirrorOf(n.mem[k]);
    } else {
      assert PageHead(k) != k;
      assert e.mirror[k].live[i] && !n.mem[k].live[i];
    }
  }

  /** After an update that hits, the page copies are exact again if and only if the bucket and the
      slot are the first ones of the page, or the table already held the value at both places:
      in the slot, and (unless the bucket is the last of its page) in the pair written instead. */
  lemma UpdateExactness(t: Index, s: Store, key: uint64, value: uint64)
    requires t.Inv() && s.Exact(t) && t.Lookup(key).Some?
    ensures Update(t, key, value).Inv()
    ensures var k := t.ids[t.Hash(key)]; var i := t.mem[k].FindFrom(key, 0);
      UpdateStore(t, s, key, value).Exact(Update(t, key, value)) <==>
        (|| (k % 16 == 0 && i == 0)
         || (t.Lookup(key) == Some(value) && (k % 16 == 15 || t.mem[PageHead(k)].slot[k % 16].value == value)))
  {
    hide Index.Depths, Index.Sharing, Index.Placed, Index.Allocated, Index.Attained;
    UpdateKeeps(t, key, value);
    var k := t.ids[t.Hash(key)];
    var i := t.mem[k].FindFrom(key, 0);
    var z := PageHead(k);
    var n, e := Update(t, key, value), UpdateStore(t, s, key, value);
    assert s.mirror[k] == MirrorOf(t.mem[k]) && s.mirror[z] == MirrorOf(t.mem[z]);
    assert e.Exact(n) <==> e.mirror[k] == MirrorOf(n.mem[k]) && e.mirror[z] == MirrorOf(n.mem[z]) by {
      assert forall q: nat {:trigger n.mem[q]} :: q < |n.mem| && q != k ==> n.mem[q] == t.mem[q];
      assert forall q: nat {:trigger e.mirror[q]} :: q < |n.mem| && q != z ==> e.mirror[q] == s.mirror[q];
    }
    UpdateMirror(t.mem[k].slot, t.mem[z].slot, i, k % 16, value);
    assert n.mem[k].slot == t.mem[k].slot[i := KV(key, value)];
    if k % 16 == 0 {
      assert e.mirror[k].kv == t.mem[k].slot[0 := KV(t.mem[k].slot[0].key, value)];
    } else if k % 16 < 15 {
      assert e.mirror[z].kv == t.mem[z].slot[k % 16 := KV(t.mem[z].slot[k % 16].key, value)];
    }
  }

  lemma UpdateMirror(own: seq<KV>, head: seq<KV>, i: nat, j: nat, value: uint64)
    requires |own| == |head| == 15 && i < 15 && j < 16
    ensures own[i := KV(own[i].key, value)] == own <==> own[i].value == value
    ensures j < 15 ==> (head[j := KV(head[j].key, value)] == head <==> head[j].value == value)
    ensures own[i := KV(own[i].key, value)] == own[0 := KV(own[0].key, value)] <==>
      i == 0 || (own[i].value == value && own[0].value == value)
  {
    var a, b := own[i := KV(own[i].key, value)], own[0 := KV(own[0].key, value)];
    if a == own {
      assert a[i] == own[i];
    }
    if j < 15 {
      var c := head[j := KV(head[j].key, value)];
      assert c == head ==> c[j] == head[j];
    }
    if a == b && i != 0 {
      assert a[i] == b[i] && a[0] == b[0];
    }
  }

  lemma SplitSound(t: Index, s: Store, b: nat)
    requires Sound(t, s) && b < |t.ids| && t.At(b).Full()
    ensures Sound(t.Split(b), Split(t, s, b))
  {
    FullBucketDepth(t, b);
    SplitStoreKeeps(t, s, b);
  }

  /** One or more turns into the split loop for a key, which started at t0 and s0: the loop will
      end where it would have ended from the start; d is the depth of the bucket of the key. */
  ghost predicate Rooming(t0: Index, s0: Store, t: Index, s: Store, key: uint64, full: bool, d: nat) {
    && Sound(t0, s0) && Sound(t, s)
    && MakeRoom(t, key) == MakeRoom(t0, key)
    && MakeRoomStore(t, s, key) == MakeRoomStore(t0, s0, key)
    && full == t.At(t.Hash(key)).Full()
    && d == t.At(t.Hash(key)).depth <= 61
  }

  lemma RoomStart(t: Index, s: Store, key: uint64)
    requires Sound(t, s)
    ensures t.Hash(key) < |t.ids| && t.ids[t.Hash(key)] < t.next <= |t.mem|
    ensures var c := t.mem[t.ids[t.Hash(key)]]; c.Wf() && Rooming(t, s, t, s, key, c.Full(), c.depth)
  {
    assert t.At(t.Hash(key)).depth <= t.g;
  }

  /** One turn of the split loop. */
  lemma RoomStep(t0: Index, s0: Store, t: Index, s: Store, key: uint64, d: nat)
    requires Rooming(t0, s0, t, s, key, true, d)
    ensures Sound(t, s) && t.At(t.Hash(key)).Full()
    ensures var t', s' := t.Split(t.Hash(key)), Split(t, s, t.Hash(key)); var h := t'.Hash(key);
      && h < |t'.ids| && t'.ids[h] < t'.next <= |t'.mem| && t'.mem[t'.ids[h]].Wf()
      && Rooming(t0, s0, t', s', key, t'.mem[t'.ids[h]].Full(), d + 1)
      && d < 61
  {
    FullBucketDepth(t, t.Hash(key));
    SplitSound(t, s, t.Hash(key));
    SplitDeepens(t, key);
  }

  lemma RoomEnd(t0: Index, s0: Store, t: Index, s: Store, key: uint64, d: nat)
    requires Rooming(t0, s0, t, s, key, false, d)
    ensures Sound(t0, s0) && Sound(t, s) && t.Hash(key) < |t.ids|
    ensures t == MakeRoom(t0, key) && s == MakeRoomStore(t0, s0, key)
  {
  }

  lemma ApplySound(t: Index, s: Store, op: Op)
    requires Sound(t, s)
    ensures Sound(Apply(t, op), ApplyStore(t, s, op))
  {
    ApplyStoreBits(t, s, op);
  }

  // ----- Runs -----

  ghost function RunStore(t: Index, s: Store, ops: seq<Op>): (r: Store)
    requires t.Inv() && s.BitsRight(t)
    ensures r.BitsRight(Run(t, ops))
    decreases |ops|
  {
    if ops == [] then s
    else
      ApplyStoreBits(t, s, ops[0]);
      RunStore(Apply(t, ops[0]), ApplyStore(t, s, ops[0]), ops[1..])
  }

  /** The state t', s' is reached by the first i operations, which were answered by rs: what the
      rest will do from there is what all of them do from the start. */
  ghost predicate Reached(t: Index, s: Store, ops: seq<Op>, i: nat, t': Index, s': Store, rs: seq<Reply>) {
    && i <= |ops| && Sound(t, s) && Sound(t', s')
    && Run(t', ops[i..]) == Run(t, ops)
    && RunStore(t', s', ops[i..]) == RunStore(t, s, ops)
    && rs + Replies(t', ops[i..]) == Replies(t, ops)
  }

  lemma ReachedStep(t: Index, s: Store, ops: seq<Op>, i: nat, t': Index, s': Store, rs: seq<Reply>)
    requires i < |ops| && Reached(t, s, ops, i, t', s', rs)
    ensures Sound(t', s')
    ensures Reached(t, s, ops, i + 1, Apply(t', ops[i]), ApplyStore(t', s', ops[i]), rs + [Answer(t', ops[i])])
  {
    ApplySound(t', s', ops[i]);
    assert ops[i..][1..] == ops[i + 1..];
    var rest := Replies(Apply(t', ops[i]), ops[i + 1..]);
    assert rs + [Answer(t', ops[i])] + rest == rs + ([Answer(t', ops[i])] + rest);
  }

  lemma ReachedAll(t: Index, s: Store, ops: seq<Op>, t': Index, s': Store, rs: seq<Reply>)
    requires Reached(t, s, ops, |ops|, t', s', rs)
    ensures Sound(t, s) && t' == Run(t, ops) && s' == RunStore(t, s, ops) && rs == Replies(t, ops)
  {
    assert ops[|ops|..] == [];
  }

  /** The directory never has more than 2^61 entries: on every run the global depth is at most 61. */
  lemma {:induction false} RunSound(t: Index, s: Store, ops: seq<Op>)
    requires Sound(t, s)
    ensures Sound(Run(t, ops), RunStore(t, s, ops)) && Run(t, ops).g <= 61
    decreases |ops|
  {
    if ops == [] {
    } else {
      ApplySound(t, s, ops[0]);
      RunSound(Apply(t, ops[0]), ApplyStore(t, s, ops[0]), ops[1..]);
    }
  }

  ghost function FreshBits(n: nat): (u: seq<bool>)
    ensures |u| == 16 && forall k :: 0 <= k < 16 ==> (u[k] <==> k < n)
  {
    seq(16, k => k < n)
  }

  ghost function FreshItems(n: nat): (a: seq<PmAddress>)
    ensures |a| == 512 && forall k: nat :: k < 512 ==> a[k] == if k < n then Addr(k) else PmAddress(0, 0)
  {
    seq(512, k requires 0 <= k < 512 => if k < n then Addr(k) else PmAddress(0, 0))
  }

  ghost function FreshStore(): Store {
    Store([Addr(0), Addr(1)], Refiled([Addr(0), Addr(1)]),
          FreshBits(2), seq(16, i => BlankMirror()))
  }

  lemma FreshStoreRight()
    ensures Fresh().Inv()
    ensures FreshStore().BitsRight(Fresh()) && FreshStore().Exact(Fresh())
    ensures FreshStore().AddressesRight(Fresh()) && FreshStore().FiledRight()
  {
    FreshInv();
  }

  lemma {:induction false} InsertRunExact(t: Index, s: Store, ops: seq<Op>)
    requires t.Inv() && s.BitsRight(t) && s.Exact(t)
    requires forall i :: 0 <= i < |ops| ==> ops[i].DoInsert? || ops[i].DoSearch?
    ensures RunStore(t, s, ops).Exact(Run(t, ops))
    decreases |ops|
  {
    if ops == [] {
    } else {
      ApplyStoreBits(t, s, ops[0]);
      if ops[0].DoInsert? {
        InsertStoreKeeps(t, s, ops[0].key, ops[0].value);
      }
      InsertRunExact(Apply(t, ops[0]), ApplyStore(t, s, ops[0]), ops[1..]);
    }
  }

  /** On every run of insertions and searches from the fresh table each bucket, used or free,
      equals its copy on its page; on every run at all the page bitmaps tell the used buckets. */
  lemma PagesFollowRuns(ops: seq<Op>)
    ensures Fresh().Inv() && FreshStore().BitsRight(Fresh())
    ensures RunStore(Fresh(), FreshStore(), ops).BitsRight(Run(Fresh(), ops))
    ensures (forall i :: 0 <= i < |ops| ==> ops[i].DoInsert? || ops[i].DoSearch?) ==>
      RunStore(Fresh(), FreshStore(), ops).Exact(Run(Fresh(), ops))
  {
    FreshStoreRight();
    if forall i :: 0 <= i < |ops| ==> ops[i].DoInsert? || ops[i].DoSearch? {
      InsertRunExact(Fresh(), FreshStore(), ops);
    }
  }
}
