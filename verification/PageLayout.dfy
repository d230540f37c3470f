/** The data pages and the catalog files as they lie in the mapped files: arrays of structures
    indexed by file, read as flat sequences indexed by bucket number and by directory entry. */
module PageLayout {
  import opened BitOps
  import opened Bitmaps
  import opened Buckets
  import opened HashIndex
  import opened HashRuns
  import opened PageStore

  /** The copy of one bucket inside a data page. */
  datatype PageBucket = PageBucket(bitmap0: bv8, bitmap1: bv8, kv: seq<KV>)

  /** A data page: sixteen allocation bits and sixteen bucket copies. */
  datatype DataPage = DataPage(bitmap: bv16, pageBucket: seq<PageBucket>)

  /** A catalog file: 512 items. */
  type CatalogPage = seq<PmAddress>

  ghost function CopyVal(p: PageBucket): MirrorVal {
    MirrorVal(Bits(p.bitmap0, p.bitmap1), p.kv)
  }

  /** A newly mapped data page is zero. */
  function ZeroPage(): (p: DataPage)
    ensures |p.pageBucket| == 16
  {
    DataPage(0, seq(16, i => PageBucket(0, 0, seq(15, j => KV(0, 0)))))
  }

  /** A newly mapped catalog file is zero. */
  function ZeroCatalog(): (c: CatalogPage)
    ensures |c| == 512
  {
    seq(512, i => PmAddress(0, 0))
  }

  ghost predicate Pages(pages: seq<DataPage>) {
    forall f :: 0 <= f < |pages| ==> |pages[f].pageBucket| == 16
  }

  ghost predicate Catalogs(files: seq<CatalogPage>) {
    forall f :: 0 <= f < |files| ==> |files[f]| == 512
  }

  /** Bit of bucket k: page k / 16, position k % 16. */
  ghost function UsedBits(pages: seq<DataPage>): (u: seq<bool>)
    ensures |u| == 16 * |pages|
  {
    seq(16 * |pages|, k requires 0 <= k < 16 * |pages| => PageBits(pages[k / 16].bitmap)[k % 16])
  }

  /** Copy of bucket k: page k / 16, position k % 16. */
  ghost function Copies(pages: seq<DataPage>): (m: seq<MirrorVal>)
    requires Pages(pages)
    ensures |m| == 16 * |pages|
  {
    seq(16 * |pages|, k requires 0 <= k < 16 * |pages| => CopyVal(pages[k / 16].pageBucket[k % 16]))
  }

  /** Catalog item i: file i / 512, position i % 512. */
  ghost function Items(files: seq<CatalogPage>): (a: seq<PmAddress>)
    requires Catalogs(files)
    ensures |a| == 512 * |files|
  {
    seq(512 * |files|, i requires 0 <= i < 512 * |files| => files[i / 512][i % 512])
  }

  function WithCopy(pages: seq<DataPage>, fid: nat, j: nat, p: PageBucket): seq<DataPage>
    requires fid < |pages| && j < |pages[fid].pageBucket|
  {
    pages[fid := pages[fid].(pageBucket := pages[fid].pageBucket[j := p])]
  }

  lemma WithCopyEffect(pages: seq<DataPage>, fid: nat, j: nat, p: PageBucket)
    requires Pages(pages) && fid < |pages| && j < 16
    ensures Pages(WithCopy(pages, fid, j, p))
    ensures Copies(WithCopy(pages, fid, j, p)) == Copies(pages)[16 * fid + j := CopyVal(p)]
    ensures UsedBits(WithCopy(pages, fid, j, p)) == UsedBits(pages)
  {
    var n := WithCopy(pages, fid, j, p);
    forall k | 0 <= k < 16 * |pages|
      ensures Copies(n)[k] == Copies(pages)[16 * fid + j := CopyVal(p)][k] && UsedBits(n)[k] == UsedBits(pages)[k]
    {
      if k / 16 == fid {
        assert k == 16 * fid + k % 16;
      }
    }
  }

  /** The pages differ at most in the first bucket copy of page f. */
  ghost predicate OnlyHead(was: seq<DataPage>, now: seq<DataPage>, f: nat) {
    && f < |was| == |now| && Pages(was) && Pages(now)
    && (forall g {:trigger now[g].bitmap} :: 0 <= g < |was| ==> now[g].bitmap == was[g].bitmap)
    && (forall g, j {:trigger now[g].pageBucket[j]} :: 0 <= g < |was| && 0 <= j < 16 && (g != f || j != 0) ==>
          now[g].pageBucket[j] == was[g].pageBucket[j])
  }

  /** Only the first copy of page f has changed: its bit s is clear now. */
  ghost predicate HeadBitCleared(was: seq<DataPage>, now: seq<DataPage>, f: nat, s: nat) {
    && OnlyHead(was, now, f)
    && var p, q := was[f].pageBucket[0], now[f].pageBucket[0];
      && q.kv == p.kv
      && forall i {:trigger Bits(q.bitmap0, q.bitmap1)[i]} :: 0 <= i < 16 ==>
           (Bits(q.bitmap0, q.bitmap1)[i] <==> i != s && Bits(p.bitmap0, p.bitmap1)[i])
  }

  /** Only the first copy of page f has changed: its pair number j has the value now, if there is one. */
  ghost predicate HeadValueStored(was: seq<DataPage>, now: seq<DataPage>, f: nat, j: nat, value: uint64) {
    && OnlyHead(was, now, f)
    && var p, q := was[f].pageBucket[0], now[f].pageBucket[0];
      && q.bitmap0 == p.bitmap0 && q.bitmap1 == p.bitmap1 && |q.kv| == |p.kv|
      && forall i {:trigger q.kv[i]} :: 0 <= i < |p.kv| ==>
           q.kv[i].key == p.kv[i].key && q.kv[i].value == if i == j then value else p.kv[i].value
  }

  function WithBit(pages: seq<DataPage>, fid: nat, j: nat): seq<DataPage>
    requires fid < |pages| && j < 16
  {
    pages[fid := pages[fid].(bitmap := SetWord(pages[fid].bitmap, WordMask(j)))]
  }

  lemma WithBitEffect(pages: seq<DataPage>, fid: nat, j: nat)
    requires Pages(pages) && fid < |pages| && j < 16
    ensures Pages(WithBit(pages, fid, j))
    ensures UsedBits(WithBit(pages, fid, j)) == UsedBits(pages)[16 * fid + j := true]
    ensures Copies(WithBit(pages, fid, j)) == Copies(pages)
  {
    hide SetWord;
    var n := WithBit(pages, fid, j);
    SetPageBit(pages[fid].bitmap, j);
    forall k | 0 <= k < 16 * |pages|
      ensures UsedBits(n)[k] == UsedBits(pages)[16 * fid + j := true][k] && Copies(n)[k] == Copies(pages)[k]
    {
      if k / 16 == fid {
        assert k == 16 * fid + k % 16;
      }
    }
  }

  lemma NewPageEffect(pages: seq<DataPage>)
    requires Pages(pages)
    ensures Pages(pages + [ZeroPage()])
    ensures UsedBits(pages + [ZeroPage()]) == UsedBits(pages) + seq(16, i => false)
    ensures Copies(pages + [ZeroPage()]) == Copies(pages) + seq(16, i => BlankMirror())
  {
    ZeroPageBits();
    FullValue();
    var n := pages + [ZeroPage()];
    forall k | 0 <= k < 16 * |n|
      ensures UsedBits(n)[k] == (UsedBits(pages) + seq(16, i => false))[k]
      ensures Copies(n)[k] == (Copies(pages) + seq(16, i => BlankMirror()))[k]
    {
      if k / 16 < |pages| {
        assert k < 16 * |pages|;
      } else {
        assert k - 16 * |pages| == k % 16;
      }
    }
  }

  /** The pages after the bit of bucket k is set. */
  function Marked(pages: seq<DataPage>, k: nat): (r: seq<DataPage>)
    requires Pages(pages) && k < 16 * |pages|
    ensures Pages(r) && |r| == |pages|
  {
    WithBit(pages, k / 16, k % 16)
  }

  /** The pages after bucket k has been copied to its place. */
  function Saved(pages: seq<DataPage>, k: nat, c: PageBucket): (r: seq<DataPage>)
    requires Pages(pages) && k < 16 * |pages|
    ensures Pages(r) && |r| == |pages|
  {
    WithCopy(pages, k / 16, k % 16, c)
  }

  /** One more page when all buckets are in use. */
  function GrownPages(next: nat, pages: seq<DataPage>): (r: seq<DataPage>)
    requires Pages(pages) && next <= 16 * |pages|
    ensures Pages(r) && next < 16 * |r|
  {
    if next == 16 * |pages| then pages + [ZeroPage()] else pages
  }

  lemma GrownEffect(next: nat, pages: seq<DataPage>)
    requires Pages(pages) && next <= 16 * |pages|
    ensures UsedBits(GrownPages(next, pages)) == GrownBits(next, UsedBits(pages))
    ensures Copies(GrownPages(next, pages)) == GrownCopies(next, Copies(pages))
  {
    NewPageEffect(pages);
  }

  lemma MarkedEffect(pages: seq<DataPage>, k: nat)
    requires Pages(pages) && k < 16 * |pages|
    ensures UsedBits(Marked(pages, k)) == UsedBits(pages)[k := true]
    ensures Copies(Marked(pages, k)) == Copies(pages)
  {
    WithBitEffect(pages, k / 16, k % 16);
  }

  lemma SavedEffect(pages: seq<DataPage>, k: nat, c: PageBucket)
    requires Pages(pages) && k < 16 * |pages|
    ensures UsedBits(Saved(pages, k, c)) == UsedBits(pages)
    ensures Copies(Saved(pages, k, c)) == Copies(pages)[k := CopyVal(c)]
  {
    WithCopyEffect(pages, k / 16, k % 16, c);
  }

  /** The pages after a split: a new bucket n in use, buckets n and o marked and copied. */
  function SplitPages(pages: seq<DataPage>, o: nat, n: nat, co: PageBucket, cn: PageBucket): (r: seq<DataPage>)
    requires Pages(pages) && o < 16 * |pages| && n < 16 * |pages|
    ensures Pages(r) && |r| == |pages|
  {
    Saved(Marked(Saved(Marked(pages, n), n, cn), o), o, co)
  }

  /** Bucket k lies at slot k % 16 of page k / 16. */
  ghost predicate CopyAt(pages: seq<DataPage>, k: nat, c: PageBucket) {
    k / 16 < |pages| && |pages[k / 16].pageBucket| == 16 && pages[k / 16].pageBucket[k % 16] == c
  }

  lemma SplitPagesCopies(pages: seq<DataPage>, o: nat, n: nat, co: PageBucket, cn: PageBucket)
    requires Pages(pages) && o < 16 * |pages| && n < 16 * |pages| && (o == n ==> co == cn)
    ensures CopyAt(SplitPages(pages, o, n, co, cn), o, co) && CopyAt(SplitPages(pages, o, n, co, cn), n, cn)
  {
    hide SetWord;
    assert o / 16 == n / 16 && o % 16 == n % 16 ==> o == n;
  }

  lemma SplitPagesEffect(pages: seq<DataPage>, o: nat, n: nat, co: PageBucket, cn: PageBucket)
    requires Pages(pages) && o < n <= 16 * |pages|
    ensures var r := SplitPages(Marked(GrownPages(n, pages), n), o, n, co, cn);
      var u, m := GrownBits(n, UsedBits(pages)), GrownCopies(n, Copies(pages));
      && n < |u| == |m|
      && UsedBits(r) == u[n := true][n := true][o := true]
      && Copies(r) == m[n := CopyVal(cn)][o := CopyVal(co)]
  {
    GrownEffect(n, pages);
    var g := GrownPages(n, pages);
    var a := Marked(g, n);
    MarkedEffect(g, n);
    MarkedEffect(a, n);
    SavedEffect(Marked(a, n), n, cn);
    var b := Saved(Marked(a, n), n, cn);
    MarkedEffect(b, o);
    SavedEffect(Marked(b, o), o, co);
  }

  function WithItem(files: seq<CatalogPage>, i: nat, a: PmAddress): seq<CatalogPage>
    requires i / 512 < |files| && |files[i / 512]| == 512
  {
    files[i / 512 := files[i / 512][i % 512 := a]]
  }

  lemma WithItemEffect(files: seq<CatalogPage>, i: nat, a: PmAddress)
    requires Catalogs(files) && i < 512 * |files|
    ensures Catalogs(WithItem(files, i, a))
    ensures Items(WithItem(files, i, a)) == Items(files)[i := a]
  {
    var n := WithItem(files, i, a);
    forall k | 0 <= k < 512 * |files|
      ensures Items(n)[k] == Items(files)[i := a][k]
    {
      if k / 512 == i / 512 {
        assert k == 512 * (k / 512) + k % 512 && i == 512 * (i / 512) + i % 512;
      }
    }
  }

  // ----- A fresh table -----

  /** Memory, pages and catalog of a fresh table whose first i directory entries have their bucket. */
  ghost predicate FreshSoFar(i: nat, mem: seq<BucketVal>, pages: seq<DataPage>, files: seq<CatalogPage>) {
    && |pages| == |files| == 1 && Pages(pages) && Catalogs(files)
    && mem == FreshMem(i) && UsedBits(pages) == FreshBits(i) && Items(files) == FreshItems(i)
    && Copies(pages) == seq(16, k => BlankMirror())
  }

  lemma FreshPage()
    ensures FreshSoFar(0, [] + seq(16, i => Blank()), [] + [ZeroPage()], [ZeroCatalog()])
  {
    NewPageEffect([]);
    assert [] + seq(16, i => Blank()) == FreshMem(0);
    assert UsedBits([]) + seq(16, i => false) == FreshBits(0);
    assert Copies([]) + seq(16, i => BlankMirror()) == seq(16, k => BlankMirror());
    assert Items([ZeroCatalog()]) == FreshItems(0);
  }

  lemma FreshStep(i: nat, mem: seq<BucketVal>, pages: seq<DataPage>, files: seq<CatalogPage>)
    requires FreshSoFar(i, mem, pages, files) && i < 2
    ensures GrownPages(i, pages) == pages && GrownMem(i, mem) == mem
    ensures |mem| == 16 && |mem[i].slot| == 15 && |pages| == |files| == 1
    ensures var m := mem[i := BucketVal(1, mem[i].live, mem[i].slot)];
      FreshSoFar(i + 1, m[i := Filled(m[i], 1, [])], Marked(pages, i), WithItem(files, i, Addr(i)))
  {
    MarkedEffect(pages, i);
    WithItemEffect(files, i, Addr(i));
    var m := mem[i := BucketVal(1, mem[i].live, mem[i].slot)];
    assert Filled(m[i], 1, []) == FirstVal();
    assert m[i := Filled(m[i], 1, [])] == FreshMem(i + 1);
    assert UsedBits(pages)[i := true] == FreshBits(i + 1);
    assert Items(files)[i := Addr(i)] == FreshItems(i + 1);
  }

  lemma FreshReached(mem: seq<BucketVal>, pages: seq<DataPage>, files: seq<CatalogPage>, a: seq<PmAddress>)
    requires FreshSoFar(2, mem, pages, files) && a == [Addr(0), Addr(1)]
    ensures Index(1, [0, 1], mem, 2) == Fresh()
    ensures Store(a, Items(files), UsedBits(pages), Copies(pages)) == FreshStore()
    ensures Sound(Fresh(), FreshStore())
  {
    FreshStoreRight();
    assert Items(files) == Refiled(a);
  }

  // ----- Writing the catalog of a doubled directory -----

  /** The two regimes: everything in one file, or whole files for both halves. */
  ghost predicate Regime(files: seq<CatalogPage>, a: seq<PmAddress>, size: nat) {
    && size > 0 && |a| == 2 * size
    && if size < 512 then 2 * size <= 512 && |files| == 1 else size % 512 == 0 && |files| == 2 * (size / 512)
  }

  /** File f has been mapped when items [0, lo) and [size, size + hi) are written. */
  ghost predicate Mapped(f: nat, size: nat, lo: nat, hi: nat) {
    512 * f < lo || size <= 512 * f < size + hi
  }

  ghost function Stored(a: seq<PmAddress>, size: nat, lo: nat, hi: nat, e: nat): PmAddress {
    if e < |a| && (e < lo || size <= e < size + hi) then a[e] else PmAddress(0, 0)
  }

  ghost predicate Written(files: seq<CatalogPage>, a: seq<PmAddress>, size: nat, lo: nat, hi: nat) {
    forall f: nat {:trigger files[f]} :: f < |files| && Mapped(f, size, lo, hi) ==>
      && |files[f]| == 512
      && forall q: nat {:trigger files[f][q]} :: q < 512 ==> files[f][q] == Stored(a, size, lo, hi, 512 * f + q)
  }

  /** Item e, after mapping its file when e is the first item of a file. */
  function WriteItem(files: seq<CatalogPage>, e: nat, v: PmAddress): (r: seq<CatalogPage>)
    requires e / 512 < |files| && (e % 512 != 0 ==> |files[e / 512]| == 512)
    ensures |r| == |files|
  {
    WithItem(if e % 512 == 0 then files[e / 512 := ZeroCatalog()] else files, e, v)
  }

  lemma NothingWritten(files: seq<CatalogPage>, a: seq<PmAddress>, size: nat)
    requires size > 0 && |a| == 2 * size
    requires if size < 512 then 2 * size <= 512 && |files| == 1 else size % 512 == 0 && |files| == size / 512 * 2
    ensures Regime(files, a, size) && Written(files, a, size, 0, 0)
  {
    hide Stored;
    forall f: nat | f < |files|
      ensures !Mapped(f, size, 0, 0)
    {
    }
  }

  lemma WriteLow(files: seq<CatalogPage>, a: seq<PmAddress>, size: nat, lo: nat, hi: nat)
    requires Regime(files, a, size) && lo < size && hi <= lo && Written(files, a, size, lo, hi)
    ensures lo / 512 < |files| && (lo % 512 != 0 ==> |files[lo / 512]| == 512)
    ensures Regime(WriteItem(files, lo, a[lo]), a, size)
    ensures Written(WriteItem(files, lo, a[lo]), a, size, lo + 1, hi)
  {
    assert Mapped(lo / 512, size, lo, hi) || lo % 512 == 0;
    var n := WriteItem(files, lo, a[lo]);
    forall f: nat | f < |n| && Mapped(f, size, lo + 1, hi)
      ensures |n[f]| == 512
      ensures forall q: nat :: q < 512 ==> n[f][q] == Stored(a, size, lo + 1, hi, 512 * f + q)
    {
      WrittenFile(files, n[f], a, size, lo, hi, lo, f);
    }
  }

  lemma WriteHigh(files: seq<CatalogPage>, a: seq<PmAddress>, size: nat, lo: nat, hi: nat)
    requires Regime(files, a, size) && hi < lo <= size && Written(files, a, size, lo, hi)
    ensures (size + hi) / 512 < |files| && ((size + hi) % 512 != 0 ==> |files[(size + hi) / 512]| == 512)
    ensures Regime(WriteItem(files, size + hi, a[size + hi]), a, size)
    ensures Written(WriteItem(files, size + hi, a[size + hi]), a, size, lo, hi + 1)
  {
    var e := size + hi;
    assert Mapped(e / 512, size, lo, hi) || e % 512 == 0;
    var n := WriteItem(files, e, a[e]);
    forall f: nat | f < |n| && Mapped(f, size, lo, hi + 1)
      ensures |n[f]| == 512
      ensures forall q: nat :: q < 512 ==> n[f][q] == Stored(a, size, lo, hi + 1, 512 * f + q)
    {
      WrittenFile(files, n[f], a, size, lo, hi, e, f);
    }
  }

  /** Item e is the next one of its half. */
  ghost predicate IsNext(size: nat, lo: nat, hi: nat, e: nat) {
    hi <= lo <= size && ((e == lo && lo < size) || (e == size + hi && hi < lo))
  }

  /** A file that is mapped for its first item holds nothing else so far. */
  lemma StartsEmpty(a: seq<PmAddress>, size: nat, files: seq<CatalogPage>, lo: nat, hi: nat, e: nat, q: nat)
    requires Regime(files, a, size) && IsNext(size, lo, hi, e) && e % 512 == 0 && 0 < q < 512
    ensures Stored(a, size, lo, hi, e + q) == PmAddress(0, 0)
  {
  }

  /** Contents of the file that item e belongs to, after it is written. */
  lemma WrittenHere(files: seq<CatalogPage>, a: seq<PmAddress>, size: nat, lo: nat, hi: nat, e: nat, q: nat)
    requires Regime(files, a, size) && IsNext(size, lo, hi, e) && Written(files, a, size, lo, hi)
    requires e / 512 < |files| && (e % 512 != 0 ==> |files[e / 512]| == 512 && Mapped(e / 512, size, lo, hi)) && q < 512
    ensures var n := WriteItem(files, e, a[e])[e / 512];
      |n| == 512 && n[q] == if q == e % 512 then a[e] else Stored(a, size, lo, hi, 512 * (e / 512) + q)
  {
    var f := e / 512;
    assert e == 512 * f + e % 512;
    if e % 512 == 0 {
      if q > 0 {
        StartsEmpty(a, size, files, lo, hi, e, q);
      }
    } else {
      hide Regime, Mapped, Stored;
      assert files[f][q] == Stored(a, size, lo, hi, 512 * f + q);
    }
  }

  /** Contents of file f after item e, the next one of its half, is written. */
  lemma WrittenFile(files: seq<CatalogPage>, n: CatalogPage, a: seq<PmAddress>, size: nat, lo: nat, hi: nat,
                    e: nat, f: nat)
    requires Regime(files, a, size) && IsNext(size, lo, hi, e) && Written(files, a, size, lo, hi) && f < |files|
    requires e < |a| && e / 512 < |files|
    requires e % 512 != 0 ==> |files[e / 512]| == 512 && Mapped(e / 512, size, lo, hi)
    requires n == WriteItem(files, e, a[e])[f]
    requires Mapped(f, size, lo, hi) || e / 512 == f
    ensures |n| == 512
    ensures forall q: nat :: q < 512 ==>
      n[q] == (if 512 * f + q == e then a[e] else Stored(a, size, lo, hi, 512 * f + q))
  {
    hide Regime, Mapped, Stored, IsNext;
    if e / 512 == f {
      forall q: nat | q < 512
        ensures |n| == 512
        ensures n[q] == (if 512 * f + q == e then a[e] else Stored(a, size, lo, hi, 512 * f + q))
      {
        WrittenHere(files, a, size, lo, hi, e, q);
        assert e == 512 * f + e % 512;
      }
      WrittenHere(files, a, size, lo, hi, e, 0);
    } else {
      assert n == files[f];
    }
  }

  lemma AllWritten(files: seq<CatalogPage>, a: seq<PmAddress>, size: nat)
    requires Regime(files, a, size) && Written(files, a, size, size, size)
    ensures Catalogs(files) && Items(files) == Refiled(a)
    ensures |files| == if |a| < 512 then 1 else |a| / 512
    ensures forall f: nat, q: nat {:trigger files[f][q]} :: f < |files| && q < 512 ==>
      files[f][q] == if 512 * f + q < |a| then a[512 * f + q] else PmAddress(0, 0)
  {
    forall f: nat | f < |files|
      ensures Mapped(f, size, size, size)
    {
    }
    assert |files| == FileCount(|a|);
    var r := Refiled(a);
    forall e: nat | e < 512 * |files|
      ensures Items(files)[e] == r[e]
    {
      assert Mapped(e / 512, size, size, size);
      assert files[e / 512][e % 512] == Stored(a, size, size, size, 512 * (e / 512) + e % 512);
    }
  }
}
