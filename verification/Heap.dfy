/** `kmalloc`, `kmalloc_aligned` and `kfree` of src/kern/mem.rs: the routing of requests
    between the slab caches and the buddy allocator of module Buddy, which keeps free marks
    of its own for each order. Over the shared bitmap of the source two page allocations of
    different orders can overlap; module BitmapHeap says exactly when. */
module Heap {
  import opened Prelude
  import opened Buddy
  import opened Slab

  const SLAB_LIMIT: nat := 2048

  /** What a live allocation occupies: an object of a slab cache, or a block of pages. */
  datatype Grant = InSlab(cache: nat) | InPages(block: Block)

  function Bytes(g: Grant): nat
    requires g.InSlab? ==> g.cache < CACHES
  {
    match g
    case InSlab(c) => SLAB_SIZES[c]
    case InPages(b) => Pow2(b.order) * PAGE_SIZE
  }

  /** (size + PAGE_SIZE - 1) / PAGE_SIZE in 64-bit arithmetic, which wraps in a release build. */
  function PagesFor(size: nat): nat {
    ((size + PAGE_SIZE - 1) % TWO_64) / PAGE_SIZE
  }

  /** o is the least order whose blocks have that many pages. */
  ghost predicate IsOrderFor(o: nat, pages: nat) {
    pages <= Pow2(o) && forall o' :: 0 <= o' < o ==> Pow2(o') < pages
  }

  /** A free that states this size is routed to where the grant came from. */
  ghost predicate Matches(size: nat, g: Grant) {
    match g
    case InSlab(_) => size <= SLAB_LIMIT
    case InPages(b) => IsOrderFor(b.order, PagesFor(size))
  }

  /** How `kmalloc` serves a request: the least class that holds it, or the least order. */
  ghost predicate Served(size: nat, g: Grant) {
    match g
    case InSlab(c) =>
      && c < CACHES && size <= SLAB_LIMIT && size <= SLAB_SIZES[c]
      && forall j :: 0 <= j < c ==> SLAB_SIZES[j] < size
    case InPages(b) => IsOrderFor(b.order, PagesFor(size))
  }

  method OrderFor(pages: nat) returns (order: nat)
    ensures IsOrderFor(order, pages)
  {
    order := 0;
    Pow2Grows(pages);
    while Pow2(order) < pages
      invariant order <= pages
      invariant forall o :: 0 <= o < order ==> Pow2(o) < pages
      decreases pages - order
    {
      Pow2Grows(order);
      order := order + 1;
    }
  }

  lemma {:induction false} Pow2Grows(e: nat)
    ensures e < Pow2(e)
  {
    if e == 0 {
    } else {
      Pow2Grows(e - 1);
    }
  }

  lemma OrderUniqueAll(a: nat, pages: nat)
    requires IsOrderFor(a, pages)
    ensures forall o: nat :: IsOrderFor(o, pages) ==> o == a
  {
    forall o: nat | IsOrderFor(o, pages) ensures o == a {
      OrderUnique(o, a, pages);
    }
  }

  lemma OrderUnique(a: nat, b: nat, pages: nat)
    requires IsOrderFor(a, pages) && IsOrderFor(b, pages)
    ensures a == b
  {
  }

  /** The block found for a request holds it, exactly when the rounding did not wrap. */
  lemma BlockHolds(size: nat, o: nat)
    requires 0 < size < TWO_64 && IsOrderFor(o, PagesFor(size))
    ensures size <= Pow2(o) * PAGE_SIZE <==> size <= TWO_64 - PAGE_SIZE
  {
    if size <= TWO_64 - PAGE_SIZE {
      assert PagesFor(size) * PAGE_SIZE >= size;
      assert PagesFor(size) * PAGE_SIZE <= Pow2(o) * PAGE_SIZE;
    } else {
      assert size + PAGE_SIZE - 1 - TWO_64 < PAGE_SIZE;
      assert (size + PAGE_SIZE - 1) % TWO_64 == size + PAGE_SIZE - 1 - TWO_64;
      assert PagesFor(size) == 0;
      assert o == 0 by { assert o > 0 ==> Pow2(0) < 0; }
    }
  }

  function Max(a: nat, b: nat): nat {
    if a < b then b else a
  }

  /** A block taken by `kmalloc_aligned(size, align)` is freed with the right order by
      `kfree(ptr, size)` exactly when align is at most the block that size alone would take,
      or, where the rounding wraps for the larger of the two, when size alone also takes a
      single page. */
  lemma AlignedMatches(size: nat, align: nat, b: Block, o: nat)
    requires 0 < size < TWO_64 && align < TWO_64
    requires IsOrderFor(b.order, PagesFor(Max(size, align))) && IsOrderFor(o, PagesFor(size))
    ensures Max(size, align) <= TWO_64 - PAGE_SIZE ==> (Matches(size, InPages(b)) <==> align <= Pow2(o) * PAGE_SIZE)
    ensures Max(size, align) > TWO_64 - PAGE_SIZE ==>
              (Matches(size, InPages(b)) <==> size <= PAGE_SIZE || size > TWO_64 - PAGE_SIZE)
  {
    var most := Max(size, align);
    PagesRound(size);
    PagesRound(most);
    OrderUniqueAll(o, PagesFor(size));
    OrderUniqueAll(b.order, PagesFor(most));
    if most <= TWO_64 - PAGE_SIZE {
      if align <= Pow2(o) * PAGE_SIZE {
        assert IsOrderFor(o, PagesFor(most));
      }
    } else {
      assert IsOrderFor(0, 0);
      assert Pow2(0) == 1;
    }
  }

  /** The pages counted for a size, against any number of pages; 0 when the rounding wraps. */
  lemma PagesRound(size: nat)
    requires 0 < size < TWO_64
    ensures size > TWO_64 - PAGE_SIZE ==> PagesFor(size) == 0
    ensures size <= TWO_64 - PAGE_SIZE ==> PagesFor(size) > 0 && forall n: nat :: PagesFor(size) <= n <==>
        size <= n * PAGE_SIZE
  {
  }

  ghost predicate IsPowerOfTwo(n: nat) {
    exists e: nat :: n == Pow2(e)
  }

  /** A block of at least n bytes lies, modulo a power of two n, where the region's base does. */
  lemma BlockAligned(base: nat, b: Block, n: nat)
    requires IsPowerOfTwo(n) && n <= Pow2(b.order) * PAGE_SIZE
    ensures StartOf(base, b) % n == base % n
  {
    var e: nat :| n == Pow2(e);
    var size := b.order + 12;
    assert PAGE_SIZE == Pow2(12) by { assert Pow2(4) == 16 && Pow2(8) == 256; }
    Pow2Add(b.order, 12);
    if e > size {
      Pow2Monotone(size + 1, e);
      assert false;
    }
    Pow2Add(size - e, e);
    var q := Pow2(size - e);
    ShlIsMul(b.idx, b.order);
    assert StartOf(base, b) == base + b.idx * Pow2(b.order) * PAGE_SIZE;
    MulAssociates(b.idx, Pow2(b.order), PAGE_SIZE);
    MulAssociates(b.idx, q, n);
    ModMultiple(base, b.idx * q, n);
  }

  /** With a larger alignment it can be wrong: 100 bytes at 8192 take two pages, and the
      free gives one back. */
  lemma AlignedMismatch(b: Block)
    requires IsOrderFor(b.order, PagesFor(Max(100, 8192)))
    ensures b.order == 1 && !Matches(100, InPages(b))
  {
    assert PagesFor(8192) == 2 && PagesFor(100) == 1;
    assert Pow2(0) == 1 && Pow2(1) == 2;
    assert b.order <= 1;
    assert !IsOrderFor(1, 1);
  }

  /** AlignedMatches for the order that size alone takes. */
  lemma PageGrant(size: nat, align: nat, b: Block)
    requires 0 < size < TWO_64 && align < TWO_64 && IsOrderFor(b.order, PagesFor(Max(size, align)))
    ensures Max(size, align) <= TWO_64 - PAGE_SIZE ==> align <= Pow2(b.order) * PAGE_SIZE
    ensures Max(size, align) <= TWO_64 - PAGE_SIZE ==>
              forall o: nat :: IsOrderFor(o, PagesFor(size)) ==>
                  (Matches(size, InPages(b)) <==> align <= Pow2(o) * PAGE_SIZE)
    ensures align <= PAGE_SIZE && size <= TWO_64 - PAGE_SIZE ==> Matches(size, InPages(b))
  {
    var o := OrderExists(PagesFor(size));
    AlignedMatches(size, align, b, o);
    OrderUniqueAll(o, PagesFor(size));
    PagesRound(Max(size, align));
  }

  /** What `kmalloc_aligned` promises of its block, when the rounding does not wrap: a `kfree`
      with the same size matches it exactly when align is at most the block that size alone
      would take, and modulo a power of two align the address lies where the base does. */
  ghost predicate AlignedResult(base: nat, size: nat, align: nat, ptr: nat, g: Grant) {
    Max(size, align) <= TWO_64 - PAGE_SIZE ==>
      && (forall o: nat :: IsOrderFor(o, PagesFor(size)) ==> (Matches(size, g) <==> align <= Pow2(o) * PAGE_SIZE))
      && (align <= PAGE_SIZE ==> Matches(size, g))
      && (IsPowerOfTwo(align) && align > 0 ==> ptr % align == base % align)
  }

  lemma BlockAlignedResult(base: nat, size: nat, align: nat, b: Block)
    requires 0 < size < TWO_64 && align < TWO_64 && IsOrderFor(b.order, PagesFor(Max(size, align)))
    ensures AlignedResult(base, size, align, StartOf(base, b), InPages(b))
  {
    PageGrant(size, align, b);
    hide IsOrderFor, Matches, PagesFor, IsPowerOfTwo, StartOf;
    if IsPowerOfTwo(align) && Max(size, align) <= TWO_64 - PAGE_SIZE {
      BlockAligned(base, b, align);
    }
  }

  /** The live allocations are the live objects of the slab caches, and the blocks held
      outside the caches. */
  ghost predicate Ledger(al: map<nat, Grant>, live: seq<iset<nat>>, held: set<Block>, region: nat) {
    && |live| == CACHES
    && (forall k, a :: 0 <= k < CACHES && a in live[k] ==> a in al && al[a] == InSlab(k))
    && (forall a :: a in al && al[a].InSlab? ==> al[a].cache < CACHES && a in live[al[a].cache])
    && (forall b :: b in held ==> StartOf(region, b) in al && al[StartOf(region, b)] == InPages(b))
    && (forall a :: a in al && al[a].InPages? ==> al[a].block in held && a == StartOf(region, al[a].block))
  }

  lemma LedgerBlock(al: map<nat, Grant>, live: seq<iset<nat>>, held: set<Block>, region: nat, a: nat)
    requires Ledger(al, live, held, region) && a in al && al[a].InPages?
    ensures al[a].block in held && a == StartOf(region, al[a].block) && region <= a
  {
  }

  lemma LedgerEmpty(live: seq<iset<nat>>, held: set<Block>, region: nat, k: nat)
    requires Ledger(map[], live, held, region) && k < CACHES
    ensures live[k] == iset{} && held == {}
  {
    var al: map<nat, Grant> := map[];
    assert forall a :: a in live[k] ==> a in al;
  }

  lemma EnterObject(al: map<nat, Grant>, live: seq<iset<nat>>, held: set<Block>, region: nat, c: nat, a: nat)
    requires Ledger(al, live, held, region) && c < CACHES && a !in al
    ensures Ledger(al[a := InSlab(c)], live[c := live[c] + iset{a}], held, region)
  {
  }

  lemma LeaveObject(al: map<nat, Grant>, live: seq<iset<nat>>, held: set<Block>, region: nat, c: nat, a: nat)
    requires Ledger(al, live, held, region) && c < CACHES && a in live[c]
    ensures Ledger(al - {a}, live[c := live[c] - iset{a}], held, region)
  {
    assert al[a] == InSlab(c);
    var al2, live2 := al - {a}, live[c := live[c] - iset{a}];
    assert forall x :: x in al2 <==> x in al && x != a;
    assert forall k, x :: 0 <= k < CACHES && x in live2[k] ==> x in live[k] && x != a;
  }

  lemma EnterBlock(al: map<nat, Grant>, live: seq<iset<nat>>, held: set<Block>, region: nat, b: Block)
    requires Ledger(al, live, held, region) && StartOf(region, b) !in al
    ensures Ledger(al[StartOf(region, b) := InPages(b)], live, held + {b}, region)
  {
  }

  lemma LeaveBlock(al: map<nat, Grant>, live: seq<iset<nat>>, held: set<Block>, region: nat, b: Block)
    requires Ledger(al, live, held, region) && b in held
    ensures Ledger(al - {StartOf(region, b)}, live, held - {b}, region)
  {
  }

  /** A live slab object lies inside a page of its cache. */
  lemma LiveBlock(ps: seq<SlabPage>, objSize: nat, region: nat, a: nat) returns (b: Block)
    requires PagesOk(ps, objSize, region) && LiveIn(ps, a)
    ensures b in BlocksOf(ps, region) && StartOf(region, b) <= a && a + objSize <= EndOf(region, b)
  {
    var i :| 0 <= i < |ps| && ps[i].IsLive(a);
    LiveIsContained(ps[i], a);
    b := PageBlock(region, ps[i]);
    ReturnedPage(ps, region, i);
    assert Shl(b.idx + 1, 0) == b.idx + 1 && Shl(b.idx, 0) == b.idx;
  }

  /** Two live objects of one cache do not overlap. */
  lemma LiveApart(ps: seq<SlabPage>, objSize: nat, region: nat, a: nat, a': nat)
    requires PagesOk(ps, objSize, region) && LiveIn(ps, a) && LiveIn(ps, a') && a < a'
    ensures a + objSize <= a'
  {
    var i :| 0 <= i < |ps| && ps[i].IsLive(a);
    var j :| 0 <= j < |ps| && ps[j].IsLive(a');
    LiveIsContained(ps[i], a);
    LiveIsContained(ps[j], a');
    if i == j {
      var s: nat :| ps[i].LiveSlot(s, a);
      var t: nat :| ps[i].LiveSlot(t, a');
      if s < t { SlotsApart(ps[i], s, t); } else if t < s { SlotsApart(ps[i], t, s); }
    } else {
      PagesApart(region, ps[i].base, ps[j].base);
    }
  }

  /** Of two pages in one cache at least one holds a live object. */
  lemma SecondPageLive(ps: seq<SlabPage>, objSize: nat, region: nat) returns (a: nat)
    requires PagesOk(ps, objSize, region) && |ps| > 1
    ensures a in LiveSet(ps)
  {
    assert !(ps[0].Empty() && ps[1].Empty());
    var i := if ps[0].Empty() then 1 else 0;
    a := NonEmptyHasLive(ps[i]);
    assert LiveIn(ps, a);
  }

  lemma PagesApart(region: nat, x: nat, y: nat)
    requires region <= x && region <= y && (x - region) % PAGE_SIZE == 0 && (y - region) % PAGE_SIZE == 0 && x != y
    ensures x + PAGE_SIZE <= y || y + PAGE_SIZE <= x
  {
  }

  lemma BlockSize(base: nat, b: Block)
    ensures EndOf(base, b) == StartOf(base, b) + Pow2(b.order) * PAGE_SIZE
  {
    ShlIsMul(b.idx, b.order);
    ShlIsMul(b.idx + 1, b.order);
    assert (b.idx + 1) * Pow2(b.order) == b.idx * Pow2(b.order) + Pow2(b.order);
  }

  lemma BytesPositive(g: Grant)
    requires g.InSlab? ==> g.cache < CACHES
    ensures Bytes(g) > 0
  {
  }

  class KernelHeap {
    const buddy: BuddyAllocator
    const slab: SlabAllocator

    /** Both allocators are in order, and the slab pages come from the buddy allocator. */
    ghost predicate Sound()
      reads buddy, slab, slab.caches
    {
      buddy.Valid() && slab.Valid(buddy.base) && slab.Backed(buddy.outstanding) && buddy.base > 0
    }

    /** al is the ledger of the live allocations. */
    ghost predicate Valid(al: map<nat, Grant>)
      reads buddy, slab, slab.caches
    {
      && Sound()
      && Ledger(al, slab.Live(), slab.Elsewhere(buddy.outstanding), buddy.base)
    }

    constructor (base: nat, size: nat)
      requires base > 0
      ensures Valid(map[]) && buddy.base == base && buddy.totalPages == size / PAGE_SIZE
    {
      var b := new BuddyAllocator(base, size);
      var s := new SlabAllocator(base);
      buddy := b;
      slab := s;
    }

    /** Of every block of pages that would serve size bytes some page is handed out. */
    ghost predicate NoRoomFor(size: nat)
      reads buddy
    {
      forall o: nat :: o <= buddy.maxOrder && IsOrderFor(o, PagesFor(size)) ==>
          AllBusy(buddy.outstanding, buddy.totalPages, o)
    }

    /** A slab cache can serve a request of this size. */
    ghost predicate HasObject(size: nat)
      reads buddy, slab, slab.caches
      requires Sound() && size <= SLAB_LIMIT
    {
      !slab.caches[ClassFrom(size, 0)].Exhausted(buddy)
    }

    /** The cache for this size has as many pages as a cache can have, all full. */
    ghost predicate IsCrowded(size: nat)
      reads buddy, slab, slab.caches
      requires Sound() && size <= SLAB_LIMIT
    {
      var cache := slab.caches[ClassFrom(size, 0)];
      cache.count == MAX_SLABS_PER_SIZE && AllFull(cache.Filled())
    }

    /** The allocators agree that g is granted at address a. */
    ghost predicate Backs(g: Grant, a: nat)
      reads buddy, slab, slab.caches
      requires Sound()
    {
      match g
      case InSlab(k) => k < CACHES && a in slab.Live()[k]
      case InPages(b) => b in slab.Elsewhere(buddy.outstanding) && a == StartOf(buddy.base, b)
    }

    /** The outstanding block an allocation lies in: a page of its cache, or its own block. */
    lemma Home(g: Grant, a: nat) returns (b: Block)
      requires Sound() && Backs(g, a)
      ensures b in buddy.outstanding
      ensures StartOf(buddy.base, b) <= a && a + Bytes(g) <= EndOf(buddy.base, b)
      ensures g.InSlab? ==> b in slab.Blocks()[g.cache]
      ensures g.InPages? ==> b == g.block && forall k :: 0 <= k < CACHES ==> b !in slab.Blocks()[k]
    {
      match g
      case InSlab(k) =>
        assert slab.caches[k].Valid(buddy.base) && a in slab.caches[k].live;
        b := LiveBlock(slab.caches[k].Filled(), SLAB_SIZES[k], buddy.base, a);
        assert b in slab.Blocks()[k];
      case InPages(d) =>
        b := d;
        BlockSize(buddy.base, d);
    }

    /** The page of cache k that contains an address, as an outstanding block. */
    lemma PageOf(k: nat, a: nat) returns (b: Block)
      requires Sound() && k < CACHES && slab.caches[k].Contains(a)
      ensures b in slab.Blocks()[k] && b in buddy.outstanding && StartOf(buddy.base, b) <= a < EndOf(buddy.base, b)
    {
      assert slab.caches[k].Valid(buddy.base);
      b := ContainingBlock(slab.caches[k].Filled(), SLAB_SIZES[k], buddy.base, a);
      assert b in slab.Blocks()[k];
    }

    /** Two outstanding blocks with a common address are the same block. */
    lemma OneBlock(b: Block, c: Block, x: nat)
      requires buddy.Valid() && b in buddy.outstanding && c in buddy.outstanding
      requires StartOf(buddy.base, b) <= x < EndOf(buddy.base, b) && StartOf(buddy.base, c) <= x < EndOf(buddy.base, c)
      ensures b == c
    {
      if b != c {
        ListedDisjoint(buddy.free, buddy.outstanding, buddy.totalPages, buddy.base, b, c);
      }
    }

    /** The slab caches see a live allocation for what it is: cache k has a page with that
        address exactly when it granted the allocation. */
    lemma HeldBy(al: map<nat, Grant>, a: nat, k: nat)
      requires Valid(al) && a in al && k < CACHES
      ensures slab.caches[k].Contains(a) <==> al[a] == InSlab(k)
      ensures slab.caches[k].Contains(a) ==> a in slab.caches[k].live
    {
      if slab.caches[k].Contains(a) {
        var b := PageOf(k, a);
        var c := Home(al[a], a);
        BytesPositive(al[a]);
        OneBlock(b, c, a);
      }
      if al[a] == InSlab(k) {
        assert a in slab.Live()[k];
        assert slab.caches[k].Valid(buddy.base);
        var i :| 0 <= i < |slab.caches[k].Filled()| && slab.caches[k].Filled()[i].IsLive(a);
        LiveIsContained(slab.caches[k].Filled()[i], a);
      }
    }

    /** Live allocations never overlap, the buddy allocator keeping the orders apart. */
    lemma LiveDisjoint(al: map<nat, Grant>, a: nat, a': nat)
      requires Valid(al) && a in al && a' in al && a < a'
      ensures a + Bytes(al[a]) <= a'
    {
      var b := Home(al[a], a);
      var b' := Home(al[a'], a');
      BytesPositive(al[a]);
      BytesPositive(al[a']);
      if a' < a + Bytes(al[a]) {
        OneBlock(b, b', a');
        if al[a].InSlab? && al[a'].InSlab? {
          var k := al[a].cache;
          assert al[a'].cache == k;
          assert slab.caches[k].Valid(buddy.base) && a in slab.Live()[k] && a' in slab.Live()[k];
          LiveApart(slab.caches[k].Filled(), SLAB_SIZES[k], buddy.base, a, a');
        }
      }
    }

    /** Every live allocation lies inside the managed region. */
    lemma LiveInRegion(al: map<nat, Grant>, a: nat)
      requires Valid(al) && a in al
      ensures buddy.base <= a && a + Bytes(al[a]) <= buddy.base + buddy.totalPages * PAGE_SIZE
    {
      var b := Home(al[a], a);
      ListedInRegion(buddy.free, buddy.outstanding, buddy.totalPages, buddy.base, b);
    }

    /** An object just handed out by cache c is no other live allocation. */
    lemma ObjectIsNew(al: map<nat, Grant>, c: nat, a: nat)
      requires Sound() && c < CACHES && a in slab.Live()[c]
      requires a in al ==> Backs(al[a], a) && al[a] != InSlab(c)
      ensures a !in al && a != 0
    {
      var b := Home(InSlab(c), a);
      ListedInRegion(buddy.free, buddy.outstanding, buddy.totalPages, buddy.base, b);
      if a in al {
        var b' := Home(al[a], a);
        BytesPositive(al[a]);
        OneBlock(b, b', a);
        assert false;
      }
    }

    /** A block just handed out starts where no other live allocation starts. */
    lemma BlockIsNew(al: map<nat, Grant>, b: Block)
      requires Sound() && b in slab.Elsewhere(buddy.outstanding)
      requires StartOf(buddy.base, b) in al ==> Backs(al[StartOf(buddy.base, b)], StartOf(buddy.base, b))
      requires forall a :: a in al ==> al[a] != InPages(b)
      ensures StartOf(buddy.base, b) !in al && StartOf(buddy.base, b) != 0
    {
      var a := StartOf(buddy.base, b);
      ListedInRegion(buddy.free, buddy.outstanding, buddy.totalPages, buddy.base, b);
      if a in al {
        var b' := Home(al[a], a);
        BytesPositive(al[a]);
        OneBlock(b, b', a);
        assert false;
      }
    }

    /** When nothing is live, all that is still handed out is at most one page per cache. */
    lemma QuietHeap()
      requires Valid(map[])
      ensures forall k :: 0 <= k < CACHES ==> |slab.caches[k].Filled()| <= 1
      ensures forall b :: b in buddy.outstanding ==> exists k :: 0 <= k < CACHES && b in slab.Blocks()[k]
    {
      forall k | 0 <= k < CACHES ensures |slab.caches[k].Filled()| <= 1 {
        assert slab.caches[k].Valid(buddy.base) && slab.Live()[k] == slab.caches[k].live;
        LedgerEmpty(slab.Live(), slab.Elsewhere(buddy.outstanding), buddy.base, k);
        if |slab.caches[k].Filled()| > 1 {
          var a := SecondPageLive(slab.caches[k].Filled(), SLAB_SIZES[k], buddy.base);
          assert false;
        }
      }
      LedgerEmpty(slab.Live(), slab.Elsewhere(buddy.outstanding), buddy.base, 0);
      forall b | b in buddy.outstanding ensures exists k :: 0 <= k < CACHES && b in slab.Blocks()[k] {
        assert b !in slab.Elsewhere(buddy.outstanding);
      }
    }

    /** A small request that falls through takes a single page. */
    lemma SmallRoom(size: nat)
      requires 0 < size <= SLAB_LIMIT
      ensures NoRoomFor(size) <==> AllBusy(buddy.outstanding, buddy.totalPages, 0)
    {
      hide AllBusy;
      assert IsOrderFor(0, PagesFor(size));
      OrderUniqueAll(0, PagesFor(size));
    }

    lemma ExhaustedClass(size: nat)
      requires Sound() && size <= SLAB_LIMIT && !HasObject(size)
      requires !AllBusy(buddy.outstanding, buddy.totalPages, 0)
      ensures IsCrowded(size)
    {
    }

    method Kmalloc(size: nat, ghost al: map<nat, Grant>) returns (ptr: nat, ghost al': map<nat, Grant>)
      requires Valid(al) && size < TWO_64
      modifies buddy, slab.caches
      ensures Valid(al') && buddy.base == old(buddy.base)
      ensures size == 0 ==> ptr == 0
      ensures ptr == 0 ==> al' == al
      ensures ptr == 0 && size > 0 ==> NoRoomFor(size)
      ensures size > SLAB_LIMIT ==> (ptr == 0 <==> old(NoRoomFor(size)))
      ensures ptr != 0 ==> ptr !in al && ptr in al' && al' == al[ptr := al'[ptr]]
      ensures 0 < size <= SLAB_LIMIT && old(HasObject(size)) ==> ptr != 0 && al'[ptr] == InSlab(ClassFrom(size, 0))
      ensures 0 < size <= SLAB_LIMIT && !old(HasObject(size)) ==>
          (ptr == 0 <==> old(AllBusy(buddy.outstanding, buddy.totalPages, 0)))
      ensures 0 < size <= SLAB_LIMIT && !old(HasObject(size)) && ptr != 0 ==> al'[ptr].InPages? && old(IsCrowded(size))
      ensures ptr != 0 ==> Served(size, al'[ptr]) && Matches(size, al'[ptr])
      ensures ptr != 0 && al'[ptr].InPages? ==> (size <= Bytes(al'[ptr]) <==> size <= TWO_64 - PAGE_SIZE)
    {
      hide PagesOk, LiveSet, BlocksOf, Partition, Coalesced, PairwiseDisjoint, Ledger;
      hide AllBusy, NoRoomFor, HasObject, IsCrowded;
      if size == 0 {
        return 0, al;
      }
      if size <= SLAB_LIMIT {
        if !HasObject(size) && !AllBusy(buddy.outstanding, buddy.totalPages, 0) {
          ExhaustedClass(size);
        }
        ptr, al' := TakeObject(size, al);
        if ptr != 0 {
          return;
        }
        SmallRoom(size);
      }
      ptr, al' := TakePages(size, al);
    }

    /** The slab path of `kmalloc`. */
    method TakeObject(size: nat, ghost al: map<nat, Grant>) returns (ptr: nat, ghost al': map<nat, Grant>)
      requires Valid(al) && 0 < size <= SLAB_LIMIT
      modifies buddy, slab.caches
      ensures Valid(al') && buddy.base == old(buddy.base)
      ensures ptr == 0 <==> !old(HasObject(size))
      ensures ptr == 0 ==> al' == al && buddy.outstanding == old(buddy.outstanding)
      ensures buddy.totalPages == old(buddy.totalPages) && buddy.maxOrder == old(buddy.maxOrder)
      ensures ptr != 0 ==> ptr !in al && ptr in al' && al' == al[ptr := al'[ptr]]
      ensures ptr != 0 ==> al'[ptr] == InSlab(ClassFrom(size, 0))
      ensures ptr != 0 ==> al'[ptr].InSlab? && size <= Bytes(al'[ptr])
      ensures ptr != 0 ==> forall j :: 0 <= j < al'[ptr].cache ==> SLAB_SIZES[j] < size
    {
      var got;
      ghost var c;
      got, c := slab.Alloc(size, buddy);
      if got.None? {
        return 0, al;
      }
      ObjectIsNew(al, c, got.value);
      EnterObject(al, old(slab.Live()), old(slab.Elsewhere(buddy.outstanding)), buddy.base, c, got.value);
      return got.value, al[got.value := InSlab(c)];
    }

    /** The page path of `kmalloc` and `kmalloc_aligned`. */
    method TakePages(size: nat, ghost al: map<nat, Grant>) returns (ptr: nat, ghost al': map<nat, Grant>)
      requires Valid(al) && 0 < size < TWO_64
      modifies buddy
      ensures Valid(al') && buddy.base == old(buddy.base)
      ensures ptr == 0 ==> al' == al && NoRoomFor(size)
      ensures ptr == 0 <==> old(NoRoomFor(size))
      ensures ptr != 0 ==> ptr !in al && ptr in al' && al' == al[ptr := al'[ptr]]
      ensures ptr != 0 ==> al'[ptr].InPages? && IsOrderFor(al'[ptr].block.order, PagesFor(size))
      ensures ptr != 0 ==> (size <= Bytes(al'[ptr]) <==> size <= TWO_64 - PAGE_SIZE)
      ensures ptr != 0 ==> (ptr - buddy.base) % PAGE_SIZE == 0
    {
      hide PagesOk, LiveSet, BlocksOf, Partition, Coalesced, PairwiseDisjoint, Ledger, AllBusy;
      var pages := PagesFor(size);
      var order := OrderFor(pages);
      var got;
      ghost var b;
      got, b := BlockFor(order, al);
      if got.None? {
        OrderUniqueAll(order, pages);
        return 0, al;
      }
      BlockHolds(size, order);
      return got.value, al[got.value := InPages(b)];
    }

    method BlockFor(order: nat, ghost al: map<nat, Grant>) returns (got: Option<nat>, ghost b: Block)
      requires Valid(al)
      modifies buddy
      ensures buddy.base == old(buddy.base)
      ensures buddy.totalPages == old(buddy.totalPages) && buddy.maxOrder == old(buddy.maxOrder)
      ensures got.None? ==> Valid(al) && buddy.outstanding == old(buddy.outstanding)
      ensures got.None? <==> old(order <= buddy.maxOrder ==> AllBusy(buddy.outstanding, buddy.totalPages, order))
      ensures got.Some? ==> b.order == order && got.value !in al && got.value != 0
      ensures got.Some? ==> (got.value - buddy.base) % PAGE_SIZE == 0
      ensures got.Some? ==> Valid(al[got.value := InPages(b)])
    {
      hide PagesOk, LiveSet, BlocksOf, Partition, Coalesced, AllBusy;
      ghost var from;
      got, from, b := buddy.AllocPages(order);
      assert slab.Valid(buddy.base) && slab.Blocks() == old(slab.Blocks()) && slab.Live() == old(slab.Live());
      if got.Some? {
        RestGrows(slab.Blocks(), old(buddy.outstanding), b);
        BlockIsNew(al, b);
        EnterBlock(al, slab.Live(), old(slab.Elsewhere(buddy.outstanding)), buddy.base, b);
      }
    }

    /** Alignment only raises the request to at least align bytes. Modulo a power of two the
        address lies where the region's base does, so it is aligned exactly when the base is. */
    method KmallocAligned(size: nat, align: nat, ghost al: map<nat, Grant>)
      returns (ptr: nat, ghost al': map<nat, Grant>)
      requires Valid(al) && size < TWO_64 && align < TWO_64
      modifies buddy
      ensures Valid(al') && buddy.base == old(buddy.base)
      ensures size == 0 ==> ptr == 0
      ensures ptr == 0 ==> al' == al
      ensures size > 0 ==> (ptr == 0 <==> old(NoRoomFor(Max(size, align))))
      ensures ptr != 0 ==> ptr !in al && ptr in al' && al' == al[ptr := al'[ptr]]
      ensures ptr != 0 ==> al'[ptr].InPages? && IsOrderFor(al'[ptr].block.order, PagesFor(Max(size, align)))
      ensures ptr != 0 ==> (Max(size, align) <= Bytes(al'[ptr]) <==> Max(size, align) <= TWO_64 - PAGE_SIZE)
      ensures ptr != 0 ==> (ptr - buddy.base) % PAGE_SIZE == 0
      ensures ptr != 0 ==> AlignedResult(buddy.base, size, align, ptr, al'[ptr])
    {
      hide PagesOk, LiveSet, BlocksOf, Partition, Coalesced, Rest, Ledger, IsPowerOfTwo, IsOrderFor, AlignedResult,
          AllBusy;
      if size == 0 {
        return 0, al;
      }
      var allocSize := if size < align then align else size;
      ptr, al' := TakePages(allocSize, al);
      if ptr != 0 {
        AlignedGrant(size, align, ptr, al');
      }
    }

    lemma AlignedGrant(size: nat, align: nat, ptr: nat, al: map<nat, Grant>)
      requires Valid(al) && 0 < size < TWO_64 && align < TWO_64 && ptr in al && al[ptr].InPages?
      requires IsOrderFor(al[ptr].block.order, PagesFor(Max(size, align)))
      ensures AlignedResult(buddy.base, size, align, ptr, al[ptr])
    {
      LedgerBlock(al, slab.Live(), slab.Elsewhere(buddy.outstanding), buddy.base, ptr);
      BlockAlignedResult(buddy.base, size, align, al[ptr].block);
    }

    /** A free with a size that matches the grant takes back exactly that allocation, from the
        allocator that served it: a small request that fell through to whole pages is held
        by no slab page, and goes back to the buddy allocator in turn. */
    method Kfree(ptr: nat, size: nat, ghost al: map<nat, Grant>) returns (ghost al': map<nat, Grant>)
      requires Valid(al) && size < TWO_64
      requires ptr == 0 || size == 0 || (ptr in al && Matches(size, al[ptr]))
      modifies buddy, slab.caches
      ensures Valid(al') && buddy.base == old(buddy.base)
      ensures al' == if ptr == 0 || size == 0 then al else al - {ptr}
    {
      if ptr == 0 || size == 0 {
        return al;
      }
      if size <= SLAB_LIMIT {
        var found := ObjectBack(ptr, al);
        if found {
          return al - {ptr};
        }
      }
      var pages := PagesFor(size);
      var order := OrderFor(pages);
      OrderUnique(order, al[ptr].block.order, pages);
      BlockBack(ptr, order, al[ptr].block, al);
      return al - {ptr};
    }

    /** The slab path of `kfree`: true exactly when a cache granted the allocation. */
    method ObjectBack(ptr: nat, ghost al: map<nat, Grant>) returns (found: bool)
      requires Valid(al) && ptr in al
      modifies buddy, slab.caches
      ensures buddy.base == old(buddy.base)
      ensures found <==> al[ptr].InSlab?
      ensures Valid(if found then al - {ptr} else al)
    {
      forall k | 0 <= k < CACHES ensures slab.caches[k].Contains(ptr) <==> al[ptr] == InSlab(k)
        ensures slab.caches[k].Contains(ptr) ==> ptr in slab.caches[k].live
      {
        HeldBy(al, ptr, k);
      }
      ghost var c;
      found, c := slab.Free(ptr, buddy);
      if found {
        LeaveObject(al, old(slab.Live()), old(slab.Elsewhere(buddy.outstanding)), buddy.base, c, ptr);
      }
    }

    method BlockBack(ptr: nat, order: nat, ghost b: Block, ghost al: map<nat, Grant>)
      requires Valid(al) && ptr in al && al[ptr] == InPages(b) && b.order == order
      modifies buddy
      ensures Valid(al - {ptr}) && buddy.base == old(buddy.base)
    {
      LedgerBlock(al, slab.Live(), slab.Elsewhere(buddy.outstanding), buddy.base, ptr);
      buddy.FreePages(ptr, order, b);
      assert slab.Valid(buddy.base) && slab.Blocks() == old(slab.Blocks()) && slab.Live() == old(slab.Live());
      RestShrinks(slab.Blocks(), old(buddy.outstanding), b);
      LeaveBlock(al, slab.Live(), old(slab.Elsewhere(buddy.outstanding)), buddy.base, b);
    }
  }

  lemma RestGrows(bs: seq<set<Block>>, out: set<Block>, b: Block)
    requires (forall k :: 0 <= k < |bs| ==> bs[k] <= out) && b !in out
    ensures Rest(bs, out + {b}) == Rest(bs, out) + {b}
    ensures forall k :: 0 <= k < |bs| ==> bs[k] <= out + {b}
  {
  }

  lemma RestShrinks(bs: seq<set<Block>>, out: set<Block>, b: Block)
    requires (forall k :: 0 <= k < |bs| ==> bs[k] <= out) && b in Rest(bs, out)
    ensures Rest(bs, out - {b}) == Rest(bs, out) - {b}
    ensures forall k :: 0 <= k < |bs| ==> bs[k] <= out - {b}
  {
  }

  lemma OrderExists(pages: nat) returns (o: nat)
    ensures IsOrderFor(o, pages)
  {
    o := 0;
    Pow2Grows(pages);
    while Pow2(o) < pages
      invariant o <= pages && forall o' :: 0 <= o' < o ==> Pow2(o') < pages
      decreases pages - o
    {
      Pow2Grows(o);
      o := o + 1;
    }
  }

  lemma ContainingBlock(ps: seq<SlabPage>, objSize: nat, region: nat, a: nat) returns (b: Block)
    requires PagesOk(ps, objSize, region) && exists i :: 0 <= i < |ps| && ps[i].Contains(a)
    ensures b in BlocksOf(ps, region) && StartOf(region, b) <= a < EndOf(region, b)
  {
    var i :| 0 <= i < |ps| && ps[i].Contains(a);
    b := PageBlock(region, ps[i]);
    ReturnedPage(ps, region, i);
    assert Shl(b.idx + 1, 0) == b.idx + 1 && Shl(b.idx, 0) == b.idx;
  }
}
