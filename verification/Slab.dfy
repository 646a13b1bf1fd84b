/** The slab allocator of src/kern/mm/slab.rs on top of the buddy allocator's order-0 pages,
    that allocator being the one of module Buddy, with free marks of its own for each order.

    A `SlabPage` is stored inline in its cache's array, so it is a value that the cache
    writes back; the caches are objects. */
module Slab {
  import opened Prelude
  import opened Buddy

  const MAX_SLABS_PER_SIZE: nat := 16
  const WORDS: nat := 4
  const BITS: nat := 64

  /** One u64 of a page's bitmap, bit by bit. */
  type Word = w: seq<bool> | |w| == BITS witness seq(BITS, i => false)

  type Bitmap = b: seq<Word> | |b| == WORDS witness seq(WORDS, i => seq(BITS, j => false))

  datatype SlabPage = SlabPage(base: nat, objSize: nat, capacity: nat, bitmap: Bitmap) {

    predicate Bit(i: nat)
      requires i < WORDS * BITS
    {
      bitmap[i / BITS][i % BITS]
    }

    function SlotAddr(i: nat): nat {
      base + i * objSize
    }

    ghost predicate Valid() {
      && objSize > 0
      && capacity <= WORDS * BITS
      && capacity * objSize <= PAGE_SIZE
      && 0 < capacity
      && forall i :: capacity <= i < WORDS * BITS ==> !Bit(i)
    }

    ghost predicate Full() {
      forall i :: 0 <= i < capacity && i < WORDS * BITS ==> Bit(i)
    }

    ghost predicate Empty() {
      forall i :: 0 <= i < WORDS * BITS ==> !Bit(i)
    }

    /** a is the address of a slot that is handed out. */
    ghost predicate IsLive(a: nat) {
      exists i: nat :: LiveSlot(i, a)
    }

    ghost predicate LiveSlot(i: nat, a: nat) {
      i < capacity && i < WORDS * BITS && Bit(i) && a == SlotAddr(i)
    }

    /** `contains`. */
    predicate Contains(a: nat) {
      base <= a < base + capacity * objSize
    }

    function WithBit(i: nat, v: bool): SlabPage
      requires i < WORDS * BITS
    {
      this.(bitmap := bitmap[i / BITS := bitmap[i / BITS][i % BITS := v]])
    }
  }

  /** `SlabPage::new`. */
  function NewPage(base: nat, objSize: nat): SlabPage
    requires objSize > 0
  {
    var capacity := PAGE_SIZE / objSize;
    var capped := if capacity > 256 then 256 else capacity;
    SlabPage(base, objSize, capped, seq(WORDS, i => seq(BITS, j => false)))
  }

  /** The number of trailing ones of a word, which is `trailing_zeros` of its complement. */
  method FirstClear(w: Word) returns (bit: nat)
    ensures bit <= BITS && (forall j :: 0 <= j < bit ==> w[j]) && (bit < BITS ==> !w[bit])
  {
    bit := 0;
    while bit < BITS && w[bit]
      invariant bit <= BITS && forall j :: 0 <= j < bit ==> w[j]
    {
      bit := bit + 1;
    }
  }

  /** `SlabPage::alloc`: the lowest clear slot, if a slot below the capacity is clear. */
  method PageAlloc(p: SlabPage) returns (p': SlabPage, r: Option<nat>, ghost slot: nat)
    requires p.Valid()
    ensures r.None? <==> p.Full()
    ensures r.None? ==> p' == p
    ensures r.Some? ==> slot < p.capacity && !p.Bit(slot) && (forall j :: 0 <= j < slot ==> p.Bit(j))
    ensures r.Some? ==> r.value == p.SlotAddr(slot) && p' == p.WithBit(slot, true)
  {
    slot := 0;
    for word := 0 to WORDS
      invariant forall j :: 0 <= j < word * BITS && j < p.capacity ==> p.Bit(j)
    {
      var bit := FirstClear(p.bitmap[word]);
      if bit < BITS {
        var i := word * BITS + bit;
        assert !p.Bit(i);
        assert i / BITS == word && i % BITS == bit;
        assert forall j :: word * BITS <= j < i ==> j / BITS == word && j % BITS == j - word * BITS;
        if i >= p.capacity {
          continue;
        }
        p' := p.WithBit(i, true);
        return p', Some(p.base + i * p.objSize), i;
      }
      assert forall j :: word * BITS <= j < (word + 1) * BITS ==> j / BITS == word && j % BITS == j - word * BITS;
    }
    return p, None, 0;
  }

  /** The first n bits of word w are slots w * BITS and on. */
  lemma BitsOfWord(p: SlabPage, w: nat, n: nat)
    requires w < WORDS && n <= BITS
    ensures (forall j: nat :: w * BITS <= j < w * BITS + n && j < WORDS * BITS ==> p.Bit(j)) <==>
        (forall b :: 0 <= b < n ==> p.bitmap[w][b])
  {
    forall b: nat | b < n ensures w * BITS + b < WORDS * BITS && p.Bit(w * BITS + b) == p.bitmap[w][b] {
      DivMod(w, b, BITS);
    }
    forall j: nat | w * BITS <= j < w * BITS + n && j < WORDS * BITS ensures p.Bit(j) == p.bitmap[w][j - w * BITS] {
      DivMod(w, j - w * BITS, BITS);
    }
  }

  /** `is_full`: whole words are compared at once, the rest under a mask. */
  method IsFull(p: SlabPage) returns (full: bool)
    requires p.Valid()
    ensures full <==> p.Full()
  {
    var fullWords := p.capacity / BITS;
    for w := 0 to fullWords
      invariant forall j: nat :: j < w * BITS ==> p.Bit(j)
    {
      BitsOfWord(p, w, BITS);
      if exists b :: 0 <= b < BITS && !p.bitmap[w][b] {
        return false;
      }
    }
    var rem := p.capacity % BITS;
    if rem > 0 {
      BitsOfWord(p, fullWords, rem);
      if exists b :: 0 <= b < rem && !p.bitmap[fullWords][b] {
        return false;
      }
    }
    return true;
  }

  /** `is_empty`: the bitmap is all zero. */
  predicate IsEmpty(p: SlabPage) {
    p.bitmap == seq(WORDS, i => seq(BITS, j => false))
  }

  lemma IsEmptyIsEmpty(p: SlabPage)
    ensures IsEmpty(p) <==> p.Empty()
  {
    if p.Empty() {
      forall w, b | 0 <= w < WORDS && 0 <= b < BITS ensures !p.bitmap[w][b] {
        assert !p.Bit(w * BITS + b);
      }
      forall w | 0 <= w < WORDS ensures p.bitmap[w] == seq(BITS, j => false) {
      }
      assert IsEmpty(p);
    } else {
      var i :| 0 <= i < WORDS * BITS && p.Bit(i);
      assert !IsEmpty(p);
    }
  }

  /** Slots of one page have distinct, well-separated addresses. */
  lemma SlotsApart(p: SlabPage, i: nat, j: nat)
    requires i < j
    ensures p.SlotAddr(i) + p.objSize <= p.SlotAddr(j)
  {
    MulGap(i, j, p.objSize);
  }

  lemma SlotInPage(p: SlabPage, i: nat)
    requires p.Valid() && i < p.capacity
    ensures p.Contains(p.SlotAddr(i)) && p.SlotAddr(i) + p.objSize <= p.base + PAGE_SIZE
  {
    SlotsApart(p, i, p.capacity);
  }

  lemma SlotOfAddr(p: SlabPage, i: nat)
    requires p.objSize > 0
    ensures (p.SlotAddr(i) - p.base) / p.objSize == i
  {
    DivUnique(i * p.objSize, i, p.objSize);
  }

  lemma WithBitBits(p: SlabPage, i: nat, v: bool)
    requires i < WORDS * BITS
    ensures forall j :: 0 <= j < WORDS * BITS ==> (p.WithBit(i, v).Bit(j) <==> if j == i then v else p.Bit(j))
  {
    forall j | 0 <= j < WORDS * BITS ensures p.WithBit(i, v).Bit(j) <==> if j == i then v else p.Bit(j) {
      if j / BITS == i / BITS && j % BITS == i % BITS {
        assert j == i;
      }
    }
  }

  /** Setting slot i's bit to v makes exactly its address live, or dead. */
  lemma WithBitLive(p: SlabPage, i: nat, v: bool)
    requires p.Valid() && i < p.capacity
    ensures var q := p.WithBit(i, v);
            q.Valid() && forall a :: q.IsLive(a) <==> if a == p.SlotAddr(i) then v else p.IsLive(a)
  {
    var q := p.WithBit(i, v);
    WithBitBits(p, i, v);
    forall a ensures q.IsLive(a) <==> if a == p.SlotAddr(i) then v else p.IsLive(a) {
      WithBitLiveAt(p, q, i, v, a);
    }
  }

  lemma WithBitLiveAt(p: SlabPage, q: SlabPage, i: nat, v: bool, a: nat)
    requires p.Valid() && i < p.capacity && q == p.(bitmap := q.bitmap)
    requires forall j :: 0 <= j < WORDS * BITS ==> (q.Bit(j) <==> if j == i then v else p.Bit(j))
    ensures q.IsLive(a) <==> if a == p.SlotAddr(i) then v else p.IsLive(a)
  {
    if a == p.SlotAddr(i) {
      if v {
        assert q.LiveSlot(i, a);
      }
      forall j: nat | q.LiveSlot(j, a) ensures j == i {
        if j < i { SlotsApart(p, j, i); } else if i < j { SlotsApart(p, i, j); }
      }
    } else {
      forall j: nat ensures p.LiveSlot(j, a) <==> q.LiveSlot(j, a) {
      }
    }
  }

  lemma NonEmptyHasLive(p: SlabPage) returns (a: nat)
    requires p.Valid() && !p.Empty()
    ensures p.IsLive(a)
  {
    var s :| 0 <= s < WORDS * BITS && p.Bit(s);
    a := p.SlotAddr(s);
    assert p.LiveSlot(s, a);
  }

  lemma EmptyHasNoLive(p: SlabPage, a: nat)
    requires p.Valid()
    ensures p.Empty() ==> !p.IsLive(a)
  {
  }

  /** `SlabPage::free`: clears the slot the address falls in. */
  function PageFree(p: SlabPage, ptr: nat): SlabPage
    requires p.Valid() && p.Contains(ptr)
  {
    SlotBelow(p, ptr);
    p.WithBit((ptr - p.base) / p.objSize, false)
  }

  lemma SlotBelow(p: SlabPage, ptr: nat)
    requires p.Valid() && p.Contains(ptr)
    ensures (ptr - p.base) / p.objSize < p.capacity
  {
    var q := (ptr - p.base) / p.objSize;
    assert q * p.objSize <= ptr - p.base;
    if p.capacity < q {
      MulGap(p.capacity, q, p.objSize);
    }
  }

  // ---------------------------------------------------------------- a cache's pages

  /** The order-0 block a slab page occupies, in a region that starts at region. */
  function PageBlock(region: nat, p: SlabPage): Block {
    if region <= p.base then Block(0, (p.base - region) / PAGE_SIZE) else Block(0, 0)
  }

  ghost predicate OnPage(region: nat, p: SlabPage) {
    region <= p.base && (p.base - region) % PAGE_SIZE == 0
  }

  /** A page of as many objects of this size as fit. */
  ghost predicate IsPageOf(p: SlabPage, objSize: nat) {
    p.Valid() && p.objSize == objSize && p.capacity * objSize <= PAGE_SIZE < (p.capacity + 1) * objSize
  }

  /** Pages of one object size, on distinct pages of the region, at most one of them empty. */
  ghost predicate PagesOk(ps: seq<SlabPage>, objSize: nat, region: nat) {
    && 16 <= objSize <= 2048
    && (forall i :: 0 <= i < |ps| ==> IsPageOf(ps[i], objSize) && OnPage(region, ps[i]))
    && (forall i, j :: 0 <= i < j < |ps| ==> ps[i].base != ps[j].base)
    && (forall i, j :: 0 <= i < j < |ps| ==> !(ps[i].Empty() && ps[j].Empty()))
  }

  /** Like PagesOk, but page k may be a second empty one. */
  ghost predicate AllButOneOk(ps: seq<SlabPage>, objSize: nat, region: nat, k: nat) {
    && 16 <= objSize <= 2048
    && (forall i :: 0 <= i < |ps| ==> IsPageOf(ps[i], objSize) && OnPage(region, ps[i]))
    && (forall i, j :: 0 <= i < j < |ps| ==> ps[i].base != ps[j].base)
    && (forall i, j :: 0 <= i < j < |ps| && i != k && j != k ==> !(ps[i].Empty() && ps[j].Empty()))
  }

  /** ps with entry k removed, the others in order. */
  ghost function Without(ps: seq<SlabPage>, k: nat): (qs: seq<SlabPage>)
    requires k < |ps|
    ensures |qs| == |ps| - 1
    ensures forall i :: 0 <= i < |qs| ==> qs[i] == ps[if i < k then i else i + 1]
  {
    ps[..k] + ps[k + 1..]
  }

  lemma WithoutCleared(ps: seq<SlabPage>, k: nat, ptr: nat)
    requires k < |ps| && ps[k].Valid() && ps[k].Contains(ptr)
    ensures Without(Cleared(ps, k, ptr), k) == Without(ps, k)
  {
  }

  ghost function LiveSet(ps: seq<SlabPage>): iset<nat> {
    iset a | LiveIn(ps, a)
  }

  lemma BlockInjective(region: nat, p: SlabPage, q: SlabPage)
    requires OnPage(region, p) && OnPage(region, q)
    ensures PageBlock(region, p) == PageBlock(region, q) <==> p.base == q.base
  {
  }

  ghost predicate LiveIn(ps: seq<SlabPage>, a: nat) {
    exists i :: 0 <= i < |ps| && ps[i].IsLive(a)
  }

  ghost function BlocksOf(ps: seq<SlabPage>, region: nat): set<Block>
  {
    set i | 0 <= i < |ps| :: PageBlock(region, ps[i])
  }

  lemma ContainsOnce(ps: seq<SlabPage>, objSize: nat, region: nat, i: nat, j: nat, a: nat)
    requires PagesOk(ps, objSize, region) && i < |ps| && j < |ps|
    requires ps[i].Contains(a) && ps[j].Contains(a)
    ensures i == j
  {
    SamePage(region, ps[i], ps[j], a);
  }

  /** Two pages that contain the same address start at the same place. */
  lemma SamePage(region: nat, p: SlabPage, q: SlabPage, a: nat)
    requires p.Valid() && q.Valid() && OnPage(region, p) && OnPage(region, q)
    requires p.Contains(a) && q.Contains(a)
    ensures p.base == q.base
  {
    var x, y := (p.base - region) / PAGE_SIZE, (q.base - region) / PAGE_SIZE;
    assert p.base == region + x * PAGE_SIZE && q.base == region + y * PAGE_SIZE;
  }

  lemma LiveIsContained(p: SlabPage, a: nat)
    requires p.Valid() && p.IsLive(a)
    ensures p.Contains(a) && a + p.objSize <= p.base + PAGE_SIZE
  {
    var i: nat :| p.LiveSlot(i, a);
    SlotInPage(p, i);
  }

  /** Writing back a page that gained or lost one object. */
  lemma UpdatePage(ps: seq<SlabPage>, objSize: nat, region: nat, k: nat, slot: nat, v: bool)
    requires PagesOk(ps, objSize, region) && k < |ps| && slot < ps[k].capacity
    ensures var qs := ps[k := ps[k].WithBit(slot, v)];
            && (forall a :: LiveIn(qs, a) <==> if a == ps[k].SlotAddr(slot) then v else LiveIn(ps, a))
            && AllButOneOk(qs, objSize, region, k)
            && BlocksOf(qs, region) == BlocksOf(ps, region)
            && (v ==> PagesOk(qs, objSize, region))
  {
    var q := ps[k].WithBit(slot, v);
    var qs := ps[k := q];
    WithBitLive(ps[k], slot, v);
    if v {
      WithBitBits(ps[k], slot, v);
      assert q.Bit(slot);
    }
    var x := ps[k].SlotAddr(slot);
    SlotInPage(ps[k], slot);
    forall a ensures LiveIn(qs, a) <==> if a == x then v else LiveIn(ps, a) {
      if a == x {
        if v { assert qs[k].IsLive(a); }
        forall i | 0 <= i < |ps| && ps[i].IsLive(x) ensures i == k {
          LiveIsContained(ps[i], x);
          ContainsOnce(ps, objSize, region, i, k, x);
        }
      } else {
        forall i | 0 <= i < |ps| ensures qs[i].IsLive(a) <==> ps[i].IsLive(a) {
        }
      }
    }
    forall i | 0 <= i < |ps| ensures PageBlock(region, qs[i]) == PageBlock(region, ps[i]) {
    }
    assert BlocksOf(qs, region) == BlocksOf(ps, region);
  }

  /** Adding a fresh page with its first slot handed out. */
  lemma AppendPage(ps: seq<SlabPage>, objSize: nat, region: nat, base: nat)
    requires PagesOk(ps, objSize, region)
    requires OnPage(region, NewPage(base, objSize)) &&
        PageBlock(region, NewPage(base, objSize)) !in BlocksOf(ps, region)
    ensures var q := NewPage(base, objSize).WithBit(0, true);
            var qs := ps + [q];
            && q.capacity > 0 && q.SlotAddr(0) == base
            && PagesOk(qs, objSize, region)
            && (forall a :: LiveIn(qs, a) <==> LiveIn(ps, a) || a == base)
            && !LiveIn(ps, base)
            && BlocksOf(qs, region) == BlocksOf(ps, region) + {PageBlock(region, q)}
  {
    var p := NewPage(base, objSize);
    NewPageValid(base, objSize);
    WithBitLive(p, 0, true);
    WithBitBits(p, 0, true);
    var q := p.WithBit(0, true);
    assert q.Bit(0);
    var qs := ps + [q];
    SlotInPage(p, 0);
    forall i | 0 <= i < |ps| ensures ps[i].base != base && !ps[i].IsLive(base) {
      assert PageBlock(region, ps[i]) in BlocksOf(ps, region);
      BlockInjective(region, ps[i], p);
      if ps[i].IsLive(base) {
        LiveIsContained(ps[i], base);
        SamePage(region, ps[i], p, base);
      }
    }
    forall a ensures LiveIn(qs, a) <==> LiveIn(ps, a) || a == base {
      EmptyHasNoLive(p, a);
      assert q.IsLive(a) <==> a == base;
      AppendLive(ps, q, a);
    }
    AppendBlocks(ps, q, region);
  }

  lemma AppendLive(ps: seq<SlabPage>, q: SlabPage, a: nat)
    ensures LiveIn(ps + [q], a) <==> LiveIn(ps, a) || q.IsLive(a)
  {
    var qs := ps + [q];
    assert qs[|ps|] == q;
    forall i | 0 <= i < |ps| ensures qs[i] == ps[i] {
    }
  }

  lemma AppendBlocks(ps: seq<SlabPage>, q: SlabPage, region: nat)
    ensures BlocksOf(ps + [q], region) == BlocksOf(ps, region) + {PageBlock(region, q)}
  {
    var qs := ps + [q];
    forall b | b in BlocksOf(ps, region) + {PageBlock(region, q)} ensures b in BlocksOf(qs, region) {
      if b == PageBlock(region, q) {
        assert qs[|ps|] == q;
      } else {
        var i :| 0 <= i < |ps| && PageBlock(region, ps[i]) == b;
        assert qs[i] == ps[i];
      }
    }
  }

  lemma NewPageValid(base: nat, objSize: nat)
    requires 16 <= objSize <= 2048
    ensures NewPage(base, objSize).Valid() && NewPage(base, objSize).Empty()
    ensures NewPage(base, objSize).capacity == PAGE_SIZE / objSize
  {
    var c := PAGE_SIZE / objSize;
    assert c * objSize <= PAGE_SIZE;
  }

  /** One more page, in a block of its own, with its first slot taken. */
  lemma GrownPages(ps: seq<SlabPage>, objSize: nat, region: nat, base: nat, b: Block)
    requires PagesOk(ps, objSize, region) && b.order == 0 && base == StartOf(region, b) && b !in BlocksOf(ps, region)
    ensures var p := NewPage(base, objSize);
            p.Valid() && p.capacity > 0 && !p.Bit(0) && p.SlotAddr(0) == base
    ensures var q := NewPage(base, objSize).WithBit(0, true);
            && PagesOk(ps + [q], objSize, region) && PageBlock(region, q) == b
            && base !in LiveSet(ps) && LiveSet(ps + [q]) == LiveSet(ps) + iset{base}
            && BlocksOf(ps + [q], region) == BlocksOf(ps, region) + {b}
  {
    NewPageValid(base, objSize);
    assert Shl(b.idx, 0) == b.idx;
    AppendPage(ps, objSize, region, base);
  }

  /** Dropping an empty page leaves the live objects as they are. */
  lemma RemovePage(ps: seq<SlabPage>, objSize: nat, region: nat, k: nat)
    requires k < |ps| && AllButOneOk(ps, objSize, region, k) && ps[k].Empty()
    ensures var qs := Without(ps, k);
            && PagesOk(qs, objSize, region)
            && (forall a :: LiveIn(qs, a) <==> LiveIn(ps, a))
            && BlocksOf(qs, region) == BlocksOf(ps, region) - {PageBlock(region, ps[k])}
  {
    var qs := Without(ps, k);
    assert forall i :: 0 <= i < |qs| ==> qs[i] == ps[if i < k then i else i + 1];
    forall a ensures LiveIn(qs, a) <==> LiveIn(ps, a) {
      EmptyHasNoLive(ps[k], a);
      RemoveLive(ps, k, a);
    }
    forall i | 0 <= i < |ps| && i != k ensures PageBlock(region, ps[i]) != PageBlock(region, ps[k]) {
      BlockInjective(region, ps[i], ps[k]);
    }
    RemoveBlocks(ps, k, region);
  }

  lemma RemoveLive(ps: seq<SlabPage>, k: nat, a: nat)
    requires k < |ps| && !ps[k].IsLive(a)
    ensures LiveIn(Without(ps, k), a) <==> LiveIn(ps, a)
  {
    var qs := Without(ps, k);
    if LiveIn(ps, a) {
      var i :| 0 <= i < |ps| && ps[i].IsLive(a);
      assert qs[if i < k then i else i - 1] == ps[i];
    }
    if LiveIn(qs, a) {
      var i :| 0 <= i < |qs| && qs[i].IsLive(a);
      assert ps[if i < k then i else i + 1] == qs[i];
    }
  }

  lemma RemoveBlocks(ps: seq<SlabPage>, k: nat, region: nat)
    requires k < |ps| && forall i :: 0 <= i < |ps| && i != k ==> PageBlock(region, ps[i]) != PageBlock(region, ps[k])
    ensures BlocksOf(Without(ps, k), region) == BlocksOf(ps, region) - {PageBlock(region, ps[k])}
  {
    var qs := Without(ps, k);
    forall b | b in BlocksOf(ps, region) - {PageBlock(region, ps[k])} ensures b in BlocksOf(qs, region) {
      var i :| 0 <= i < |ps| && PageBlock(region, ps[i]) == b;
      assert qs[if i < k then i else i - 1] == ps[i];
    }
    forall b | b in BlocksOf(qs, region) ensures b in BlocksOf(ps, region) - {PageBlock(region, ps[k])} {
      var i :| 0 <= i < |qs| && PageBlock(region, qs[i]) == b;
      assert ps[if i < k then i else i + 1] == qs[i];
    }
  }

  // ---------------------------------------------------------------- one cache

  /** The filled entries are the first count ones. */
  ghost predicate Shaped(pages: seq<Option<SlabPage>>, count: nat) {
    && |pages| == MAX_SLABS_PER_SIZE && count <= MAX_SLABS_PER_SIZE
    && forall i :: 0 <= i < MAX_SLABS_PER_SIZE ==> (pages[i].Some? <==> i < count)
  }

  ghost function FilledOf(pages: seq<Option<SlabPage>>, count: nat): (ps: seq<SlabPage>)
    requires Shaped(pages, count)
    ensures |ps| == count && forall i :: 0 <= i < count ==> pages[i] == Some(ps[i])
  {
    seq(count, i requires 0 <= i < count => pages[i].value)
  }

  lemma EntrySet(pages: seq<Option<SlabPage>>, count: nat, i: nat, page: SlabPage)
    requires Shaped(pages, count) && i < count
    ensures Shaped(pages[i := Some(page)], count)
    ensures FilledOf(pages[i := Some(page)], count) == FilledOf(pages, count)[i := page]
  {
  }

  class SlabCache {
    const objSize: nat
    var pages: seq<Option<SlabPage>>
    var count: nat
    ghost var live: iset<nat>     // the addresses of the objects handed out
    ghost var blocks: set<Block>  // the order-0 blocks the pages occupy

    constructor (objSize: nat, ghost region: nat)
      requires 16 <= objSize <= 2048
      ensures this.objSize == objSize && Valid(region) && Filled() == []
      ensures live == iset{} && blocks == {}
    {
      this.objSize := objSize;
      pages := seq(MAX_SLABS_PER_SIZE, i => None);
      count := 0;
      live, blocks := iset{}, {};
    }

    ghost predicate Shape()
      reads this
    {
      Shaped(pages, count)
    }

    ghost function Filled(): (ps: seq<SlabPage>)
      reads this
      requires Shape()
      ensures |ps| == count && forall i :: 0 <= i < count ==> pages[i] == Some(ps[i])
    {
      FilledOf(pages, count)
    }

    ghost predicate Valid(region: nat)
      reads this
    {
      && Shape() && PagesOk(Filled(), objSize, region)
      && live == LiveSet(Filled()) && blocks == BlocksOf(Filled(), region)
    }

    ghost predicate Contains(a: nat)
      reads this
      requires Shape()
    {
      exists i :: 0 <= i < count && Filled()[i].Contains(a)
    }

    /** Every page of the cache is full, and no further one can be had: there are as many as
        a cache can have, or every managed page is handed out. */
    ghost predicate Exhausted(buddy: BuddyAllocator)
      reads this, buddy
      requires Shape()
    {
      AllFull(Filled()) && (count == MAX_SLABS_PER_SIZE || AllBusy(buddy.outstanding, buddy.totalPages, 0))
    }

    /** The first page with room supplies the object, in its lowest clear slot; only when all
        pages are full is a fresh page taken from the buddy allocator. */
    method Alloc(buddy: BuddyAllocator) returns (r: Option<nat>, ghost k: nat, ghost slot: nat)
      requires buddy.Valid() && Valid(buddy.base) && blocks <= buddy.outstanding
      modifies this, buddy
      ensures buddy.Valid() && buddy.base == old(buddy.base)
      ensures buddy.totalPages == old(buddy.totalPages) && buddy.maxOrder == old(buddy.maxOrder)
      ensures Valid(buddy.base)
      ensures FirstWithRoom(old(Filled()), k)
      ensures r.None? ==> k == old(count) && unchanged(this)
      ensures r.None? ==> buddy.free == old(buddy.free) && buddy.outstanding == old(buddy.outstanding)
      ensures r.None? <==> old(Exhausted(buddy))
      ensures r.Some? && k < old(count) ==> Reused(old(Filled()), Filled(), k, slot, r.value)
      ensures r.Some? && k < old(count) ==> buddy.free == old(buddy.free) && buddy.outstanding == old(buddy.outstanding)
      ensures r.Some? && k == old(count) ==> Filled() == old(Filled()) + [NewPage(r.value, objSize).WithBit(0, true)]
      ensures r.Some? && k == old(count) ==>
          FreshBlock(old(buddy.outstanding), buddy.outstanding, PageBlock(buddy.base, Filled()[k]))
      ensures r.Some? ==> r.value !in old(live) && live == old(live) + iset{r.value}
      ensures OthersKept(old(buddy.outstanding), old(blocks), buddy.outstanding, blocks)
    {
      k, slot := 0, 0;
      ghost var was := Filled();
      var i := 0;
      while i < count
        invariant i <= count && unchanged(this) && unchanged(buddy)
        invariant forall j :: 0 <= j < i ==> was[j].Full()
      {
        var full := IsFull(pages[i].value);
        if !full {
          r, slot := Reuse(i, buddy);
          return r, i, slot;
        }
        i := i + 1;
      }
      k := count;
      if count >= MAX_SLABS_PER_SIZE {
        return None, k, 0;
      }
      var got;
      ghost var from, b;
      got, from, b := buddy.AllocPages(0);
      if got.None? {
        return None, k, 0;
      }
      r := Grow(got.value, b, buddy);
    }

    /** The reuse branch of `alloc`: page i has room. */
    method Reuse(i: nat, buddy: BuddyAllocator) returns (r: Option<nat>, ghost slot: nat)
      requires Valid(buddy.base) && i < count && !Filled()[i].Full()
      modifies this
      ensures Valid(buddy.base) && count == old(count) && r.Some?
      ensures Reused(old(Filled()), Filled(), i, slot, r.value)
      ensures r.value !in old(live) && live == old(live) + iset{r.value} && blocks == old(blocks)
    {
      ghost var was := Filled();
      var page := pages[i].value;
      assert was[i] == page;
      var page';
      page', r, slot := PageAlloc(page);
      UpdatePage(was, objSize, buddy.base, i, slot, true);
      SlotNotLive(was, objSize, buddy.base, i, slot);
      pages := pages[i := Some(page')];
      live := live + iset{r.value};
      assert Filled() == was[i := page'];
    }

    /** The growing branch of `alloc`: a fresh page with its first slot handed out. */
    method Grow(pageAddr: nat, ghost b: Block, buddy: BuddyAllocator) returns (r: Option<nat>)
      requires Valid(buddy.base) && count < MAX_SLABS_PER_SIZE
      requires b.order == 0 && pageAddr == StartOf(buddy.base, b) && b !in blocks
      modifies this
      ensures Valid(buddy.base) && r == Some(pageAddr)
      ensures Filled() == old(Filled()) + [NewPage(pageAddr, objSize).WithBit(0, true)]
      ensures PageBlock(buddy.base, Filled()[old(count)]) == b
      ensures pageAddr !in old(live) && live == old(live) + iset{pageAddr}
      ensures blocks == old(blocks) + {b}
    {
      ghost var was := Filled();
      assert 16 <= objSize <= 2048;
      hide PagesOk, LiveSet, BlocksOf, NewPage, PageBlock;
      GrownPages(was, objSize, buddy.base, pageAddr, b);
      ghost var slot;
      var slab;
      slab, r, slot := PageAlloc(NewPage(pageAddr, objSize));
      assert slot == 0;
      pages := pages[count := Some(slab)];
      count := count + 1;
      live, blocks := live + iset{pageAddr}, blocks + {b};
      assert Filled() == was + [slab];
    }

    /** Clears the object's slot. A page that becomes empty while another one is empty goes
        back to the buddy allocator. False, and no change, when no page holds the address. */
    method Free(ptr: nat, buddy: BuddyAllocator) returns (found: bool, ghost k: nat)
      requires buddy.Valid() && Valid(buddy.base) && blocks <= buddy.outstanding
      requires Contains(ptr) ==> ptr in live
      modifies this, buddy
      ensures buddy.Valid() && buddy.base == old(buddy.base)
      ensures buddy.totalPages == old(buddy.totalPages) && buddy.maxOrder == old(buddy.maxOrder)
      ensures Valid(buddy.base)
      ensures found <==> old(Contains(ptr))
      ensures !found ==> unchanged(this) && unchanged(buddy)
      ensures found ==> ptr in old(live) && live == old(live) - iset{ptr}
      ensures found ==> k < old(count) && old(Filled())[k].Contains(ptr)
      ensures found ==> count == if GoesBack(old(Filled()), k, ptr) then old(count) - 1 else old(count)
      ensures found && count == old(count) ==>
          buddy.free == old(buddy.free) && buddy.outstanding == old(buddy.outstanding)
      ensures found && count == old(count) ==> Filled() == Cleared(old(Filled()), k, ptr)
      ensures found && count != old(count) ==> Filled() == Without(old(Filled()), k)
      ensures found && count != old(count) ==>
                buddy.outstanding == old(buddy.outstanding) - {PageBlock(buddy.base, old(Filled())[k])}
      ensures OthersKept(old(buddy.outstanding), old(blocks), buddy.outstanding, blocks)
    {
      k := 0;
      ghost var was := Filled();
      var i := 0;
      while i < count && !pages[i].value.Contains(ptr)
        invariant i <= count
        invariant forall j :: 0 <= j < i ==> !was[j].Contains(ptr)
      {
        i := i + 1;
      }
      if i == count {
        return false, 0;
      }
      assert was[i].Contains(ptr);
      FreeAt(i, ptr, buddy);
      return true, i;
    }

    /** `free` once the page has been found. */
    method FreeAt(i: nat, ptr: nat, buddy: BuddyAllocator)
      requires buddy.Valid() && Valid(buddy.base) && blocks <= buddy.outstanding
      requires i < count && Filled()[i].Contains(ptr) && ptr in live
      modifies this, buddy
      ensures buddy.Valid() && buddy.base == old(buddy.base)
      ensures buddy.totalPages == old(buddy.totalPages) && buddy.maxOrder == old(buddy.maxOrder)
      ensures Valid(buddy.base) && live == old(live) - iset{ptr}
      ensures count == if GoesBack(old(Filled()), i, ptr) then old(count) - 1 else old(count)
      ensures count == old(count) ==> buddy.free == old(buddy.free) && buddy.outstanding == old(buddy.outstanding)
      ensures count == old(count) ==> Filled() == Cleared(old(Filled()), i, ptr)
      ensures count != old(count) ==> Filled() == Without(old(Filled()), i)
      ensures count != old(count) ==>
                buddy.outstanding == old(buddy.outstanding) - {PageBlock(buddy.base, old(Filled())[i])}
      ensures OthersKept(old(buddy.outstanding), old(blocks), buddy.outstanding, blocks)
    {
      hide GoesBack, Partition, Coalesced, LiveSet, BlocksOf;
      ghost var was := Filled();
      assert was[i].Valid();
      var page := ClearSlot(i, ptr, buddy.base);
      GoesBackIs(was, i, ptr);
      var release := ReleaseNeeded(i);
      if release {
        Release(i, page.base, buddy);
        WithoutCleared(was, i, ptr);
      } else {
        StillOk(Filled(), objSize, buddy.base, i);
      }
    }

    /** The test of `free`: page i is empty, and so is some other page. */
    method ReleaseNeeded(i: nat) returns (release: bool)
      requires Shape() && i < count
      ensures release <==> Filled()[i].Empty() && exists j :: 0 <= j < count && j != i && Filled()[j].Empty()
    {
      var empty := IsEmpty(pages[i].value);
      release := false;
      if empty && count > 1 {
        var hasOtherEmpty := exists j :: 0 <= j < count && j != i && IsEmpty(pages[j].value);
        release := hasOtherEmpty;
      }
      assert forall j :: 0 <= j < count ==> pages[j].value == Filled()[j];
      ReleaseTest(Filled(), i, release);
    }

    /** `SlabPage::free` on page i, in place. */
    method ClearSlot(i: nat, ptr: nat, ghost region: nat) returns (page: SlabPage)
      requires Valid(region) && i < count && Filled()[i].Contains(ptr) && ptr in live
      modifies this`pages, this`live
      ensures Shape() && Filled() == Cleared(old(Filled()), i, ptr) && page == Filled()[i]
      ensures live == old(live) - iset{ptr} == LiveSet(Filled()) && blocks == BlocksOf(Filled(), region)
      ensures AllButOneOk(Filled(), objSize, region, i)
      ensures page.Empty() <==> forall a :: old(Filled())[i].IsLive(a) ==> a == ptr
    {
      ghost var was := Filled();
      ClearedTakesBack(was, objSize, region, i, ptr);
      page := PageFree(pages[i].value, ptr);
      EntrySet(pages, count, i, page);
      pages := pages[i := Some(page)];
      live := live - iset{ptr};
    }

    /** The release branch of `free`: page i, now empty, goes back. */
    method Release(i: nat, base: nat, buddy: BuddyAllocator)
      requires buddy.Valid() && Shape() && i < count && base == Filled()[i].base && Filled()[i].Empty()
      requires AllButOneOk(Filled(), objSize, buddy.base, i) && blocks <= buddy.outstanding
      requires live == LiveSet(Filled()) && blocks == BlocksOf(Filled(), buddy.base)
      modifies this, buddy
      ensures buddy.Valid() && buddy.base == old(buddy.base)
      ensures buddy.totalPages == old(buddy.totalPages) && buddy.maxOrder == old(buddy.maxOrder)
      ensures Valid(buddy.base) && count == old(count) - 1
      ensures Filled() == Without(old(Filled()), i)
      ensures live == old(live) && PageBlock(buddy.base, old(Filled())[i]) in old(blocks)
      ensures blocks == old(blocks) - {PageBlock(buddy.base, old(Filled())[i])}
      ensures buddy.outstanding == old(buddy.outstanding) - {PageBlock(buddy.base, old(Filled())[i])}
    {
      ghost var mid := Filled();
      RemovePage(mid, objSize, buddy.base, i);
      ReturnedPage(mid, buddy.base, i);
      buddy.FreePages(base, 0, PageBlock(buddy.base, mid[i]));
      pages := pages[i := None];
      blocks := blocks - {PageBlock(buddy.base, mid[i])};
      Compact(i, mid);
    }

    /** Moves the freed entry to the end by neighbour swaps: the others keep their order. */
    method Compact(removed: nat, ghost was: seq<SlabPage>)
      requires |pages| == MAX_SLABS_PER_SIZE && removed < count <= MAX_SLABS_PER_SIZE && |was| == count
      requires GapAt(pages, was, removed, removed)
      modifies this`pages, this`count
      ensures count == old(count) - 1 && Shape()
      ensures Filled() == Without(was, removed)
    {
      if removed < count - 1 {
        var i := removed;
        while i < count - 1
          invariant removed <= i <= count - 1 && count == old(count) && |pages| == MAX_SLABS_PER_SIZE
          invariant GapAt(pages, was, removed, i)
        {
          GapSwap(pages, was, removed, i);
          pages := pages[i := pages[i + 1]][i + 1 := pages[i]];
          i := i + 1;
        }
      }
      GapAtEnd(pages, was, removed);
      count := count - 1;
    }
  }

  /** Entry j of the pages of `was` without entry `removed`, with a gap at position gap. */
  function WithGap(was: seq<SlabPage>, removed: nat, gap: nat, j: nat): Option<SlabPage>
    requires removed <= gap < |was|
  {
    if j < removed then Some(was[j])
    else if j < gap then Some(was[j + 1])
    else if j == gap || j >= |was| then None
    else Some(was[j])
  }

  ghost predicate GapAt(pages: seq<Option<SlabPage>>, was: seq<SlabPage>, removed: nat, gap: nat)
    requires removed <= gap < |was| <= |pages|
  {
    forall j :: 0 <= j < |pages| ==> pages[j] == WithGap(was, removed, gap, j)
  }

  lemma GapSwap(pages: seq<Option<SlabPage>>, was: seq<SlabPage>, removed: nat, gap: nat)
    requires removed <= gap < |was| - 1 && |was| <= |pages| && GapAt(pages, was, removed, gap)
    ensures GapAt(pages[gap := pages[gap + 1]][gap + 1 := pages[gap]], was, removed, gap + 1)
  {
  }

  lemma GapAtEnd(pages: seq<Option<SlabPage>>, was: seq<SlabPage>, removed: nat)
    requires removed < |was| <= |pages| == MAX_SLABS_PER_SIZE && GapAt(pages, was, removed, |was| - 1)
    ensures Shaped(pages, |was| - 1)
    ensures FilledOf(pages, |was| - 1) == Without(was, removed)
  {
    var n := |was| - 1;
    forall i | 0 <= i < n ensures pages[i] == Some(was[if i < removed then i else i + 1]) {
    }
  }

  /** k is the first page with room, or the number of pages if all are full. */
  ghost predicate FirstWithRoom(ps: seq<SlabPage>, k: nat) {
    && k <= |ps| && (forall j :: 0 <= j < k ==> ps[j].Full())
    && (k < |ps| ==> !ps[k].Full())
  }

  ghost predicate AllFull(ps: seq<SlabPage>) {
    forall j :: 0 <= j < |ps| ==> ps[j].Full()
  }

  /** Page k holds no live object but this one, and some other page holds none at all. */
  ghost predicate GoesBack(ps: seq<SlabPage>, k: nat, ptr: nat)
    requires k < |ps|
  {
    && (forall a :: ps[k].IsLive(a) ==> a == ptr)
    && exists j :: 0 <= j < |ps| && j != k && ps[j].Empty()
  }

  /** a is the lowest clear slot of page k, now set; the other pages are as before. */
  ghost predicate Reused(ps: seq<SlabPage>, qs: seq<SlabPage>, k: nat, slot: nat, a: nat) {
    && k < |ps| && slot < ps[k].capacity && slot < WORDS * BITS && !ps[k].Bit(slot)
    && (forall j :: 0 <= j < slot ==> ps[k].Bit(j))
    && qs == ps[k := ps[k].WithBit(slot, true)]
    && a == ps[k].SlotAddr(slot)
  }

  /** a is no longer live, and nothing else changed. */
  ghost predicate TakenBack(ps: seq<SlabPage>, qs: seq<SlabPage>, a: nat) {
    LiveIn(ps, a) && forall x :: LiveIn(qs, x) <==> LiveIn(ps, x) && x != a
  }

  ghost predicate FreshBlock(out: set<Block>, out': set<Block>, b: Block) {
    b !in out && out' == out + {b}
  }

  /** Apart from the pages of this cache, what is handed out stays as it was. */
  ghost predicate OthersKept(out: set<Block>, blocks: set<Block>, out': set<Block>, blocks': set<Block>) {
    && out' - blocks' == out - blocks
    && blocks' <= out'
    && (blocks' - blocks) !! out
  }

  ghost function Cleared(ps: seq<SlabPage>, k: nat, ptr: nat): seq<SlabPage>
    requires k < |ps| && ps[k].Valid() && ps[k].Contains(ptr)
  {
    ps[k := PageFree(ps[k], ptr)]
  }

  /** The release test asks whether page i and some other page are empty. */
  lemma ReleaseTest(ps: seq<SlabPage>, i: nat, release: bool)
    requires i < |ps|
    requires release <==> IsEmpty(ps[i]) && |ps| > 1 && exists j :: 0 <= j < |ps| && j != i && IsEmpty(ps[j])
    ensures release <==> ps[i].Empty() && exists j :: 0 <= j < |ps| && j != i && ps[j].Empty()
  {
    forall j | 0 <= j < |ps| ensures IsEmpty(ps[j]) <==> ps[j].Empty() {
      IsEmptyIsEmpty(ps[j]);
    }
  }

  lemma ReturnedPage(ps: seq<SlabPage>, region: nat, i: nat)
    requires i < |ps| && OnPage(region, ps[i])
    ensures var b := PageBlock(region, ps[i]);
            b in BlocksOf(ps, region) && b.order == 0 && ps[i].base == StartOf(region, b)
  {
    var b := PageBlock(region, ps[i]);
    assert Shl(b.idx, 0) == b.idx;
  }

  lemma SlotNotLive(ps: seq<SlabPage>, objSize: nat, region: nat, k: nat, slot: nat)
    requires PagesOk(ps, objSize, region) && k < |ps| && slot < ps[k].capacity && !ps[k].Bit(slot)
    ensures !LiveIn(ps, ps[k].SlotAddr(slot))
  {
    var x := ps[k].SlotAddr(slot);
    SlotInPage(ps[k], slot);
    forall i | 0 <= i < |ps| && ps[i].IsLive(x) ensures false {
      LiveIsContained(ps[i], x);
      ContainsOnce(ps, objSize, region, i, k, x);
      var j: nat :| ps[k].LiveSlot(j, x);
      if j < slot { SlotsApart(ps[k], j, slot); } else if slot < j { SlotsApart(ps[k], slot, j); }
    }
  }

  /** The slot a live address stands for is the one `PageFree` clears. */
  lemma FreedSlot(ps: seq<SlabPage>, objSize: nat, region: nat, k: nat, ptr: nat) returns (slot: nat)
    requires PagesOk(ps, objSize, region) && k < |ps| && ps[k].Contains(ptr) && LiveIn(ps, ptr)
    ensures slot < ps[k].capacity && ptr == ps[k].SlotAddr(slot) && PageFree(ps[k], ptr) == ps[k].WithBit(slot, false)
  {
    var i :| 0 <= i < |ps| && ps[i].IsLive(ptr);
    LiveIsContained(ps[i], ptr);
    ContainsOnce(ps, objSize, region, i, k, ptr);
    slot :| ps[k].LiveSlot(slot, ptr);
    SlotOfAddr(ps[k], slot);
  }

  lemma ClearedTakesBack(ps: seq<SlabPage>, objSize: nat, region: nat, k: nat, ptr: nat)
    requires PagesOk(ps, objSize, region) && k < |ps| && ps[k].Contains(ptr) && LiveIn(ps, ptr)
    ensures TakenBack(ps, Cleared(ps, k, ptr), ptr)
    ensures AllButOneOk(Cleared(ps, k, ptr), objSize, region, k)
    ensures BlocksOf(Cleared(ps, k, ptr), region) == BlocksOf(ps, region)
    ensures Cleared(ps, k, ptr)[k].Empty() <==> forall a :: ps[k].IsLive(a) ==> a == ptr
  {
    var slot := FreedSlot(ps, objSize, region, k, ptr);
    UpdatePage(ps, objSize, region, k, slot, false);
    OnlyThat(ps[k], slot);
  }

  /** A page is empty after one slot was cleared exactly when it held nothing else. */
  lemma OnlyThat(p: SlabPage, slot: nat)
    requires p.Valid() && slot < p.capacity
    ensures p.WithBit(slot, false).Empty() <==> forall a :: p.IsLive(a) ==> a == p.SlotAddr(slot)
  {
    var q := p.WithBit(slot, false);
    WithBitLive(p, slot, false);
    if q.Empty() {
      forall a | p.IsLive(a) ensures a == p.SlotAddr(slot) {
        EmptyHasNoLive(q, a);
      }
    } else {
      var a := NonEmptyHasLive(q);
    }
  }

  /** Whether a page goes back shows once the object's slot is cleared. */
  lemma GoesBackIs(ps: seq<SlabPage>, k: nat, ptr: nat)
    requires k < |ps| && ps[k].Valid() && ps[k].Contains(ptr)
    requires Cleared(ps, k, ptr)[k].Empty() <==> forall a :: ps[k].IsLive(a) ==> a == ptr
    ensures var qs := Cleared(ps, k, ptr);
            GoesBack(ps, k, ptr) <==> qs[k].Empty() && exists j :: 0 <= j < |qs| && j != k && qs[j].Empty()
  {
    var qs := Cleared(ps, k, ptr);
    assert forall j :: 0 <= j < |ps| && j != k ==> qs[j] == ps[j];
  }

  /** The pages are in order again if no second page is empty. */
  lemma StillOk(ps: seq<SlabPage>, objSize: nat, region: nat, k: nat)
    requires AllButOneOk(ps, objSize, region, k) && k < |ps|
    requires !(ps[k].Empty() && exists j :: 0 <= j < |ps| && j != k && ps[j].Empty())
    ensures PagesOk(ps, objSize, region)
  {
  }

  // ---------------------------------------------------------------- all caches

  ghost predicate PairwiseDisjoint(bs: seq<set<Block>>) {
    forall k, l :: 0 <= k < l < |bs| ==> bs[k] !! bs[l]
  }

  ghost function Rest(bs: seq<set<Block>>, out: set<Block>): set<Block> {
    set b | b in out && forall k :: 0 <= k < |bs| ==> b !in bs[k]
  }

  /** The effect of one cache's change on the whole. */
  lemma BlocksKept(bs: seq<set<Block>>, bs': seq<set<Block>>, k: nat, out: set<Block>, out': set<Block>)
    requires |bs| == |bs'| && k < |bs| && bs' == bs[k := bs'[k]] && PairwiseDisjoint(bs)
    requires forall j :: 0 <= j < |bs| ==> bs[j] <= out
    requires OthersKept(out, bs[k], out', bs'[k])
    ensures PairwiseDisjoint(bs') && Rest(bs', out') == Rest(bs, out)
    ensures forall j :: 0 <= j < |bs'| ==> bs'[j] <= out'
  {
    forall j | 0 <= j < |bs| && j != k ensures bs'[j] !! bs'[k] && bs'[j] <= out' {
      assert bs[j] !! bs[k];
      forall b | b in bs[j] ensures b in out' && b !in bs'[k] {
        assert b in out - bs[k];
      }
    }
    forall b ensures b in Rest(bs', out') <==> b in Rest(bs, out) {
      assert b in out' - bs'[k] <==> b in out - bs[k];
      assert forall j :: 0 <= j < |bs| && j != k ==> bs'[j] == bs[j];
    }
  }

  const CACHES: nat := 8
  const SLAB_SIZES: seq<nat> := [16, 32, 64, 128, 256, 512, 1024, 2048]

  /** c is the least class that fits; CACHES if none does. */
  ghost predicate IsClass(size: nat, c: nat) {
    && c <= CACHES && (forall j :: 0 <= j < c ==> SLAB_SIZES[j] < size)
    && (c < CACHES ==> size <= SLAB_SIZES[c])
  }

  /** The least class that fits, from class k on. */
  ghost function ClassFrom(size: nat, k: nat): (c: nat)
    requires k <= CACHES && forall j :: 0 <= j < k ==> SLAB_SIZES[j] < size
    ensures IsClass(size, c)
    ensures c == CACHES <==> k == CACHES || size > SLAB_SIZES[CACHES - 1]
    decreases CACHES - k
  {
    if k == CACHES || size <= SLAB_SIZES[k] then k else ClassFrom(size, k + 1)
  }

  class SlabAllocator {
    const caches: seq<SlabCache>

    constructor (ghost region: nat)
      ensures fresh(caches) && Valid(region)
      ensures forall k :: 0 <= k < CACHES ==> caches[k].Filled() == []
    {
      var cs: seq<SlabCache> := [];
      for k := 0 to CACHES
        invariant |cs| == k && fresh(cs)
        invariant forall j :: 0 <= j < k ==>
            cs[j].objSize == SLAB_SIZES[j] && cs[j].Valid(region) && cs[j].Filled() == []
        invariant forall j :: 0 <= j < k ==> cs[j].live == iset{} && cs[j].blocks == {}
        invariant forall i, j :: 0 <= i < j < k ==> cs[i] != cs[j]
      {
        var c := new SlabCache(SLAB_SIZES[k], region);
        cs := cs + [c];
      }
      caches := cs;
    }

    /** One cache per size, and no two caches share a page. */
    ghost predicate Valid(region: nat)
      reads this, caches
    {
      && |caches| == CACHES
      && (forall k, l :: 0 <= k < l < CACHES ==> caches[k] != caches[l])
      && (forall k :: 0 <= k < CACHES ==> caches[k].objSize == SLAB_SIZES[k] && caches[k].Valid(region))
      && PairwiseDisjoint(Blocks())
    }

    ghost function Blocks(): (bs: seq<set<Block>>)
      reads this, caches
      requires |caches| == CACHES
      ensures |bs| == CACHES && forall k :: 0 <= k < CACHES ==> bs[k] == caches[k].blocks
    {
      seq(CACHES, k requires 0 <= k < |caches| reads this, caches => caches[k].blocks)
    }

    /** The live objects of each cache. */
    ghost function Live(): (ls: seq<iset<nat>>)
      reads this, caches
      requires |caches| == CACHES
      ensures |ls| == CACHES && forall k :: 0 <= k < CACHES ==> ls[k] == caches[k].live
    {
      seq(CACHES, k requires 0 <= k < |caches| reads this, caches => caches[k].live)
    }

    /** The slab pages are among the blocks handed out. */
    ghost predicate Backed(out: set<Block>)
      reads this, caches
      requires |caches| == CACHES
    {
      forall k :: 0 <= k < CACHES ==> Blocks()[k] <= out
    }

    /** The blocks handed out to somebody other than the slab caches. */
    ghost function Elsewhere(out: set<Block>): set<Block>
      reads this, caches
      requires |caches| == CACHES
    {
      Rest(Blocks(), out)
    }

    /** The smallest class that fits serves the request; it is refused exactly when there is
        no such class, or its cache is exhausted. */
    method Alloc(size: nat, buddy: BuddyAllocator) returns (r: Option<nat>, ghost c: nat)
      requires buddy.Valid() && Valid(buddy.base) && Backed(buddy.outstanding)
      modifies caches, buddy
      ensures buddy.Valid() && buddy.base == old(buddy.base)
      ensures buddy.totalPages == old(buddy.totalPages) && buddy.maxOrder == old(buddy.maxOrder)
      ensures Valid(buddy.base) && Backed(buddy.outstanding)
      ensures r.None? ==> buddy.free == old(buddy.free) && buddy.outstanding == old(buddy.outstanding)
      ensures r.None? ==> Live() == old(Live())
      ensures IsClass(size, c) && (c == CACHES <==> size > SLAB_SIZES[CACHES - 1])
      ensures r.None? <==> c == CACHES || old(caches[c].Exhausted(buddy))
      ensures r.Some? ==> r.value !in old(Live())[c]
      ensures r.Some? ==> Live() == old(Live())[c := old(Live())[c] + iset{r.value}]
      ensures Elsewhere(buddy.outstanding) == old(Elsewhere(buddy.outstanding))
    {
      c := CACHES;
      for k := 0 to CACHES
        invariant unchanged(buddy) && (forall j :: 0 <= j < CACHES ==> unchanged(caches[j]))
        invariant forall j :: 0 <= j < k ==> SLAB_SIZES[j] < size
      {
        if caches[k].objSize >= size {
          c := k;
          r := AllocFrom(k, buddy);
          return;
        }
      }
      r := None;
    }

    method AllocFrom(k: nat, buddy: BuddyAllocator) returns (r: Option<nat>)
      requires buddy.Valid() && Valid(buddy.base) && Backed(buddy.outstanding) && k < CACHES
      modifies caches[k], buddy
      ensures buddy.Valid() && buddy.base == old(buddy.base)
      ensures buddy.totalPages == old(buddy.totalPages) && buddy.maxOrder == old(buddy.maxOrder)
      ensures Valid(buddy.base) && Backed(buddy.outstanding)
      ensures r.None? <==> old(caches[k].Exhausted(buddy))
      ensures r.None? ==> buddy.free == old(buddy.free) && buddy.outstanding == old(buddy.outstanding)
      ensures r.None? ==> Live() == old(Live())
      ensures r.Some? ==> r.value !in old(Live())[k]
      ensures r.Some? ==> Live() == old(Live())[k := old(Live())[k] + iset{r.value}]
      ensures Elsewhere(buddy.outstanding) == old(Elsewhere(buddy.outstanding))
    {
      hide PagesOk, LiveSet, BlocksOf, Partition, Coalesced;
      ghost var p, slot;
      r, p, slot := caches[k].Alloc(buddy);
      assert forall j :: 0 <= j < CACHES && j != k ==> caches[j] != caches[k];
      BlocksKept(old(Blocks()), Blocks(), k, old(buddy.outstanding), buddy.outstanding);
    }

    /** Offers the address to each cache until one of them holds it. */
    method Free(ptr: nat, buddy: BuddyAllocator) returns (found: bool, ghost c: nat)
      requires buddy.Valid() && Valid(buddy.base) && Backed(buddy.outstanding)
      requires forall k :: 0 <= k < CACHES && caches[k].Contains(ptr) ==> ptr in caches[k].live
      modifies caches, buddy
      ensures buddy.Valid() && buddy.base == old(buddy.base)
      ensures buddy.totalPages == old(buddy.totalPages) && buddy.maxOrder == old(buddy.maxOrder)
      ensures Valid(buddy.base) && Backed(buddy.outstanding)
      ensures found <==> exists k :: 0 <= k < CACHES && old(caches[k].Contains(ptr))
      ensures !found ==> buddy.free == old(buddy.free) && buddy.outstanding == old(buddy.outstanding)
      ensures !found ==> Live() == old(Live())
      ensures found ==> c < CACHES && ptr in old(Live())[c]
      ensures found ==> Live() == old(Live())[c := old(Live())[c] - iset{ptr}]
      ensures Elsewhere(buddy.outstanding) == old(Elsewhere(buddy.outstanding))
    {
      hide PagesOk, PairwiseDisjoint, Rest, LiveSet, BlocksOf, Partition, Coalesced;
      c := CACHES;
      for k := 0 to CACHES
        invariant unchanged(buddy) && (forall j :: 0 <= j < CACHES ==> unchanged(caches[j]))
        invariant forall j :: 0 <= j < k ==> !old(caches[j].Contains(ptr))
      {
        found := FreeFrom(k, ptr, buddy);
        if found {
          c := k;
          return;
        }
      }
      found := false;
    }

    /** One round of the loop in `free`. */
    method FreeFrom(k: nat, ptr: nat, buddy: BuddyAllocator) returns (found: bool)
      requires buddy.Valid() && Valid(buddy.base) && Backed(buddy.outstanding) && k < CACHES
      requires caches[k].Contains(ptr) ==> ptr in caches[k].live
      modifies caches[k], buddy
      ensures buddy.Valid() && buddy.base == old(buddy.base)
      ensures buddy.totalPages == old(buddy.totalPages) && buddy.maxOrder == old(buddy.maxOrder)
      ensures Valid(buddy.base) && Backed(buddy.outstanding)
      ensures found <==> old(caches[k].Contains(ptr))
      ensures !found ==> unchanged(caches[k]) && unchanged(buddy)
      ensures found ==> ptr in old(Live())[k]
      ensures found ==> Live() == old(Live())[k := old(Live())[k] - iset{ptr}]
      ensures Elsewhere(buddy.outstanding) == old(Elsewhere(buddy.outstanding))
    {
      hide PagesOk, LiveSet, BlocksOf, Partition, Coalesced;
      ghost var p;
      found, p := caches[k].Free(ptr, buddy);
      assert forall j :: 0 <= j < CACHES && j != k ==> caches[j] != caches[k];
      BlocksKept(old(Blocks()), Blocks(), k, old(buddy.outstanding), buddy.outstanding);
    }
  }
}
