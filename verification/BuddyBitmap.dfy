/** The buddy bitmap exactly as src/kern/mm/buddy.rs has it: one bit array for all orders,
    in which bit 2^order - 1 + idx stands for block idx of that order. The orders share bits
    (order 0 block 1 and order 1 block 0 are both bit 1), and `init` leaves every order
    marked free, so this model is kept apart from module Buddy. */
module BuddyBitmap {
  import opened Prelude

  const MAX_ORDER: nat := 20
  const BITMAP_SIZE: nat := 0x10_0000

  type Bits = b: seq<bool> | |b| == BITMAP_SIZE witness seq(BITMAP_SIZE, i => false)

  function BitIndex(order: nat, idx: nat): nat {
    Pow2(order) - 1 + idx
  }

  /** A bit past the end reads as set. */
  predicate GetBit(bits: Bits, bit: nat) {
    if bit >= BITMAP_SIZE then true else bits[bit]
  }

  function SetBit(bits: Bits, bit: nat): Bits {
    if bit < BITMAP_SIZE then bits[bit := true] else bits
  }

  predicate IsFree(bits: Bits, order: nat, idx: nat) {
    !GetBit(bits, BitIndex(order, idx))
  }

  /** idx is the first block of this order that reads as free. */
  ghost predicate IsFirstFree(bits: Bits, total: nat, order: nat, idx: nat) {
    && idx < Shr(total, order) && IsFree(bits, order, idx)
    && forall i :: 0 <= i < idx ==> !IsFree(bits, order, i)
  }

  ghost predicate NoneFree(bits: Bits, total: nat, order: nat) {
    forall i :: 0 <= i < Shr(total, order) ==> !IsFree(bits, order, i)
  }

  lemma FirstIsSome(bits: Bits, total: nat, order: nat, idx: nat)
    requires IsFirstFree(bits, total, order, idx)
    ensures !NoneFree(bits, total, order)
  {
  }

  /** Pages [Shl(idx, order), Shl(idx + 1, order)) of the region. */
  ghost predicate Overlap(order: nat, idx: nat, order': nat, idx': nat) {
    exists p: nat :: Shr(p, order) == idx && Shr(p, order') == idx'
  }

  /** The first k blocks of one order are marked, and nothing else. */
  ghost predicate Prefix(bits: Bits, order: nat, k: nat) {
    forall b :: 0 <= b < BITMAP_SIZE ==> (bits[b] <==> BitIndex(order, 0) <= b < BitIndex(order, k))
  }

  lemma BitBelow(order: nat)
    requires order <= MAX_ORDER
    ensures Pow2(order) <= BITMAP_SIZE
  {
    Pow2Monotone(order, MAX_ORDER);
    assert Pow2(4) == 16 && Pow2(8) == 256;
    assert Pow2(12) == 4096 && Pow2(16) == 65536;
  }

  /** How many blocks of one order a fresh allocator can hand out in sequence. */
  function Supply(total: nat, order: nat): nat
    requires order <= MAX_ORDER
  {
    BitBelow(order);
    var n, room := Shr(total, order), BITMAP_SIZE - (Pow2(order) - 1);
    if n < room then n else room
  }

  lemma {:induction false} ShlInRange(idx: nat, total: nat, hi: nat, lo: nat)
    requires lo <= hi && idx < Shr(total, hi)
    ensures Shl(idx, hi - lo) < Shr(total, lo)
    decreases hi - lo
  {
    if lo == hi {
    } else {
      ShlInRange(2 * idx + 1, total, hi - 1, lo);
      ShlMonotone(2 * idx, 2 * idx + 1, hi - 1 - lo);
    }
  }

  function ClearBit(bits: Bits, bit: nat): Bits {
    if bit < BITMAP_SIZE then bits[bit := false] else bits
  }

  /** The bitmap after block idx of order hi was halved down to order lo: each upper half is
      cleared in turn. */
  function SplitBits(bits: Bits, hi: nat, idx: nat, lo: nat): Bits
    requires lo <= hi
    decreases hi - lo
  {
    if hi == lo then bits else SplitBits(ClearBit(bits, BitIndex(hi - 1, 2 * idx + 1)), hi - 1, 2 * idx, lo)
  }

  /** The bit of the upper half that some halving of block idx of order hi, down to order lo,
      sets free. */
  ghost predicate IsUpperHalf(b: nat, hi: nat, idx: nat, lo: nat) {
    exists o: nat :: IsUpperHalfOf(b, hi, idx, lo, o)
  }

  ghost predicate IsUpperHalfOf(b: nat, hi: nat, idx: nat, lo: nat, o: nat) {
    lo <= o < hi && b == Pow2(o) - 1 + Shl(idx, hi - o) + 1
  }

  /** Bit by bit: halving clears the upper halves' bits, and no others. */
  lemma {:induction false} SplitBitsAt(bits: Bits, hi: nat, idx: nat, lo: nat, b: nat)
    requires lo <= hi && b < BITMAP_SIZE
    ensures SplitBits(bits, hi, idx, lo)[b] <==> bits[b] && !IsUpperHalf(b, hi, idx, lo)
    decreases hi - lo
  {
    if hi == lo {
    } else {
      var bit := BitIndex(hi - 1, 2 * idx + 1);
      SplitBitsAt(ClearBit(bits, bit), hi - 1, 2 * idx, lo, b);
      UpperHalves(b, hi, idx, lo);
    }
  }

  lemma UpperHalves(b: nat, hi: nat, idx: nat, lo: nat)
    requires lo < hi
    ensures IsUpperHalf(b, hi, idx, lo) <==> b == BitIndex(hi - 1, 2 * idx + 1) || IsUpperHalf(b, hi - 1, 2 * idx, lo)
  {
    assert Shl(idx, 1) == 2 * idx;
    forall o: nat | lo <= o < hi - 1
      ensures IsUpperHalfOf(b, hi, idx, lo, o) <==> IsUpperHalfOf(b, hi - 1, 2 * idx, lo, o)
    {
    }
    if b == BitIndex(hi - 1, 2 * idx + 1) {
      assert IsUpperHalfOf(b, hi, idx, lo, hi - 1);
    }
    if IsUpperHalf(b, hi, idx, lo) {
      var o: nat :| IsUpperHalfOf(b, hi, idx, lo, o);
    }
    if IsUpperHalf(b, hi - 1, 2 * idx, lo) {
      var o: nat :| IsUpperHalfOf(b, hi - 1, 2 * idx, lo, o);
      assert IsUpperHalfOf(b, hi, idx, lo, o);
    }
  }

  /** The bitmap after a request was served by block j of order from: that block's bit is set,
      and the bits of the upper halves are clear. */
  ghost predicate IsServed(was: Bits, now: Bits, from: nat, j: nat, order: nat) {
    forall b :: 0 <= b < BITMAP_SIZE ==>
      (now[b] <==> (was[b] || b == Pow2(from) - 1 + j) && !IsUpperHalf(b, from, j, order))
  }

  lemma ServedBits(was: Bits, from: nat, j: nat, order: nat)
    requires order <= from
    ensures IsServed(was, SplitBits(SetBit(was, BitIndex(from, j)), from, j, order), from, j, order)
  {
    var set' := SetBit(was, BitIndex(from, j));
    forall b: nat | b < BITMAP_SIZE
      ensures SplitBits(set', from, j, order)[b] <==>
              (was[b] || b == Pow2(from) - 1 + j) && !IsUpperHalf(b, from, j, order)
    {
      SplitBitsAt(set', from, j, order, b);
    }
  }

  /** Order from is the lowest one, from the wanted order up, in which a block reads as free. */
  ghost predicate IsServing(bits: Bits, total: nat, order: nat, from: nat) {
    order <= from && !NoneFree(bits, total, from) && forall o :: order <= o < from ==> NoneFree(bits, total, o)
  }

  class BuddyAllocator {
    var base: nat
    var totalPages: nat
    var maxOrder: nat
    var bitmap: Bits

    ghost predicate Valid()
      reads this
    {
      maxOrder <= MAX_ORDER && (forall o :: maxOrder < o ==> Shr(totalPages, o) == 0 || maxOrder == MAX_ORDER)
    }

    /** `init`: every block of every order reads as free. */
    constructor (base: nat, size: nat)
      ensures Valid() && this.base == base && totalPages == size / PAGE_SIZE
      ensures Prefix(bitmap, 0, 0)
      ensures maxOrder == MAX_ORDER || totalPages <= Pow2(maxOrder)
    {
      this.base := base;
      var total := size / PAGE_SIZE;
      totalPages := total;
      var order := 0;
      while Pow2(order) < total && order < MAX_ORDER
        invariant order <= MAX_ORDER
      {
        order := order + 1;
      }
      maxOrder := order;
      bitmap := seq(BITMAP_SIZE, i => false);
      new;
      forall o | order < o && order < MAX_ORDER ensures Shr(total, o) == 0 {
        ShrVanishes(total, order, o);
      }
    }

    method FindFree(order: nat) returns (r: Option<nat>)
      ensures r.None? ==> NoneFree(bitmap, totalPages, order)
      ensures r.Some? ==> IsFirstFree(bitmap, totalPages, order, r.value)
    {
      var count := Shr(totalPages, order);
      for idx := 0 to count
        invariant forall i :: 0 <= i < idx ==> !IsFree(bitmap, order, i)
      {
        if IsFree(bitmap, order, idx) {
          return Some(idx);
        }
      }
      return None;
    }

    /** First fit over the bits: the first block j of the serving order is marked, halved down
        to the wanted order, and its lowest part handed out, inside the region and aligned to
        its size from the base. */
    method AllocPages(order: nat) returns (r: Option<nat>, ghost from: nat, ghost j: nat)
      requires Valid()
      modifies this`bitmap
      ensures r.None? <==> order > maxOrder || forall o :: order <= o <= maxOrder ==>
          NoneFree(old(bitmap), totalPages, o)
      ensures r.None? ==> bitmap == old(bitmap)
      ensures r.Some? ==> from <= maxOrder && IsServing(old(bitmap), totalPages, order, from)
      ensures r.Some? ==> IsFirstFree(old(bitmap), totalPages, from, j)
      ensures r.Some? ==> bitmap == SplitBits(SetBit(old(bitmap), BitIndex(from, j)), from, j, order)
      ensures r.Some? ==> IsServed(old(bitmap), bitmap, from, j, order)
      ensures r.Some? ==> r.value == base + Shl(Shl(j, from - order), order) * PAGE_SIZE
      ensures r.Some? ==> Shl(j, from - order) < Shr(totalPages, order)
    {
      hide IsServed, IsFree, SetBit, NoneFree;
      from, j := order, 0;
      if order > maxOrder {
        return None, order, 0;
      }
      var found := FindFree(order);
      if found.Some? {
        ghost var was := bitmap;
        ServedBits(bitmap, order, found.value, order);
        assert Shl(found.value, order - order) == found.value;
        bitmap := SetBit(bitmap, BitIndex(order, found.value));
        FirstIsSome(was, totalPages, order, found.value);
        return Some(base + Shl(found.value, order) * PAGE_SIZE), order, found.value;
      }
      var splitOrder := order + 1;
      while splitOrder <= maxOrder
        invariant order < splitOrder <= maxOrder + 1 && bitmap == old(bitmap)
        invariant forall o :: order <= o < splitOrder ==> NoneFree(bitmap, totalPages, o)
      {
        found := FindFree(splitOrder);
        if found.Some? {
          FirstIsSome(bitmap, totalPages, splitOrder, found.value);
          ServedBits(bitmap, splitOrder, found.value, order);
          bitmap := SetBit(bitmap, BitIndex(splitOrder, found.value));
          var currentIdx := SplitDown(order, splitOrder, found.value);
          ShlInRange(found.value, totalPages, splitOrder, order);
          return Some(base + Shl(currentIdx, order) * PAGE_SIZE), splitOrder, found.value;
        }
        splitOrder := splitOrder + 1;
      }
      return None, order, 0;
    }

    /** The inner loop of `alloc_pages`. */
    method SplitDown(order: nat, splitOrder: nat, idx: nat) returns (currentIdx: nat)
      requires order <= splitOrder
      modifies this`bitmap
      ensures bitmap == SplitBits(old(bitmap), splitOrder, idx, order) && currentIdx == Shl(idx, splitOrder - order)
    {
      var currentOrder := splitOrder;
      currentIdx := idx;
      while currentOrder > order
        invariant order <= currentOrder <= splitOrder
        invariant currentIdx == Shl(idx, splitOrder - currentOrder)
        invariant SplitBits(old(bitmap), splitOrder, idx, order) == SplitBits(bitmap, currentOrder, currentIdx, order)
      {
        ShlNext(idx, splitOrder - currentOrder);
        currentOrder := currentOrder - 1;
        var buddyIdx := currentIdx * 2 + 1;
        bitmap := ClearBit(bitmap, BitIndex(currentOrder, buddyIdx));
        currentIdx := currentIdx * 2;
      }
    }

    /** From `init`, with no frees, requests of one order are served by blocks 0, 1, 2, ... */
    method AllocSameOrder(order: nat, n: nat) returns (rs: seq<Option<nat>>)
      requires Valid() && order <= maxOrder && Prefix(bitmap, 0, 0) && n <= Supply(totalPages, order)
      modifies this`bitmap
      ensures |rs| == n && Prefix(bitmap, order, n)
      ensures forall i :: 0 <= i < n ==> rs[i] == Some(base + Shl(i, order) * PAGE_SIZE)
    {
      rs := [];
      for k := 0 to n
        invariant |rs| == k && Prefix(bitmap, order, k)
        invariant forall i :: 0 <= i < k ==> rs[i] == Some(base + Shl(i, order) * PAGE_SIZE)
      {
        PrefixNext(bitmap, totalPages, order, k);
        ghost var bits, from, j := bitmap, 0, 0;
        var r;
        r, from, j := AllocPages(order);
        assert !NoneFree(bits, totalPages, order) && from == order;
        assert bitmap == SplitBits(SetBit(bits, BitIndex(order, k)), order, k, order);
        rs := rs + [r];
      }
    }

    /** A run of `alloc_one` calls from `init`: the pages come out in order without repeats,
        and None comes exactly after min(totalPages, 2^20) of them. */
    method AllocOnes(n: nat) returns (rs: seq<Option<nat>>)
      requires Valid() && Prefix(bitmap, 0, 0)
      modifies this`bitmap
      ensures |rs| == n
      ensures forall i :: 0 <= i < n ==>
                rs[i] == if i < totalPages && i < BITMAP_SIZE then Some(base + i * PAGE_SIZE) else None
    {
      rs := [];
      for k := 0 to n
        invariant |rs| == k
        invariant Prefix(bitmap, 0, if k < Supply(totalPages, 0) then k else Supply(totalPages, 0))
        invariant forall i :: 0 <= i < k ==>
                    rs[i] == if i < totalPages && i < BITMAP_SIZE then Some(base + i * PAGE_SIZE) else None
      {
        if k < Supply(totalPages, 0) {
          PrefixNext(bitmap, totalPages, 0, k);
        } else {
          ExhaustedEverywhere(bitmap, totalPages);
        }
        ghost var from, j;
        var r;
        r, from, j := AllocPages(0);
        assert r.Some? ==> from == 0;
        rs := rs + [r];
      }
    }

    /** A request of order b after k requests of order a on a fresh allocator. It is served as
        NextFree says, and its block meets one of the k blocks exactly when it starts below
        their end. */
    method AllocAfter(a: nat, k: nat, b: nat) returns (rs: seq<Option<nat>>, r: Option<nat>, ghost from: nat)
      requires Valid() && a <= maxOrder && Prefix(bitmap, 0, 0) && k <= Supply(totalPages, a)
      modifies this`bitmap
      ensures |rs| == k && forall i :: 0 <= i < k ==> rs[i] == Some(base + Shl(i, a) * PAGE_SIZE)
      ensures r.Some? ==> b <= from <= maxOrder && HasFree(totalPages, a, k, from) && forall o :: b <= o < from ==>
          !HasFree(totalPages, a, k, o)
      ensures r.None? ==> forall o :: b <= o <= maxOrder ==> !HasFree(totalPages, a, k, o)
      ensures r.Some? ==> r.value == base + Shl(NextFree(a, k, from), from) * PAGE_SIZE
      ensures r.Some? ==> (MeetsFirst(a, k, b, Shl(NextFree(a, k, from), from - b)) <==>
          NextFree(a, k, from) * Pow2(from) < k * Pow2(a))
    {
      hide IsFirstFree, MeetsFirst, NextFree;
      rs := AllocSameOrder(a, k);
      forall o: nat | o <= MAX_ORDER ensures NoneFree(bitmap, totalPages, o) <==> !HasFree(totalPages, a, k, o) {
        NextFreeIsFirst(bitmap, totalPages, a, k, o);
      }
      ghost var bits, j := bitmap, 0;
      r, from, j := AllocPages(b);
      if r.Some? {
        NextFreeIsFirst(bits, totalPages, a, k, from);
        ShlShl(j, from - b, b);
        MeetsExactlyWhen(a, k, b, from, j);
      }
    }

    /** Two requests on a fresh allocator, both served: their blocks are disjoint exactly
        when they ask for the same order. */
    method AllocTwo(order: nat, order': nat) returns (r: Option<nat>, r': Option<nat>, ghost idx: nat, ghost idx': nat)
      requires Valid() && Prefix(bitmap, 0, 0)
      modifies this`bitmap
      ensures r.Some? ==> r.value == base + Shl(idx, order) * PAGE_SIZE
      ensures r'.Some? ==> r'.value == base + Shl(idx', order') * PAGE_SIZE
      ensures r.Some? <==> order <= maxOrder && Shr(totalPages, order) > 0
      ensures r.Some? ==> idx == 0 && (r'.Some? ==> idx' == if order' == order then 1 else 0)
      ensures r.Some? && order' <= maxOrder && Shr(totalPages, order') > 0 && order != order' ==> r'.Some?
      ensures r.Some? && r'.Some? ==> (Overlap(order, idx, order', idx') <==> order != order')
    {
      ghost var first := bitmap;
      ghost var from, j;
      r, from, j := AllocPages(order);
      idx := if r.Some? then Shl(j, from - order) else 0;
      FreshServes(first, totalPages, maxOrder, order);
      ghost var second := bitmap;
      ghost var from', j';
      r', from', j' := AllocPages(order');
      idx' := if r'.Some? then Shl(j', from' - order') else 0;
      if r.Some? {
        SecondServes(second, totalPages, maxOrder, order, order');
      }
      ShrZero(order);
      ShrZero(order');
    }
  }

  /** The sharing at work: four managed pages, one page requested and then two, and both
      requests are given the first page. */
  method SharedPage(base: nat) returns (r: Option<nat>, r': Option<nat>)
    ensures r == Some(base) && r' == Some(base)
  {
    var a := new BuddyAllocator(base, 4 * PAGE_SIZE);
    assert Pow2(0) == 1 && Pow2(1) == 2 && Shr(4, 0) == 4 && Shr(4, 1) == 2 && Shl(0, 1) == 0;
    ghost var idx, idx';
    r, r', idx, idx' := a.AllocTwo(0, 1);
  }

  // ---------------------------------------------------------------- after k requests of one order

  /** The first block of order o that reads as free when the first k blocks of order a are
      marked: block 0, unless its bit is one of the marked ones. */
  function NextFree(a: nat, k: nat, o: nat): nat {
    if Pow2(a) <= Pow2(o) < Pow2(a) + k then Pow2(a) + k - Pow2(o) else 0
  }

  /** That block is in the region, and its bit in the bitmap. */
  predicate HasFree(total: nat, a: nat, k: nat, o: nat) {
    NextFree(a, k, o) < Shr(total, o) && BitIndex(o, NextFree(a, k, o)) < BITMAP_SIZE
  }

  /** Block idx of order b has a page in one of the first k blocks of order a. */
  ghost predicate MeetsFirst(a: nat, k: nat, b: nat, idx: nat) {
    exists i: nat :: i < k && Overlap(a, i, b, idx)
  }

  lemma NextFreeIsFirst(bits: Bits, total: nat, a: nat, k: nat, o: nat)
    requires Prefix(bits, a, k)
    ensures NoneFree(bits, total, o) <==> !HasFree(total, a, k, o)
    ensures forall j :: IsFirstFree(bits, total, o, j) ==> j == NextFree(a, k, o)
  {
    var n := NextFree(a, k, o);
    assert forall i: nat :: i < n ==> !IsFree(bits, o, i);
    if HasFree(total, a, k, o) {
      assert IsFree(bits, o, n);
    } else {
      forall i: nat | i < Shr(total, o) ensures !IsFree(bits, o, i) {
        assert n <= i ==> BitIndex(o, i) >= BitIndex(o, n);
      }
    }
  }

  lemma {:induction false} ShlShl(x: nat, m: nat, n: nat)
    ensures Shl(Shl(x, m), n) == Shl(x, m + n)
    decreases m
  {
    if m == 0 {
    } else {
      ShlShl(2 * x, m - 1, n);
    }
  }

  /** The lowest page of a block meets the first k blocks of order a if any page does. */
  lemma MeetsExactlyWhen(a: nat, k: nat, b: nat, from: nat, j: nat)
    requires b <= from
    ensures MeetsFirst(a, k, b, Shl(j, from - b)) <==> j * Pow2(from) < k * Pow2(a)
  {
    var idx, start := Shl(j, from - b), Shl(j, from);
    ShlShl(j, from - b, b);
    ShlIsMul(j, from);
    ShrBelow(start, a, k);
    ShrShl(idx, b);
    if MeetsFirst(a, k, b, idx) {
      var i: nat :| i < k && Overlap(a, i, b, idx);
      var p: nat :| Shr(p, a) == i && Shr(p, b) == idx;
      ShrBounds(p, b);
      ShrMonotone(start, p, a);
    }
    if Shr(start, a) < k {
      assert Overlap(a, Shr(start, a), b, idx);
    }
  }

  /** x >> o is below k exactly when x is below k blocks of 2^o. */
  lemma ShrBelow(x: nat, o: nat, k: nat)
    ensures Shr(x, o) < k <==> x < k * Pow2(o)
  {
    ShrBounds(x, o);
    ShlIsMul(k, o);
    if Shr(x, o) < k {
      ShlMonotone(Shr(x, o) + 1, k, o);
    } else {
      ShlMonotone(k, Shr(x, o), o);
    }
  }

  lemma ShrVanishes(total: nat, order: nat, o: nat)
    requires total <= Pow2(order) && order < o
    ensures Shr(total, o) == 0
  {
    ShrBounds(total, o);
    ShlIsMul(Shr(total, o), o);
    ShlIsMul(1, o);
    Pow2Monotone(order + 1, o);
    if Shr(total, o) >= 1 {
      ShlMonotone(1, Shr(total, o), o);
    }
  }

  lemma PrefixNext(bits: Bits, total: nat, order: nat, k: nat)
    requires order <= MAX_ORDER && Prefix(bits, order, k) && k < Supply(total, order)
    ensures IsFirstFree(bits, total, order, k) && !NoneFree(bits, total, order)
    ensures forall idx :: IsFirstFree(bits, total, order, idx) ==> idx == k
    ensures Prefix(SetBit(bits, BitIndex(order, k)), order, k + 1)
  {
  }

  /** Once all order-0 bits are set, every higher-order bit reads as set as well. */
  lemma ExhaustedEverywhere(bits: Bits, total: nat)
    requires Prefix(bits, 0, Supply(total, 0))
    ensures forall o: nat :: NoneFree(bits, total, o)
  {
    forall o: nat, i | 0 <= i < Shr(total, o) ensures !IsFree(bits, o, i) {
      HigherBitsAreLower(total, o, i);
    }
  }

  lemma HigherBitsAreLower(total: nat, o: nat, i: nat)
    requires i < Shr(total, o)
    ensures BitIndex(o, i) < total
  {
    ShrBounds(total, o);
    ShlMonotone(i + 1, Shr(total, o), o);
    ShlIsMul(i + 1, o);
    Distribute(i, 1, Pow2(o));
    MulMonotone(i, 1, Pow2(o));
  }

  /** A fresh bitmap serves any order that has a block in the region, with its block 0, and
      no other order. */
  lemma FreshServes(bits: Bits, total: nat, maxOrder: nat, order: nat)
    requires maxOrder <= MAX_ORDER && Prefix(bits, 0, 0)
    ensures order <= maxOrder ==> (!NoneFree(bits, total, order) <==> Shr(total, order) > 0)
    ensures Shr(total, order) == 0 ==> forall o :: order <= o ==> NoneFree(bits, total, o)
    ensures forall o, j :: IsFirstFree(bits, total, o, j) ==> j == 0
  {
    if order <= maxOrder {
      BitBelow(order);
      NextFreeIsFirst(bits, total, 0, 0, order);
    }
    forall o, j | IsFirstFree(bits, total, o, j) ensures j == 0 {
      NextFreeIsFirst(bits, total, 0, 0, o);
    }
    NoneAbove(bits, total, order);
  }

  lemma {:induction false} ShrZero(o: nat)
    ensures Shr(0, o) == 0
  {
    if o == 0 {
    } else {
      ShrZero(o - 1);
    }
  }

  lemma Pow2Strict(a: nat, b: nat)
    ensures a < b ==> Pow2(a) < Pow2(b)
    ensures b < a ==> Pow2(b) < Pow2(a)
  {
    if a < b {
      Pow2Monotone(a + 1, b);
    } else if b < a {
      Pow2Monotone(b + 1, a);
    }
  }

  lemma BlockZeroMarked(bits: Bits, total: nat, order: nat, o: nat)
    requires order <= MAX_ORDER && Prefix(bits, order, 1)
    ensures forall j :: IsFirstFree(bits, total, o, j) ==> j == if o == order then 1 else 0
    ensures o <= MAX_ORDER && o != order ==> (!NoneFree(bits, total, o) <==> Shr(total, o) > 0)
    ensures NoneFree(bits, total, order) ==> Shr(total, order) <= 1 || order == MAX_ORDER
  {
    Pow2Strict(order, o);
    NextFreeIsFirst(bits, total, order, 1, o);
    if o <= MAX_ORDER {
      BitBelow(o);
    }
    if order < MAX_ORDER {
      BitBelow(order + 1);
    }
    NextFreeIsFirst(bits, total, order, 1, order);
  }

  lemma NoneAbove(bits: Bits, total: nat, order: nat)
    ensures Shr(total, order) == 0 ==> forall o :: order <= o ==> NoneFree(bits, total, o)
  {
    if Shr(total, order) == 0 {
      forall o: nat | order <= o ensures NoneFree(bits, total, o) {
        ShrZero(order);
        ShrZero(o);
        ShrLift(total, 0, order, o);
      }
    }
  }

  /** With block 0 of one order marked, any other order is served by its block 0, and the same
      order by its block 1 or by none. */
  lemma SecondServes(bits: Bits, total: nat, maxOrder: nat, order: nat, order': nat)
    requires maxOrder <= MAX_ORDER && Prefix(bits, order, 1) && order <= maxOrder
    ensures order' <= maxOrder && order' != order && Shr(total, order') > 0 ==>
              IsServing(bits, total, order', order') && forall o, j ::
                  IsServing(bits, total, order', o) && IsFirstFree(bits, total, o, j) ==> o == order' && j == 0
    ensures Shr(total, order') == 0 ==> forall o :: order' <= o ==> NoneFree(bits, total, o)
    ensures forall o: nat, j :: IsServing(bits, total, order, o) && o <= maxOrder && IsFirstFree(bits, total, o, j) ==>
        o == order && j == 1
  {
    BlockZeroMarked(bits, total, order, order');
    BlockZeroMarked(bits, total, order, order);
    NoneAbove(bits, total, order');
    if NoneFree(bits, total, order) && order < maxOrder {
      assert Shr(total, order + 1) == 0;
      NoneAbove(bits, total, order + 1);
    }
  }
}
