/** The buddy allocator of src/kern/mm/buddy.rs, with one free set per order.

    The source keeps its free marks in a single bitmap whose index function does not keep
    the orders apart; module BuddyBitmap models that bitmap as it stands. Here `is_free`,
    `mark_free` and `mark_allocated` act on separate per-order sets that start from a legal
    cover of the managed pages, which is what the split and merge loops are written for. */
module Buddy {
  import opened Prelude

  const MAX_ORDER: nat := 20

  /** The 2^order pages idx * 2^order, ..., (idx + 1) * 2^order - 1. */
  datatype Block = Block(order: nat, idx: nat)

  ghost predicate Covers(b: Block, page: nat) {
    Shr(page, b.order) == b.idx
  }

  /** All of b's pages are below total. */
  predicate InRange(b: Block, total: nat) {
    b.idx < Shr(total, b.order)
  }

  function BuddyOf(idx: nat): nat {
    if idx % 2 == 0 then idx + 1 else idx - 1
  }

  type FreeSets = seq<set<nat>>

  ghost predicate IsFree(free: FreeSets, b: Block) {
    b.order < |free| && b.idx in free[b.order]
  }

  /** b is a block of the allocator's books: free, or handed out. */
  ghost predicate Listed(free: FreeSets, out: set<Block>, b: Block) {
    IsFree(free, b) || b in out
  }

  ghost predicate PageListed(free: FreeSets, out: set<Block>, page: nat) {
    exists b :: Listed(free, out, b) && Covers(b, page)
  }

  /** Every managed page lies in exactly one listed block, and that block is either free
      or outstanding but not both. */
  ghost predicate Partition(free: FreeSets, out: set<Block>, total: nat) {
    && (forall b :: Listed(free, out, b) ==> b.order < |free| && InRange(b, total))
    && (forall b :: IsFree(free, b) ==> b !in out)
    && (forall p: nat, b, c :: Listed(free, out, b) && Listed(free, out, c) && Covers(b, p) && Covers(c, p) ==> b == c)
    && (forall p: nat :: p < total ==> PageListed(free, out, p))
  }

  /** No two buddies below the top order are both free. */
  ghost predicate Coalesced(free: FreeSets) {
    forall o, i :: 0 <= o < |free| - 1 && i in free[o] ==> BuddyOf(i) !in free[o]
  }

  /** The initial cover: every block that fits and whose parent does not fit (or is above
      the top order). */
  predicate InMaximalCover(b: Block, total: nat, maxOrder: nat) {
    && b.order <= maxOrder
    && InRange(b, total)
    && (b.order < maxOrder ==> !InRange(Block(b.order + 1, b.idx / 2), total))
  }

  function MaximalCover(total: nat, maxOrder: nat): FreeSets {
    seq(maxOrder + 1, o requires 0 <= o <= maxOrder =>
      set i | 0 <= i < Shr(total, o) && InMaximalCover(Block(o, i), total, maxOrder))
  }

  // ---------------------------------------------------------------- block geometry

  /** Blocks of one order are disjoint; a block that meets a larger one lies inside it. */
  lemma Nesting(b: Block, c: Block, p: nat, q: nat)
    requires b.order <= c.order && Covers(b, p) && Covers(c, p) && Covers(b, q)
    ensures Covers(c, q)
  {
    ShrLift(p, q, b.order, c.order);
  }

  lemma InRangePages(b: Block, total: nat, p: nat)
    requires InRange(b, total) && Covers(b, p)
    ensures p < total
  {
    if total <= p {
      ShrMonotone(total, p, b.order);
    }
  }

  /** Of two blocks with a common page, the smaller is in range when the larger is. */
  lemma InRangeDown(b: Block, c: Block, p: nat, total: nat)
    requires b.order <= c.order && Covers(b, p) && Covers(c, p) && InRange(c, total)
    ensures InRange(b, total)
  {
    if Shr(total, b.order) <= Shr(p, b.order) {
      ShrLift(total, p, b.order, c.order);
    }
  }

  // ---------------------------------------------------------------- the canonical form

  /** A free block below the top order whose parent fits has an outstanding page in its
      parent: else its buddy would be cut into smaller free blocks, and so on down. */
  lemma {:induction false} ParentIsBusy(free: FreeSets, out: set<Block>, total: nat, b: Block)
    returns (d: Block, q: nat)
    requires Partition(free, out, total) && Coalesced(free)
    requires IsFree(free, b) && b.order < |free| - 1
    requires InRange(Block(b.order + 1, b.idx / 2), total)
    ensures d in out && Covers(d, q) && Covers(Block(b.order + 1, b.idx / 2), q)
    decreases b.order
  {
    var parent := Block(b.order + 1, b.idx / 2);
    var sibling := Block(b.order, BuddyOf(b.idx));
    var p := Shl(sibling.idx, b.order);
    ShrShl(sibling.idx, b.order);
    assert Covers(sibling, p) && Covers(parent, p);
    InRangePages(parent, total, p);
    assert PageListed(free, out, p);
    var c :| Listed(free, out, c) && Covers(c, p);
    if c in out {
      return c, p;
    }
    if c.order > b.order {
      var r := Shl(b.idx, b.order);
      ShrShl(b.idx, b.order);
      Nesting(parent, c, p, r);
      assert Covers(b, r);
      assert false;
    } else if c.order == b.order {
      assert false;
    }
    var up := Block(c.order + 1, c.idx / 2);
    assert Covers(up, p);
    InRangeDown(up, parent, p, total);
    d, q := ParentIsBusy(free, out, total, c);
    Nesting(up, parent, p, q);
  }

  /** Some page of b is handed out. */
  ghost predicate IsBusy(out: set<Block>, b: Block) {
    exists d, q: nat :: d in out && Covers(d, q) && Covers(b, q)
  }

  /** Every block of this order that fits has a page that is handed out. */
  ghost predicate AllBusy(out: set<Block>, total: nat, order: nat) {
    forall i: nat :: InRange(Block(order, i), total) ==> IsBusy(out, Block(order, i))
  }

  /** No order from this one up has a free block. */
  ghost predicate NoneFree(free: FreeSets, order: nat) {
    forall o :: order <= o < |free| ==> free[o] == {}
  }

  /** A request is refused only for want of pages: there is no free block to serve an order
      exactly when no block of that order has all its pages free. */
  lemma NoneFreeExactlyWhen(free: FreeSets, out: set<Block>, total: nat, order: nat)
    requires Partition(free, out, total) && Coalesced(free) && order < |free|
    ensures NoneFree(free, order) <==> AllBusy(out, total, order)
  {
    if NoneFree(free, order) {
      forall i: nat | InRange(Block(order, i), total) ensures IsBusy(out, Block(order, i)) {
        NoneFreeIsBusy(free, out, total, Block(order, i));
      }
    } else {
      var o :| order <= o < |free| && free[o] != {};
      var j :| j in free[o];
      FreeHasIdle(free, out, total, Block(o, j), order);
    }
  }

  lemma NoneFreeIsBusy(free: FreeSets, out: set<Block>, total: nat, b: Block)
    requires Partition(free, out, total) && Coalesced(free) && b.order < |free|
    requires NoneFree(free, b.order) && InRange(b, total)
    ensures IsBusy(out, b)
  {
    var p := Shl(b.idx, b.order);
    ShrShl(b.idx, b.order);
    InRangePages(b, total, p);
    assert PageListed(free, out, p);
    var c :| Listed(free, out, c) && Covers(c, p);
    if c !in out {
      var up := Block(c.order + 1, c.idx / 2);
      assert c.order < b.order && Covers(up, p);
      InRangeDown(up, b, p, total);
      var d, q := ParentIsBusy(free, out, total, c);
      Nesting(up, b, p, q);
    }
  }

  /** Inside a free block every smaller block is idle. */
  lemma FreeHasIdle(free: FreeSets, out: set<Block>, total: nat, f: Block, order: nat)
    requires Partition(free, out, total) && IsFree(free, f) && order <= f.order
    ensures !AllBusy(out, total, order)
  {
    var p := Shl(f.idx, f.order);
    ShrShl(f.idx, f.order);
    var b := Block(order, Shr(p, order));
    assert Listed(free, out, f);
    InRangeDown(b, f, p, total);
    if IsBusy(out, b) {
      var d, q: nat :| d in out && Covers(d, q) && Covers(b, q);
      Nesting(b, f, p, q);
      assert Listed(free, out, d);
      assert false;
    }
  }

  /** One side of FreeSetIsCanonical. */
  lemma FreeSetIncluded(f: FreeSets, g: FreeSets, out: set<Block>, total: nat, b: Block)
    requires |f| == |g|
    requires Partition(f, out, total) && Coalesced(f)
    requires Partition(g, out, total) && Coalesced(g)
    requires IsFree(f, b)
    ensures IsFree(g, b)
  {
    var p := Shl(b.idx, b.order);
    ShrShl(b.idx, b.order);
    InRangePages(b, total, p);
    assert PageListed(g, out, p);
    var c :| Listed(g, out, c) && Covers(c, p);
    assert Listed(f, out, b);
    if c in out {
      assert Listed(f, out, c);
      assert false;
    }
    SmallerMeetsLarger(f, g, out, total, b, c, p);
    SmallerMeetsLarger(g, f, out, total, c, b, p);
  }

  lemma SmallerMeetsLarger(f: FreeSets, g: FreeSets, out: set<Block>, total: nat, b: Block, c: Block, p: nat)
    requires |f| == |g|
    requires Partition(f, out, total) && Coalesced(f) && Partition(g, out, total)
    requires IsFree(f, b) && IsFree(g, c) && Covers(b, p) && Covers(c, p)
    ensures c.order <= b.order
  {
    if b.order < c.order {
      var up := Block(b.order + 1, b.idx / 2);
      assert Covers(up, p);
      InRangeDown(up, c, p, total);
      var d, q := ParentIsBusy(f, out, total, b);
      Nesting(up, c, p, q);
      assert Listed(g, out, d) && Listed(g, out, c);
      assert false;
    }
  }

  /** The outstanding blocks determine the free sets: whatever history of splits and merges
      led to a state, two coalesced states with the same blocks handed out are equal. */
  lemma FreeSetIsCanonical(f: FreeSets, g: FreeSets, out: set<Block>, total: nat)
    requires |f| == |g|
    requires Partition(f, out, total) && Coalesced(f)
    requires Partition(g, out, total) && Coalesced(g)
    ensures f == g
  {
    forall o | 0 <= o < |f| ensures f[o] == g[o] {
      forall i: nat | i in f[o] ensures i in g[o] {
        FreeSetIncluded(f, g, out, total, Block(o, i));
        assert IsFree(g, Block(o, i));
      }
      forall i: nat | i in g[o] ensures i in f[o] {
        FreeSetIncluded(g, f, out, total, Block(o, i));
        assert IsFree(f, Block(o, i));
      }
    }
  }

  /** Every page below total is covered by a block of the maximal cover: climb from the
      page itself until the parent no longer fits. */
  lemma {:induction false} Climb(p: nat, o: nat, total: nat, maxOrder: nat) returns (b: Block)
    requires o <= maxOrder && InRange(Block(o, Shr(p, o)), total)
    ensures InMaximalCover(b, total, maxOrder) && Covers(b, p)
    decreases maxOrder - o
  {
    b := Block(o, Shr(p, o));
    if o < maxOrder && InRange(Block(o + 1, b.idx / 2), total) {
      b := Climb(p, o + 1, total, maxOrder);
    }
  }

  lemma MaximalCoverIsLegal(total: nat, maxOrder: nat)
    ensures var f := MaximalCover(total, maxOrder);
            && Partition(f, {}, total)
            && Coalesced(f)
            && forall b :: IsFree(f, b) <==> InMaximalCover(b, total, maxOrder)
  {
    var f := MaximalCover(total, maxOrder);
    assert forall b :: IsFree(f, b) <==> InMaximalCover(b, total, maxOrder);
    forall p: nat, b, c | IsFree(f, b) && IsFree(f, c) && Covers(b, p) && Covers(c, p) ensures b == c {
      MaximalCoverDisjoint(b, c, p, total, maxOrder);
    }
    forall p: nat | p < total ensures PageListed(f, {}, p) {
      assert Covers(Block(0, p), p);
      var b := Climb(p, 0, total, maxOrder);
      assert Listed(f, {}, b);
    }
    forall o, i | 0 <= o < |f| - 1 && i in f[o] ensures BuddyOf(i) !in f[o] {
      assert IsFree(f, Block(o, i));
      assert InMaximalCover(Block(o, i), total, maxOrder);
      assert BuddyOf(i) / 2 == i / 2;
    }
  }

  lemma MaximalCoverDisjoint(b: Block, c: Block, p: nat, total: nat, maxOrder: nat)
    requires InMaximalCover(b, total, maxOrder) && InMaximalCover(c, total, maxOrder)
    requires Covers(b, p) && Covers(c, p)
    ensures b == c
  {
    if b.order < c.order {
      var up := Block(b.order + 1, b.idx / 2);
      assert Covers(up, p);
      InRangeDown(up, c, p, total);
    } else if c.order < b.order {
      var up := Block(c.order + 1, c.idx / 2);
      assert Covers(up, p);
      InRangeDown(up, b, p, total);
    }
  }

  /** With nothing handed out, the free sets are the initial cover again. */
  lemma AllFreeIsInitial(f: FreeSets, total: nat, maxOrder: nat)
    requires |f| == maxOrder + 1
    requires Partition(f, {}, total) && Coalesced(f)
    ensures f == MaximalCover(total, maxOrder)
  {
    MaximalCoverIsLegal(total, maxOrder);
    FreeSetIsCanonical(f, MaximalCover(total, maxOrder), {}, total);
  }

  // ---------------------------------------------------------------- single marks

  function Marked(free: FreeSets, b: Block): FreeSets
    requires b.order < |free|
  {
    free[b.order := free[b.order] + {b.idx}]
  }

  function Unmarked(free: FreeSets, b: Block): FreeSets
    requires b.order < |free|
  {
    free[b.order := free[b.order] - {b.idx}]
  }

  /** b and its buddy are the only pair of free buddies there may be. */
  ghost predicate CoalescedExcept(free: FreeSets, b: Block) {
    forall o, i :: 0 <= o < |free| - 1 && i in free[o] && BuddyOf(i) in free[o] ==>
      b == Block(o, i) || b == Block(o, BuddyOf(i))
  }

  /** A partition stays one when the listed blocks do not change. */
  lemma PartitionExt(f: FreeSets, g: FreeSets, out: set<Block>, out': set<Block>, total: nat)
    requires Partition(f, out, total) && |f| == |g|
    requires forall b :: Listed(f, out, b) <==> Listed(g, out', b)
    requires forall b :: IsFree(g, b) ==> b !in out'
    ensures Partition(g, out', total)
  {
    forall p: nat | p < total ensures PageListed(g, out', p) {
      assert PageListed(f, out, p);
    }
  }

  lemma TakeStep(free: FreeSets, out: set<Block>, total: nat, b: Block)
    requires Partition(free, out, total) && Coalesced(free) && IsFree(free, b)
    ensures Partition(Unmarked(free, b), out + {b}, total) && Coalesced(Unmarked(free, b))
  {
    PartitionExt(free, Unmarked(free, b), out, out + {b}, total);
  }

  lemma GiveStep(free: FreeSets, out: set<Block>, total: nat, b: Block)
    requires Partition(free, out, total) && Coalesced(free) && b in out
    ensures Partition(Marked(free, b), out - {b}, total) && CoalescedExcept(Marked(free, b), b)
  {
    assert Listed(free, out, b);
    PartitionExt(free, Marked(free, b), out, out - {b}, total);
  }

  /** Replacing one block by its two halves, or the halves by the block. */
  ghost predicate Halved(f: FreeSets, out: set<Block>, g: FreeSets, out': set<Block>, b: Block) {
    && b.order > 0
    && var l, r := Block(b.order - 1, 2 * b.idx), Block(b.order - 1, 2 * b.idx + 1);
    && Listed(f, out, b) && !Listed(g, out', b)
    && Listed(g, out', l) && Listed(g, out', r) && !Listed(f, out, l) && !Listed(f, out, r)
    && (forall c :: c != b && c != l && c != r ==> (Listed(f, out, c) <==> Listed(g, out', c)))
  }

  lemma SplitPartition(f: FreeSets, out: set<Block>, g: FreeSets, out': set<Block>, total: nat, b: Block)
    requires Partition(f, out, total) && |f| == |g| && Halved(f, out, g, out', b)
    requires forall c :: IsFree(g, c) ==> c !in out'
    ensures Partition(g, out', total)
  {
    var l, r := Block(b.order - 1, 2 * b.idx), Block(b.order - 1, 2 * b.idx + 1);
    forall p: nat | p < total ensures PageListed(g, out', p) {
      assert PageListed(f, out, p);
      var c :| Listed(f, out, c) && Covers(c, p);
      if c == b {
        assert Covers(l, p) || Covers(r, p);
      }
    }
    assert forall p: nat :: Covers(l, p) || Covers(r, p) ==> Covers(b, p);
  }

  lemma MergePartition(f: FreeSets, out: set<Block>, g: FreeSets, out': set<Block>, total: nat, b: Block)
    requires Partition(g, out', total) && |f| == |g| && Halved(f, out, g, out', b) && b.order < |f|
    requires forall c :: IsFree(f, c) ==> c !in out
    ensures Partition(f, out, total)
  {
    var l, r := Block(b.order - 1, 2 * b.idx), Block(b.order - 1, 2 * b.idx + 1);
    forall p: nat | p < total ensures PageListed(f, out, p) {
      assert PageListed(g, out', p);
      var c :| Listed(g, out', c) && Covers(c, p);
      if c == l || c == r {
        assert Covers(b, p);
      }
    }
    assert forall p: nat :: Covers(b, p) ==> Covers(l, p) || Covers(r, p);
  }

  /** One round of the split loop: the lower half stays in hand, the upper half is freed. */
  lemma SplitStep(free: FreeSets, out: set<Block>, total: nat, b: Block)
    requires Partition(free, out, total) && Coalesced(free) && b in out && b.order > 0
    ensures var l, r := Block(b.order - 1, 2 * b.idx), Block(b.order - 1, 2 * b.idx + 1);
            && Partition(Marked(free, r), out - {b} + {l}, total)
            && Coalesced(Marked(free, r))
            && l !in out
  {
    var l, r := Block(b.order - 1, 2 * b.idx), Block(b.order - 1, 2 * b.idx + 1);
    assert Listed(free, out, b);
    var p, q := Shl(l.idx, l.order), Shl(r.idx, r.order);
    ShrShl(l.idx, l.order);
    ShrShl(r.idx, r.order);
    assert Covers(l, p) && Covers(b, p) && Covers(r, q) && Covers(b, q);
    assert !Listed(free, out, l) && !Listed(free, out, r);
    assert Halved(free, out, Marked(free, r), out - {b} + {l}, b);
    SplitPartition(free, out, Marked(free, r), out - {b} + {l}, total, b);
    assert BuddyOf(r.idx) == l.idx && !IsFree(free, l);
  }

  /** One round of the merge loop: two free buddies become their parent. */
  lemma MergeStep(free: FreeSets, out: set<Block>, total: nat, b: Block)
    requires Partition(free, out, total) && CoalescedExcept(free, b)
    requires IsFree(free, b) && b.order < |free| - 1 && IsFree(free, Block(b.order, BuddyOf(b.idx)))
    ensures var up := Block(b.order + 1, b.idx / 2);
            var g := Marked(Unmarked(Unmarked(free, b), Block(b.order, BuddyOf(b.idx))), up);
            Partition(g, out, total) && CoalescedExcept(g, up)
  {
    var sibling, up := Block(b.order, BuddyOf(b.idx)), Block(b.order + 1, b.idx / 2);
    var g := Marked(Unmarked(Unmarked(free, b), sibling), up);
    var p := Shl(b.idx, b.order);
    ShrShl(b.idx, b.order);
    assert Covers(b, p) && Covers(up, p);
    assert Listed(free, out, b) && Listed(free, out, sibling);
    assert !Listed(free, out, up);
    assert InRange(up, total);
    assert Halved(g, out, free, out, up);
    MergePartition(g, out, free, out, total, up);
  }

  lemma MergeDone(free: FreeSets, b: Block)
    requires CoalescedExcept(free, b) && IsFree(free, b)
    requires b.order == |free| - 1 || !IsFree(free, Block(b.order, BuddyOf(b.idx)))
    ensures Coalesced(free)
  {
    assert BuddyOf(BuddyOf(b.idx)) == b.idx;
  }

  // ---------------------------------------------------------------- addresses

  lemma OutstandingIsListed(free: FreeSets, out: set<Block>, total: nat, b: Block)
    requires Partition(free, out, total) && b in out
    ensures Listed(free, out, b) && b.order < |free|
  {
    assert Listed(free, out, b);
  }

  /** The first address past a block, for a region that starts at base. */
  ghost function EndOf(base: nat, b: Block): nat {
    base + Shl(b.idx + 1, b.order) * PAGE_SIZE
  }

  ghost function StartOf(base: nat, b: Block): (a: nat)
    ensures base <= a && (a - base) % PAGE_SIZE == 0
  {
    base + Shl(b.idx, b.order) * PAGE_SIZE
  }

  lemma {:induction false} ShlGap(x: nat, y: nat, o: nat)
    requires x < y
    ensures Shl(x, o) + 1 <= Shl(y, o)
    decreases o
  {
    if o == 0 {
    } else {
      ShlGap(2 * x, 2 * y, o - 1);
    }
  }

  /** The pages a block covers are the ones between its two ends. */
  lemma CoversIsInterval(b: Block, p: nat)
    ensures Covers(b, p) <==> Shl(b.idx, b.order) <= p < Shl(b.idx + 1, b.order)
  {
    ShrBounds(p, b.order);
    var s := Shr(p, b.order);
    if s < b.idx {
      ShlMonotone(s + 1, b.idx, b.order);
    } else if b.idx < s {
      ShlMonotone(b.idx + 1, s, b.order);
    }
  }

  /** Distinct listed blocks occupy disjoint address ranges. */
  lemma ListedDisjoint(free: FreeSets, out: set<Block>, total: nat, base: nat, b: Block, c: Block)
    requires Partition(free, out, total) && Listed(free, out, b) && Listed(free, out, c) && b != c
    ensures EndOf(base, b) <= StartOf(base, c) || EndOf(base, c) <= StartOf(base, b)
  {
    var p, q := Shl(b.idx, b.order), Shl(c.idx, c.order);
    CoversIsInterval(b, p);
    CoversIsInterval(b, q);
    CoversIsInterval(c, p);
    CoversIsInterval(c, q);
    ShlGap(b.idx, b.idx + 1, b.order);
    ShlGap(c.idx, c.idx + 1, c.order);
  }

  /** A listed block lies inside the managed region. */
  lemma ListedInRegion(free: FreeSets, out: set<Block>, total: nat, base: nat, b: Block)
    requires Partition(free, out, total) && Listed(free, out, b)
    ensures base <= StartOf(base, b) < EndOf(base, b) <= base + total * PAGE_SIZE
  {
    ShrBounds(total, b.order);
    ShlGap(b.idx, b.idx + 1, b.order);
    ShlMonotone(b.idx + 1, Shr(total, b.order), b.order);
  }

  // ---------------------------------------------------------------- the allocator

  /** b is the lowest free block of the lowest order, from `order` up, that has one. */
  ghost predicate IsFirstFree(free: FreeSets, order: nat, b: Block) {
    && order <= b.order < |free| && b.idx in free[b.order]
    && (forall o :: order <= o < b.order ==> free[o] == {})
    && (forall i :: i in free[b.order] ==> b.idx <= i)
  }

  class BuddyAllocator {
    var base: nat
    var totalPages: nat
    var maxOrder: nat
    var free: FreeSets
    ghost var outstanding: set<Block>

    ghost predicate Valid()
      reads this
    {
      && |free| == maxOrder + 1
      && Partition(free, outstanding, totalPages)
      && Coalesced(free)
    }

    /** `init`, with the free marks set to the maximal cover of the managed pages. */
    constructor (base: nat, size: nat)
      ensures Valid() && outstanding == {}
      ensures this.base == base && totalPages == size / PAGE_SIZE
      ensures maxOrder <= MAX_ORDER && (totalPages <= Pow2(maxOrder) || maxOrder == MAX_ORDER)
      ensures forall o :: 0 <= o < maxOrder ==> Pow2(o) < totalPages
      ensures free == MaximalCover(totalPages, maxOrder)
    {
      this.base := base;
      var total := size / PAGE_SIZE;
      totalPages := total;
      var order := 0;
      while Pow2(order) < total && order < MAX_ORDER
        invariant order <= MAX_ORDER
        invariant forall o :: 0 <= o < order ==> Pow2(o) < total
      {
        order := order + 1;
      }
      maxOrder := order;
      outstanding := {};
      free := MaximalCover(total, order);
      new;
      MaximalCoverIsLegal(totalPages, maxOrder);
    }

    /** The first free block of this order, if there is one. */
    method FindFree(order: nat) returns (r: Option<nat>)
      requires Valid() && order <= maxOrder
      ensures r.None? ==> free[order] == {}
      ensures r.Some? ==> r.value in free[order] && forall i :: i in free[order] ==> r.value <= i
    {
      var count := Shr(totalPages, order);
      for idx := 0 to count
        invariant forall i :: 0 <= i < idx ==> i !in free[order]
      {
        if idx in free[order] {
          return Some(idx);
        }
      }
      forall i: nat | i in free[order] ensures false {
        assert Listed(free, outstanding, Block(order, i));
      }
      return None;
    }

    /** First fit: the lowest order that has a free block, and its lowest block `from`,
        supplies the request; its lower half is split until the order fits. */
    method AllocPages(order: nat) returns (r: Option<nat>, ghost from: Block, ghost b: Block)
      requires Valid()
      modifies this
      ensures Valid()
      ensures base == old(base) && totalPages == old(totalPages) && maxOrder == old(maxOrder)
      ensures r.None? <==> NoneFree(old(free), order)
      ensures order <= maxOrder ==> (r.None? <==> AllBusy(old(outstanding), totalPages, order))
      ensures r.None? ==> free == old(free) && outstanding == old(outstanding)
      ensures r.Some? ==> order <= from.order <= maxOrder && IsFirstFree(old(free), order, from)
      ensures r.Some? ==> b == Block(order, Shl(from.idx, from.order - order)) && r.value == StartOf(base, b)
      ensures r.Some? ==> b !in old(outstanding) && outstanding == old(outstanding) + {b}
    {
      hide AllBusy, Covers, Coalesced, InRange;
      from, b := Block(0, 0), Block(0, 0);
      if order > maxOrder {
        return None, from, b;
      }
      NoneFreeExactlyWhen(free, outstanding, totalPages, order);
      var found := FindFree(order);
      if found.Some? {
        from := Block(order, found.value);
        b := from;
        assert IsFree(free, b);
        TakeStep(free, outstanding, totalPages, b);
        free := Unmarked(free, Block(order, found.value));
        outstanding := outstanding + {b};
        return Some(base + Shl(found.value, order) * PAGE_SIZE), from, b;
      }
      var splitOrder := order + 1;
      while splitOrder <= maxOrder
        invariant order < splitOrder <= maxOrder + 1
        invariant Valid() && free == old(free) && outstanding == old(outstanding)
        invariant base == old(base) && totalPages == old(totalPages) && maxOrder == old(maxOrder)
        invariant forall o :: order <= o < splitOrder ==> free[o] == {}
      {
        found := FindFree(splitOrder);
        if found.Some? {
          from := Block(splitOrder, found.value);
          assert IsFirstFree(free, order, from);
          TakeStep(free, outstanding, totalPages, from);
          assert Listed(free, outstanding, from);
          free := Unmarked(free, Block(splitOrder, found.value));
          outstanding := outstanding + {from};
          var idx := SplitDown(order, splitOrder, found.value);
          b := Block(order, idx);
          return Some(base + Shl(idx, order) * PAGE_SIZE), from, b;
        }
        splitOrder := splitOrder + 1;
      }
      return None, from, b;
    }

    /** The inner loop of `alloc_pages`: halve the block in hand down to the wanted order. */
    method SplitDown(order: nat, splitOrder: nat, splitIdx: nat) returns (currentIdx: nat)
      requires Valid() && order <= splitOrder <= maxOrder && Block(splitOrder, splitIdx) in outstanding
      modifies this
      ensures Valid() && base == old(base) && totalPages == old(totalPages) && maxOrder == old(maxOrder)
      ensures currentIdx == Shl(splitIdx, splitOrder - order)
      ensures outstanding == old(outstanding) - {Block(splitOrder, splitIdx)} + {Block(order, currentIdx)}
      ensures Block(order, currentIdx) !in old(outstanding) - {Block(splitOrder, splitIdx)}
    {
      var currentOrder := splitOrder;
      currentIdx := splitIdx;
      while currentOrder > order
        invariant order <= currentOrder <= splitOrder
        invariant Valid() && base == old(base) && totalPages == old(totalPages) && maxOrder == old(maxOrder)
        invariant currentIdx == Shl(splitIdx, splitOrder - currentOrder)
        invariant Block(currentOrder, currentIdx) !in old(outstanding) - {Block(splitOrder, splitIdx)}
        invariant outstanding == old(outstanding) - {Block(splitOrder, splitIdx)} + {Block(currentOrder, currentIdx)}
      {
        SplitStep(free, outstanding, totalPages, Block(currentOrder, currentIdx));
        ShlNext(splitIdx, splitOrder - currentOrder);
        outstanding := outstanding - {Block(currentOrder, currentIdx)} + {Block(currentOrder - 1, 2 * currentIdx)};
        currentOrder := currentOrder - 1;
        var buddyIdx := currentIdx * 2 + 1;
        free := Marked(free, Block(currentOrder, buddyIdx));
        currentIdx := currentIdx * 2;
      }
    }

    /** Gives a block back and merges upwards while the buddy is free too. An address below
        the region is ignored. */
    method FreePages(addr: nat, order: nat, ghost b: Block)
      requires Valid()
      requires addr < base || (b in outstanding && b.order == order && addr == StartOf(base, b))
      modifies this
      ensures Valid()
      ensures base == old(base) && totalPages == old(totalPages) && maxOrder == old(maxOrder)
      ensures addr < base ==> free == old(free) && outstanding == old(outstanding)
      ensures addr >= base ==> outstanding == old(outstanding) - {b}
    {
      hide Partition, Coalesced, CoalescedExcept, Listed;
      if addr < base {
        return;
      }
      OutstandingIsListed(free, outstanding, totalPages, b);
      var page := (addr - base) / PAGE_SIZE;
      var idx := Shr(page, order);
      ShrShl(b.idx, order);
      var currentOrder := order;
      GiveStep(free, outstanding, totalPages, b);
      free := Marked(free, Block(currentOrder, idx));
      outstanding := outstanding - {b};
      while currentOrder < maxOrder
        invariant order <= currentOrder <= maxOrder && |free| == maxOrder + 1
        invariant base == old(base) && totalPages == old(totalPages) && maxOrder == old(maxOrder)
        invariant outstanding == old(outstanding) - {b}
        invariant Partition(free, outstanding, totalPages)
        invariant IsFree(free, Block(currentOrder, idx)) && CoalescedExcept(free, Block(currentOrder, idx))
      {
        var buddy := BuddyOf(idx);
        if buddy !in free[currentOrder] {
          break;
        }
        MergeStep(free, outstanding, totalPages, Block(currentOrder, idx));
        free := Unmarked(free, Block(currentOrder, idx));
        free := Unmarked(free, Block(currentOrder, buddy));
        idx := idx / 2;
        currentOrder := currentOrder + 1;
        free := Marked(free, Block(currentOrder, idx));
      }
      MergeDone(free, Block(currentOrder, idx));
    }

    /** Freeing everything that is handed out, in any order, restores the initial cover. */
    method FreeAll(blocks: seq<Block>)
      requires Valid()
      requires forall i, j :: 0 <= i < j < |blocks| ==> blocks[i] != blocks[j]
      requires outstanding == set i | 0 <= i < |blocks| :: blocks[i]
      modifies this
      ensures Valid() && outstanding == {}
      ensures totalPages == old(totalPages) && maxOrder == old(maxOrder)
      ensures free == MaximalCover(totalPages, maxOrder)
    {
      for k := 0 to |blocks|
        invariant Valid() && base == old(base) && totalPages == old(totalPages) && maxOrder == old(maxOrder)
        invariant outstanding == set i | k <= i < |blocks| :: blocks[i]
      {
        var addr := base + Shl(blocks[k].idx, blocks[k].order) * PAGE_SIZE;
        FreePages(addr, blocks[k].order, blocks[k]);
      }
      assert outstanding == {};
      AllFreeIsInitial(free, totalPages, maxOrder);
    }
  }
}
