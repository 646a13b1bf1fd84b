/** `kmalloc` of src/kern/mem.rs over the buddy bitmap exactly as src/kern/mm/buddy.rs has it.
    Module Heap's results rest on separate free marks for each order; this is what becomes of
    its main one without them. */
module BitmapHeap {
  import opened Prelude
  import Heap
  import Bitmap = BuddyBitmap

  /** Address x is one of the n bytes from p on. */
  ghost predicate IsByteOf(p: nat, n: nat, x: nat) {
    p <= x < p + n
  }

  ghost predicate BytesMeet(p: nat, n: nat, q: nat, m: nat) {
    exists x :: IsByteOf(p, n, x) && IsByteOf(q, m, x)
  }

  /** The orders two page requests are served with make the difference. */
  ghost predicate MeetUnlessSameOrder(p: nat, p': nat, size: nat, size': nat) {
    forall o: nat, o': nat :: Heap.IsOrderFor(o, Heap.PagesFor(size)) && Heap.IsOrderFor(o', Heap.PagesFor(size')) ==>
      (BytesMeet(p, Pow2(o) * PAGE_SIZE, p', Pow2(o') * PAGE_SIZE) <==> o != o')
  }

  /** Two requests for whole pages on a fresh heap, both served: the allocations share bytes
      exactly when their sizes round to different orders. */
  method KmallocTwo(a: Bitmap.BuddyAllocator, size: nat, size': nat) returns (p: nat, p': nat)
    requires a.Valid() && Bitmap.Prefix(a.bitmap, 0, 0) && a.base > 0
    requires Heap.SLAB_LIMIT < size < TWO_64 && Heap.SLAB_LIMIT < size' < TWO_64
    modifies a`bitmap
    ensures p != 0 && p' != 0 ==> MeetUnlessSameOrder(p, p', size, size')
  {
    hide Heap.IsOrderFor, Heap.PagesFor, Bitmap.Prefix, Bitmap.Overlap, BytesMeet;
    var order := Heap.OrderFor(Heap.PagesFor(size));
    var order' := Heap.OrderFor(Heap.PagesFor(size'));
    var r, r';
    ghost var idx, idx';
    r, r', idx, idx' := a.AllocTwo(order, order');
    p, p' := r.GetOr(0), r'.GetOr(0);
    if p != 0 && p' != 0 {
      Heap.OrderUniqueAll(order, Heap.PagesFor(size));
      Heap.OrderUniqueAll(order', Heap.PagesFor(size'));
      ShlIsMul(0, order);
      ShlIsMul(idx', order');
      StartsDecide(a.base, Pow2(order), Pow2(order'), order == order', p');
    }
  }

  /** Two blocks from the same start meet; one that starts where the other ends does not. */
  lemma StartsDecide(base: nat, n: nat, n': nat, apart: bool, p': nat)
    requires n > 0 && n' > 0 && p' == if apart then base + n * PAGE_SIZE else base
    ensures BytesMeet(base, n * PAGE_SIZE, p', n' * PAGE_SIZE) <==> !apart
  {
    if !apart {
      assert IsByteOf(base, n * PAGE_SIZE, base) && IsByteOf(p', n' * PAGE_SIZE, base);
    }
  }
}
