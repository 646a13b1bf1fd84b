# Avaria kernel: a verified model

Avaria is a small x86_64 kernel written in Rust. This project models its stateful core in Dafny and
proves what that core is for. Each module follows one component of the kernel:

| file | component | main results |
|---|---|---|
| `Buddy.dfy` | `mm/buddy.rs`, one free set per order | free and outstanding blocks always partition the managed pages; the outstanding blocks alone determine the free sets, so freeing everything restores the initial cover |
| `BuddyBitmap.dfy` | `mm/buddy.rs`, the bitmap as written | two requests on a fresh allocator overlap exactly when their orders differ; a run of `alloc_one` hands out min(total, 2^20) pages in order |
| `Slab.dfy` | `mm/slab.rs`, over the per-order buddy allocator | the caches refine a set of live objects; a page goes back only when nothing in it is live |
| `Heap.dfy` | `kmalloc`, `kmalloc_aligned`, `kfree` of `mem.rs`, over the per-order buddy allocator | live allocations never overlap, hold what was asked for, and are freed to where they came from |
| `BitmapHeap.dfy` | `kmalloc` of `mem.rs`, over the bitmap as written | two page requests on a fresh heap overlap exactly when they round to different orders |
| `Paging.dfy` | `map_mmio`, `make_executable` of `mem.rs`, `make_user_accessible` of `drv/ring3/mod.rs` | refinement of the in-place walks to the virtual-to-physical map |
| `Ring.dfy` | `RingBuffer` of `ipc.rs`, the keyboard ring of `drv/ps2/mod.rs` | FIFO under every interleaving of the atomic steps |
| `Channels.dfy` | the channel table of `ipc.rs` | channels do not disturb each other; an id is given out once, under any interleaving of its creators |
| `Sched.dfy` | `sched.rs` | exact context switching over whole runs; a Ready task is chosen within fifteen effective ticks |
| `Barrier.dfy` | `smp.rs` | the start-up barrier is safe, and free of deadlock, under conditions that are proved exact |
| `Ext3Inode.dfy`, `Ext3Dir.dfy`, `Ext3Fit.dfy` | `fs/ext3` | block-tree lookup, file contents, directory scans, path walks; when a read overruns its buffer |
| `Elf.dfy` | `avaria-elf` | the loaded image, byte by byte, and the exact outcome of every load |
| `Tar.dfy` | `fs/initrd.rs` | a ustar archive parses back to its members |

`Prelude.dfy` and `ByteStrings.dfy` hold shared vocabulary. `dafny verify dfyconfig.toml` checks everything.

Machine arithmetic is written out: the Cargo profiles (Cargo.toml:15-19) leave overflow checks off in release
builds, so sums, products and `as u32` casts wrap. Objects the kernel updates in place are classes or arrays
whose methods are proved against specification functions; the properties are then proved of those functions,
or are invariants every method keeps. Protocols between CPUs are state machines whose runs interleave single
atomic loads and stores.

Some statements one might expect do not hold of the code. Each of them is proved in its exact form:

- The buddy bitmap's index does not separate orders, and `init` marks every order free: blocks of two orders
  overlap on a fresh allocator, and so do allocations (`BuddyBitmap.BuddyAllocator.AllocTwo`,
  `BuddyBitmap.BuddyAllocator.AllocAfter`, `BuddyBitmap.SharedPage`, `BitmapHeap.KmallocTwo`). The results of
  the modules `Buddy`, `Slab` and `Heap`, above all that blocks partition the pages and live allocations never
  overlap, rest on per-order free sets that start from a legal cover.
- `kmalloc` near 2^64 bytes wraps to a too small block (`Heap.BlockHolds`). What `kmalloc_aligned` takes is what
  `kfree` gives back exactly when the alignment is at most the block the size alone would take, or, where the
  rounding of the larger of the two wraps, exactly when the size alone takes a single page too
  (`Heap.AlignedMatches`, `Heap.AlignedMismatch`).
- A `map_mmio` page translates to itself afterwards exactly when it was not mapped elsewhere before
  (`Paging.AddressSpace.RunFaithful`, `Paging.MappedElsewhere`). The page loops of `make_executable` and
  `make_user_accessible` reach exactly the pages of the range exactly when its rounded end does not wrap
  (`Paging.PagesOfRange`); when it wraps they can still reach some page (`Paging.WrappedVisit`).
- The barrier lets a CPU go too early exactly when the boot processor is missing from a non-empty CPU list, and
  can wait for ever exactly when it is listed twice or the list is empty (`Barrier.SafeExactlyWhen`,
  `Barrier.LiveExactlyWhen`).
- `read_inode_data` reads a mapped last block whole. A read stays inside the buffer exactly when some block
  cannot be read, so that it fails first, or the last block is a hole, or the file is longer than half a block,
  or the buffer is whole pages and a block no larger than one (`Ext3Fit.FitsExactlyWhen`,
  `Ext3Fit.SmallFileOverruns`).
- Block sizes above 4 KiB lose the triple-indirect tree, and above 128 KiB the double-indirect one: their ranges
  wrap to 0 in 32 bits (`Ext3Inode.TripleExactlyWhen`, `Ext3Inode.DoubleExactlyWhen`).
- The ELF program headers are read at a stride of 56 bytes whatever `e_phentsize` says: the reader gives the
  file's own entries exactly when that is 56, or there is at most one (`Elf.StrideExactlyWhen`). A load leaves
  the buffer behind the image alone exactly when every segment's file part ends within it
  (`Elf.BehindIsSafeExactlyWhen`, `Elf.OversizeSpills`).
- A table bound that wraps in 64 bits is accepted although the table lies outside the file (`Elf.WrappedTable`),
  and an archive that ends inside a member's data makes the parser panic (`Tar.TruncatedPanics`).
- The ramdisk parser reads a member's 100-byte name field only. That is the member's path exactly when its ustar
  prefix field is empty or nothing but "./" (`Tar.FullPathExactlyWhen`).

## Model

| member | source | states |
|---|---|---|
| Buddy.BuddyAllocator.AllocPages | src/kern/mm/buddy.rs:58-88 | first fit: the lowest free block of the lowest order that has one supplies the request and its lower end is handed out; None exactly when no order from the wanted one up has a free block, that is, up to the top order, when every block of the wanted order that fits has a page handed out; the partition and the coalescing are kept |
| Buddy.BuddyAllocator.SplitDown | src/kern/mm/buddy.rs:73-80 | halving a block in hand frees the upper halves and keeps the lowest block of the wanted order outstanding |
| Buddy.BuddyAllocator.FreePages | src/kern/mm/buddy.rs:90-112 | a matching free removes exactly that block from the outstanding ones and merges until no two buddies are both free; an address below the region is ignored |
| Buddy.BuddyAllocator.FindFree | src/kern/mm/buddy.rs:122-130 | the lowest free block of an order, or None exactly when there is none |
| Buddy.BuddyAllocator.FreeAll | src/kern/mm/buddy.rs:90-112 | freeing all outstanding blocks in any order gives back the initial maximal cover |
| Buddy.FreeSetIsCanonical | src/kern/mm/buddy.rs:58-112 | two coalesced states with the same outstanding blocks have the same free sets, whatever splits and merges led there |
| Buddy.ParentIsBusy | src/kern/mm/buddy.rs:100-111 | a free block below the top order whose parent fits has an outstanding page in its parent |
| Buddy.NoneFreeExactlyWhen | src/kern/mm/buddy.rs:58-88 | no free block can serve an order exactly when no block of that order that fits has all its pages free: requests fail only for want of pages |
| Buddy.AllFreeIsInitial | src/kern/mm/buddy.rs:90-112 | with nothing handed out the free sets are the maximal cover |
| Buddy.MaximalCoverIsLegal | src/kern/mm/buddy.rs:22-33 | the maximal cover partitions the managed pages and is coalesced |
| Buddy.SplitStep | src/kern/mm/buddy.rs:75-80 | one round of the split loop keeps partition and coalescing |
| Buddy.MergeStep | src/kern/mm/buddy.rs:100-107 | one round of the merge loop keeps the partition and moves the only possible free buddy pair one order up |
| Buddy.ListedDisjoint | src/kern/mm/buddy.rs:58-112 | two distinct free or outstanding blocks occupy disjoint address ranges |
| Buddy.ListedInRegion | src/kern/mm/buddy.rs:58-88 | every block lies inside the managed region |
| BuddyBitmap.BuddyAllocator.AllocPages | src/kern/mm/buddy.rs:58-88 | on the bitmap as written: the first block reading as free in the lowest order that has one is taken, its bit is set, the bits of the upper halves of every split are cleared and no other bit changes; its lowest part is handed out, inside the region and aligned to its size from the base; None, and no change, exactly when no order has one |
| BuddyBitmap.SplitBitsAt | src/kern/mm/buddy.rs:73-80 | halving a block clears exactly the bits of the upper halves, bit by bit |
| BuddyBitmap.BuddyAllocator.AllocOnes | src/kern/mm/buddy.rs:114-130 | from `init`, `alloc_one` gives page after page without repeats, and None exactly after min(total_pages, 2^20) of them |
| BuddyBitmap.BuddyAllocator.AllocSameOrder | src/kern/mm/buddy.rs:22-88 | from `init`, requests of one order are served by blocks 0, 1, 2, ... |
| BuddyBitmap.BuddyAllocator.AllocTwo | src/kern/mm/buddy.rs:35-88 | two served requests on a fresh allocator overlap exactly when their orders differ |
| BuddyBitmap.BuddyAllocator.AllocAfter | src/kern/mm/buddy.rs:35-88 | which block serves a request of order b after k requests of order a on a fresh allocator, and that it meets one of those k blocks exactly when it starts below their end |
| BuddyBitmap.SharedPage | src/kern/mm/buddy.rs:35-88 | a concrete run: one page, then two pages, and both are the first page |
| BuddyBitmap.ExhaustedEverywhere | src/kern/mm/buddy.rs:35-56 | once all order-0 bits are set every higher-order bit reads as set |
| Slab.PageAlloc | src/kern/mm/slab.rs:26-40 | the lowest clear slot below the capacity is set and its address returned; None exactly when the page is full |
| Slab.IsFull | src/kern/mm/slab.rs:54-69 | the word-wise test is true exactly when every slot is taken |
| Slab.IsEmptyIsEmpty | src/kern/mm/slab.rs:71-73 | the zero bitmap is exactly the page without a live slot |
| Slab.WithBitLive | src/kern/mm/slab.rs:26-52 | setting or clearing a slot makes exactly its address live or dead |
| Slab.SlabCache.Alloc | src/kern/mm/slab.rs:96-115 | the first page with room hands out an address that was not live, and only it becomes live; a page is taken from the buddy allocator only when all are full; None exactly when all are full and there are 16, or every managed page is handed out; a page holds as many objects as fit |
| Slab.SlabCache.Free | src/kern/mm/slab.rs:117-146 | exactly the freed object stops being live; its page is released exactly when nothing else in it was live and some other page is empty, and then exactly its block goes back; False and no change when no page holds the address |
| Slab.SlabCache.ReleaseNeeded | src/kern/mm/slab.rs:134-139 | the release test: the page and some other page are both empty, so at most one empty page is kept |
| Slab.SlabCache.Compact | src/kern/mm/slab.rs:148-157 | the swap loop is order-preserving removal; the filled entries stay the first count ones |
| Slab.SlabAllocator.Alloc | src/kern/mm/slab.rs:180-187 | the least size class that fits serves the request, and no other cache changes; None exactly for more than 2048 bytes, or when all pages of that class are full and there are 16, or every managed page is handed out |
| Slab.SlabAllocator.Free | src/kern/mm/slab.rs:189-196 | the cache that holds the address takes it back; blocks held elsewhere are untouched |
| Slab.BlocksKept | src/kern/mm/slab.rs:160-196 | one cache's change keeps the caches' pages disjoint and leaves everybody else's blocks as they were |
| Slab.NonEmptyHasLive | src/kern/mm/slab.rs:71-73 | a page whose bitmap is not zero has a live object, so only pages without one are released |
| Heap.KernelHeap.Kmalloc | src/kern/mem.rs:40-63 | a new live allocation from the least class or order that serves the size: a request of at most 2048 bytes is a slab object unless its class is exhausted, and whole pages only when the class has 16 full pages; null for size 0, for an exhausted class with every managed page handed out, and above 2048 bytes exactly for an order above the top one or when of every block of the order some page is handed out; with the live allocations unchanged |
| Heap.KernelHeap.KmallocAligned | src/kern/mem.rs:116-131 | a block of the least order for max(size, align), null exactly for size 0, an order above the top one, or when of every block of that order some page is handed out; unless the rounding wraps, a `kfree` with the same size matches it exactly when align is at most the block size alone would take, and modulo a power of two align the address lies where the region's base does |
| Heap.KernelHeap.Kfree | src/kern/mem.rs:65-85 | a matching free removes exactly that allocation, from the allocator and order that served it, also when a small request had fallen through to whole pages |
| Heap.KernelHeap.LiveDisjoint | src/kern/mem.rs:40-85 | two live allocations never share a byte, the buddy allocator keeping the orders apart |
| Heap.KernelHeap.LiveInRegion | src/kern/mem.rs:40-63 | every live allocation lies in the managed region |
| Heap.KernelHeap.HeldBy | src/kern/mem.rs:70-76 | a slab cache holds a live address exactly when it granted it, so the routing of frees is right |
| Heap.KernelHeap.QuietHeap | src/kern/mm/slab.rs:135-145 | with nothing live, all that is still handed out is at most one page per cache |
| Heap.OrderFor | src/kern/mem.rs:53-57 | the loop finds the least order whose blocks have that many pages |
| Heap.BlockHolds | src/kern/mem.rs:53-57 | the block found holds the request exactly when size is at most 2^64 - 4096: beyond, the rounding wraps |
| Heap.AlignedMatches | src/kern/mem.rs:116-131 | the order freed is the order taken exactly when align is at most the block that size alone would take; where the rounding wraps, exactly when size alone takes a single page too |
| Heap.AlignedMismatch | src/kern/mem.rs:116-131 | 100 bytes at alignment 8192 take order 1, which `kfree` with size 100 does not give back |
| Heap.BlockAligned | src/kern/mem.rs:116-131 | a block of at least n bytes lies, modulo a power of two n, where the region's base does |
| BitmapHeap.KmallocTwo | src/kern/mem.rs:40-63 | over the bitmap as written two page requests on a fresh heap share bytes exactly when they round to different orders |
| Paging.AddressSpace.MapMmio | src/kern/mem.rs:201-281 | a requested page that was absent ends in a last-level entry of its own physical page that the kernel alone can read and write, uncached and not executable; every entry new on a walk lets the kernel, and only the kernel, write; no other translation changes, the tables stay a tree; 0 is returned when the page source runs dry at a page that was absent, with the pages before it mapped and nothing else changed |
| Paging.AddressSpace.MapRun | src/kern/mem.rs:201-281 | any run of calls: existing translations are kept, nothing outside the completed pages is mapped, and an absent page becomes a device page of its own physical page |
| Paging.NewWalkIsOpen | src/kern/mem.rs:220-276 | a device page whose walk was new from the root on has four entries, each writable by the kernel and closed to user mode |
| Paging.AddressSpace.RunFaithful | src/kern/mem.rs:201-281 | after a run every completed page translates to itself exactly when none was mapped elsewhere before |
| Paging.AddressSpace.LinkNewTable | src/kern/mem.rs:218-226 | a fresh zeroed page linked into an absent slot keeps the tree and changes no translation |
| Paging.ExtendWalk | src/kern/mem.rs:218-226 | no walk from any table sees the new empty table |
| Paging.FillWalk | src/kern/mem.rs:273-275 | writing an absent last-level entry maps that one page |
| Paging.AddressSpace.MakeExecutable | src/kern/mem.rs:137-199 | exactly the entries read for a page of the range are marked: leaves become writable and lose NX, links stay |
| Paging.AddressSpace.MakeUserAccessible | src/kern/drv/ring3/mod.rs:11-76 | exactly the entries read for a page of the range are marked: every level gets the user bit, leaves become writable and lose NX |
| Paging.TranslationKept | src/kern/mem.rs:137-199 | neither walk changes any page's physical translation, and a leaf mapping no page of the range keeps its flags |
| Paging.RangeMarked | src/kern/drv/ring3/mod.rs:11-76 | afterwards every mapped page of the range has a writable leaf without NX, and for user access the user bit at every level |
| Paging.RangeFlags | src/kern/drv/ring3/mod.rs:11-76 | entry by entry along the walk of a page of the range: leaves become writable and executable, links do not change for execution and get the user bit for user access, and caching bits, frame and page size stay |
| Paging.UserAllTheWay | src/kern/drv/ring3/mod.rs:11-76 | the user bit is set at every level of the walk, from any table on it |
| Paging.MappedElsewhere | src/kern/mem.rs:201-281 | a concrete run: a page is asked for and its address returned, but it translates to another physical page, as before the run |
| Paging.PagesOfRange | src/kern/mem.rs:144-147 | for every range, the loop visits exactly the pages that hold one of its bytes, exactly when the rounded end does not wrap |
| Paging.PathsDiffer | src/kern/mem.rs:211-214 | pages fewer than 2^36 apart have different table indices |
| Ring.RingBuffer.Push | src/kern/arch/x86_64/ipc.rs:63-73 | appends to the queue, or refuses without change exactly when SIZE - 1 items are held |
| Ring.RingBuffer.Pop | src/kern/arch/x86_64/ipc.rs:75-84 | removes the oldest item, or gives None exactly when nothing is held |
| Ring.RingBuffer.Len | src/kern/arch/x86_64/ipc.rs:90-94 | at rest, the length of the queue |
| Ring.EveryRunIsFifo | src/kern/arch/x86_64/ipc.rs:63-94 | in every state of every interleaving accepted = popped + held, in order; at most SIZE - 1 are held; a slot about to be written holds no unread item |
| Ring.RefusalIsExact | src/kern/drv/ps2/mod.rs:128-146 | even with stale index reads a push is refused exactly when the ring is full as it reads the tail, a pop exactly when it is empty as it reads the head |
| Ring.QueueIsUnread | src/kern/arch/x86_64/ipc.rs:63-84 | the indices delimit exactly the accepted items not popped yet |
| Ring.RunInv | src/kern/drv/ps2/mod.rs:128-146 | the invariant that ties stale producer and consumer reads to the ring, over every run and ring size |
| Ring.MaskIsRemainder | src/kern/drv/ps2/mod.rs:130-144 | the keyboard ring's mask is the remainder modulo 256, so the same model covers it |
| Channels.ChannelTable.Send | src/kern/arch/x86_64/ipc.rs:128-138 | true exactly for an active channel with room; the message goes behind that channel's others and no other channel changes |
| Channels.ChannelTable.Recv | src/kern/arch/x86_64/ipc.rs:140-150 | the oldest message of an active channel that holds one; no other channel changes |
| Channels.ChannelTable.CreateChannel | src/kern/arch/x86_64/ipc.rs:116-126 | ids are given out in order and each once; None, and no change, exactly when all 32 are used up |
| Channels.IdsGivenOnce | src/kern/arch/x86_64/ipc.rs:116-121 | with the `fetch_add` and `fetch_sub` of any number of callers interleaved, no id is given out twice and a call is refused only when all 32 are |
| Channels.ChannelTable.DestroyChannel | src/kern/arch/x86_64/ipc.rs:170-177 | only that channel is deactivated, and its queue is left as it is |
| Channels.ChannelTable.Pending | src/kern/arch/x86_64/ipc.rs:161-168 | the length of the channel's queue, 0 for an id out of range |
| Sched.Scheduler.TimerTick | src/kern/sched.rs:129-171 | the interrupt handler, in place, is the step Tick, which `Sched.TickExactly` spells out |
| Sched.TickExactly | src/kern/sched.rs:129-171 | without effect a tick only counts; else it resumes a Ready task with its registers, selectors 0x08 and 0x10 and the top of its stack as kernel stack, and the task interrupted keeps its registers and is Ready again if it was Running |
| Sched.Scheduler.FindNext | src/kern/sched.rs:147-153 | the search loop finds the first Ready slot in cyclic order |
| Sched.Scheduler.Spawn | src/kern/sched.rs:192-249 | the lowest free slot above 0 gets a Ready task with its id, its stack and at most 15 bytes of the name; None, and no change, when there is no slot or no stack |
| Sched.FirstResume | src/kern/sched.rs:224-238 | in every run the first tick that resumes a spawned task enters the trampoline with entry and API table as arguments, 8 bytes below the top of its stack, flags 0x202, all other registers 0 |
| Sched.ExitedIsGone | src/kern/sched.rs:118-127 | a task that exited is never resumed in any run until a spawn gives its slot away |
| Sched.NoSwitchInside | src/kern/sched.rs:264-274 | between a disable and its matching enable, at any nesting, no tick of any run switches tasks |
| Sched.PickIsNearest | src/kern/sched.rs:147-153 | the slot picked is Ready and at the least cyclic distance |
| Sched.TickPicks | src/kern/sched.rs:154-160 | an effective tick always resumes a Ready task: the fallback to slot 0 is never taken |
| Sched.NextInv | src/kern/sched.rs:118-228 | every step keeps: only the current slot can be Running, and the idle task is Ready or Running |
| Sched.RunInv | src/kern/sched.rs:118-274 | the same in every state of every run of ticks, spawns, exits and preempt toggles |
| Sched.ResumedExactly | src/kern/sched.rs:63-105 | a resumed task gets exactly the eighteen registers it was last interrupted with, or those of its spawn frame |
| Sched.FrameIsKept | src/kern/sched.rs:63-105 | each slot keeps its frame until it is interrupted or spawned into again |
| Sched.StepCloser | src/kern/sched.rs:147-169 | a Ready task that is not chosen stays Ready, and an effective tick brings the current slot nearer to it |
| Sched.ChosenInTime | src/kern/sched.rs:129-171 | a Ready task is chosen within fifteen effective ticks |
| Barrier.NobodyLeavesEarly | src/kern/arch/x86_64/smp.rs:16-52 | with the boot processor in the list, no CPU passes its spin and the flag is not set before every AP is online and counted |
| Barrier.SafeExactlyWhen | src/kern/arch/x86_64/smp.rs:31-34 | that holds on every run exactly when the boot processor is listed, or the list is empty |
| Barrier.LiveExactlyWhen | src/kern/arch/x86_64/smp.rs:24-51 | no reachable state is stuck exactly when the list is not empty and has the boot processor at most once |
| Barrier.SomebodyMoves | src/kern/arch/x86_64/smp.rs:24-51 | from any unfinished reachable state some CPU has a step that changes the state |
| Barrier.StepsShrinkWork | src/kern/arch/x86_64/smp.rs:24-51 | every step that changes the state leaves less to do, so only spinning can go on for ever |
| Barrier.StepInv | src/kern/arch/x86_64/smp.rs:16-52 | every atomic step keeps the counter equal to the number of counted CPUs, the online slots those of marked CPUs |
| Barrier.OnlineCount | src/kern/arch/x86_64/smp.rs:67-75 | the loop counts the slots that are set |
| Barrier.OnlineAfterRelease | src/kern/arch/x86_64/smp.rs:67-75 | once anybody is released the set slots are the lapic ids modulo 64 |
| Ext3Inode.ReadBytes | src/kern/fs/ext3/block.rs:6-31 | a byte read over whole sectors copies exactly the bytes asked for and changes no other memory; it fails, with no change, exactly when they pass the end of the disk |
| Ext3Inode.ReadBlockPtr | src/kern/fs/ext3/inode.rs:229-236 | the 32-bit pointer at that index of a block, 0 when it cannot be read |
| Ext3Inode.PointersReadBack | src/kern/fs/ext3/inode.rs:229-236 | a block written as 32-bit pointers reads back pointer by pointer |
| Ext3Inode.ModeDecides | src/kern/fs/ext3/inode.rs:47-60 | the high four bits of the mode alone decide what is a directory and what has a 64-bit size |
| Ext3Inode.ResolveFollows | src/kern/fs/ext3/inode.rs:167-227 | `resolve_block`, in 32-bit arithmetic, of a path's number is the block at the end of that path in the direct, single, double and triple tree, for every block size whose p * p (double) or p * p * p (triple) fits 32 bits |
| Ext3Inode.PathIsUnique | src/kern/fs/ext3/inode.rs:167-227 | two paths with the same number are the same |
| Ext3Inode.PathExists | src/kern/fs/ext3/inode.rs:167-227 | every number below 12 + p + p^2 + p^3 is the number of a path |
| Ext3Inode.PathRange | src/kern/fs/ext3/inode.rs:171-203 | the four ranges do not meet |
| Ext3Inode.NumbersFit | src/kern/fs/ext3/inode.rs:171-203 | with blocks up to 4 KiB no number needs more than 32 bits |
| Ext3Inode.TripleExactlyWhen | src/kern/fs/ext3/inode.rs:203-224 | for block sizes 1 to 128 KiB the triple-indirect tree is followed exactly for 1, 2 and 4 KiB |
| Ext3Inode.DoubleExactlyWhen | src/kern/fs/ext3/inode.rs:184-201 | for every block size the superblock's shift can give (1 KiB to 2 GiB) the double-indirect tree is followed exactly up to 128 KiB |
| Ext3Inode.ReadInodeData | src/kern/fs/ext3/inode.rs:129-165 | a successful read leaves the abstract file in the buffer and changes memory only within the extent it writes; it succeeds exactly when the file is not empty, a buffer was given and every block is a hole or readable; a read that fails has left the blocks before the first unreadable one |
| Ext3Inode.ChunkIsFile | src/kern/fs/ext3/inode.rs:144-162 | each round appends the next block's bytes, or zeros for a hole, to the file read so far |
| Ext3Fit.FitsExactlyWhen | src/kern/fs/ext3/inode.rs:135-162 | whatever the memory was, a read into what `kmalloc` granted leaves everything outside the granted bytes as it was, exactly when some block cannot be read, or the last block is a hole, or the file is longer than half a block, or the grant is whole pages and a block no larger than one, for every block size |
| Ext3Fit.SmallFileOverruns | src/kern/fs/ext3/inode.rs:135-162 | a concrete read: a file of 100 bytes on 1 KiB blocks is read into 128 granted bytes and changes the byte behind them |
| Ext3Dir.ReadInode | src/kern/fs/ext3/inode.rs:66-118 | the inode record found through its group's descriptor, padded with zeros; nothing for inode 0 or an unreadable place |
| Ext3Dir.InodeReadsBack | src/kern/fs/ext3/inode.rs:66-118 | an inode laid out in its group's table, with the descriptor behind the superblock's block, is read back for every revision and block size |
| Ext3Dir.DecodeExactlyWhen | src/kern/fs/ext3/inode.rs:14-34 | the inode read from a record is the one written there field by field, and no other |
| Ext3Dir.SameGroupApart | src/kern/fs/ext3/inode.rs:71-101 | two inodes of one group have records that do not overlap |
| Ext3Dir.FindInDirData | src/kern/fs/ext3/dir.rs:40-63 | the inode of the first listed entry with the name, else 0 |
| Ext3Dir.ForEachEntry | src/kern/fs/ext3/dir.rs:114-129 | the calls made are the listing, in order |
| Ext3Dir.ListingReadsBack | src/kern/fs/ext3/dir.rs:40-132 | a directory laid out as records lists exactly its live records, in order |
| Ext3Dir.Lookup | src/kern/fs/ext3/dir.rs:19-38 | the scan of the directory's file data; 0 for no directory, an empty or an unreadable one |
| Ext3Dir.LookupReadsBack | src/kern/fs/ext3/dir.rs:19-63 | in a well-formed directory, the first live record with the name, whatever lies behind the buffer |
| Ext3Dir.LookupIndependent | src/kern/fs/ext3/dir.rs:19-63 | when no live entry's name runs past the directory's end, a lookup does not depend on the memory behind its data |
| Ext3Dir.ResolvePath | src/kern/fs/ext3/dir.rs:65-96 | the component loop, reading each inode and looking the name up in its directory data, is the walk over what the disk's directories list: empty and "." components are skipped, a failed lookup gives 0 |
| Ext3Dir.WalkJoins | src/kern/fs/ext3/dir.rs:65-96 | walking p/q from s is walking q from where p leads, with 0 absorbing |
| Ext3Dir.WalkOne | src/kern/fs/ext3/dir.rs:74-92 | a path of one name is one lookup; "." and the empty path stay |
| Ext3Dir.WalkFinds | src/kern/fs/ext3/dir.rs:19-96 | from a readable directory of records a name leads to the inode of the first live record with that name, and to 0 if there is none |
| Elf.LoadAt | src/kern/crates/avaria-elf/src/loader.rs:9-62 | the exact outcome of a load for any file (error, panic, table outside the file, success), and after success the whole buffer |
| Elf.CopyOutcome | src/kern/crates/avaria-elf/src/loader.rs:46-54 | a segment is copied exactly when source and target lie in file and buffer without wrap-around; an end past the file is an error, and anything else panics |
| Elf.FindSpan | src/kern/crates/avaria-elf/src/loader.rs:13-26 | the first pass finds the least start and the greatest end of the segments to load |
| Elf.CopySegments | src/kern/crates/avaria-elf/src/loader.rs:42-55 | the second pass writes each segment over the earlier ones, up to the first that fails |
| Elf.ImageIsExact | src/kern/crates/avaria-elf/src/loader.rs:9-62 | for well-formed segments the byte for every address is the file's byte in the last segment that has one, or zero, at its distance from the least start, and the buffer behind the image is untouched |
| Elf.LoadsExactlyWhen | src/kern/crates/avaria-elf/src/loader.rs:28-61 | well-formed segments never panic, and load exactly when there is one, the span fits and their bytes are in the file; then base is the buffer, size the distance from the least start to the greatest end, and entry - base = e_entry - least start modulo 2^64 |
| Elf.BehindIsSafeExactlyWhen | src/kern/crates/avaria-elf/src/loader.rs:42-55 | after a load that succeeds the buffer behind the image is as it was, for every file and buffer content, exactly when every segment's file part ends within the span |
| Elf.OversizeSpills | src/kern/crates/avaria-elf/src/loader.rs:42-55 | a concrete table with p_filesz above p_memsz that loads and writes behind the image |
| Elf.ParseHeaderExactlyWhen | src/kern/crates/avaria-elf/src/header.rs:53-74 | exactly the files that start with the bytes of a 64-bit little-endian x86_64 executable or shared-object header are accepted, and the fields read are those written |
| Elf.HeaderErrorExactly | src/kern/crates/avaria-elf/src/header.rs:53-74 | a refused file gets the error of the first check it fails |
| Elf.TableReadsBack | src/kern/crates/avaria-elf/src/header.rs:76-86 | a program header table written with entry size 56 is read back |
| Elf.StrideExactlyWhen | src/kern/crates/avaria-elf/src/header.rs:76-86 | for every file that holds its table, the records read are the file's own entries at phoff + k * e_phentsize exactly when the entry size is 56 or there is at most one entry |
| Elf.TableInFile | src/kern/crates/avaria-elf/src/header.rs:76-86 | an accepted table lies in the file when its bound does not wrap |
| Elf.WrappedTable | src/kern/crates/avaria-elf/src/header.rs:76-86 | a concrete header whose table bound wraps is accepted although its table is outside the file |
| Elf.Records | src/kern/crates/avaria-elf/src/header.rs:84-85 | as many records as the header says, each decoded from its place |
| Tar.Parse | src/kern/fs/initrd.rs:17-53 | the parse loop ends and fills the table with the entries the archive stands for, or reports a name that is not text, or panics on data past the end |
| Tar.ArchiveReadsBack | src/kern/fs/initrd.rs:17-53 | an archive of legal members parses to the first 64 named entries, in order, with what their 100-byte name fields say and their data |
| Tar.FullPathExactlyWhen | src/kern/fs/initrd.rs:26-29 | the name read is the member's full path, but for "./" in front, exactly when its ustar prefix is empty or nothing but "./" |
| Tar.ParseReadsBack | src/kern/fs/initrd.rs:22-50 | the same from any record on, with any room left |
| Tar.TruncatedPanics | src/kern/fs/initrd.rs:36-44 | an archive that ends inside a member's data makes the parser panic |
| Tar.ParseOctal | src/kern/fs/initrd.rs:104-113 | the loop gives the value of the digits up to a NUL or space |
| Tar.OctalReadsBack | src/kern/fs/initrd.rs:104-113 | a number written in octal digits is read back |
| Tar.Find | src/kern/fs/initrd.rs:55-66 | the first entry whose trimmed name is the trimmed path |
| Tar.Read | src/kern/fs/initrd.rs:87-93 | the data of the first matching entry, nothing when it is a directory or there is none |
| Tar.ReadFromArchive | src/kern/fs/initrd.rs:17-93 | parsing an archive of at most 64 members and reading by path gives the data of the first member of that name, leading "./" and closing slashes aside, and nothing for a directory |
| Tar.DotsAreTrimmed | src/kern/fs/initrd.rs:29 | "./" is removed from the front of a name as often as it is there, and nothing else |

## Left out

- Buddy.BuddyAllocator.constructor: the free marks start from the maximal cover of the managed pages, and each order has marks of its own; `init` in the source clears one shared bitmap, which module BuddyBitmap models.
- BuddyBitmap.BuddyAllocator.constructor: frees on the bitmap as written are left out, because its blocks do not stay apart.
- Buddy.BuddyAllocator.AllocPages: stated of per-order free sets, not of the shared bitmap, over which it is false.
- Buddy.BuddyAllocator.FreeAll: stated of per-order free sets that start from the maximal cover, which `init` in the source does not set up.
- Buddy.MaximalCoverIsLegal: this cover is what the per-order sets start from; `init` in the source marks every block of every order free.
- Buddy.BuddyAllocator.FreePages: stated of per-order free sets, not of the shared bitmap; double frees, interior addresses and a wrong order are excluded; so they are in the slab and heap modules.
- Slab.SlabAllocator.Free: a `SlabPage` is a value written back to its cache's array, as the source stores it inline; writing through a pointer into the array is not modelled.
- Heap.KernelHeap.LiveDisjoint: rests on the per-order free sets; over the bitmap as written it is false, and `BitmapHeap.KmallocTwo` says when for two page requests.
- Heap.KernelHeap.Kmalloc: that the allocation is new rests on the per-order free sets; the region starts above address 0, so that a granted address is not the null pointer.
- Paging.AddressSpace.MapMmio: entries are records of the bits the walks use, not 64-bit words; fresh tables come from a pool of frames that are pairwise distinct and no table yet, which stands for `alloc_pages`; address sums are on page numbers, without the 64-bit wrap; at most 2^36 pages are asked for.
- Paging.AddressSpace.MapRun: a run asks for physical pages below 2^36, so that no two requests meet in one virtual page.
- Ring.EveryRunIsFifo: loads and stores are sequentially consistent; weaker memory orders are not modelled.
- Channels.ChannelTable.CreateChannel: the table's own methods are taken one at a time (`Channels.IdsGivenOnce` has the interleavings of the counter); `peek` and the spin lock are left out.
- Sched.Scheduler.Spawn: the stack address and the trampoline's address are parameters; giving stacks back is not modelled because the source never does.
- Barrier.OnlineCount: the loads are taken with nobody writing in between; fewer than 2^32 CPUs are listed.
- Ext3Inode.ReadBytes: the temporary sector buffer is always allocated, and the number of sectors is not cut to 16 bits, which only blocks above 16 MiB would need; AHCI commands are the contract that whole sectors on the disk are read.
- Ext3Inode.ReadInodeData: files of at most 2^32 blocks; a pointer read that fails looks like a hole, as in the source.
- Ext3Inode.Superblock.BlockSize: the shift is not reduced to 32 bits, so exponents above 21 differ from the source.
- Ext3Inode.TripleExactlyWhen: above 128 KiB no triple-indirect number fits the 32 bits it is passed in.
- Ext3Dir.Lookup: names are compared in memory that reaches 255 bytes past the directory, as an entry's name can.
- Ext3Dir.ResolvePath: buffers are always allocated; the directories the walk looks a name up in, and no others, have at most 2^32 blocks and no live entry's name past their end.
- Elf.LoadAt: after a failed copy the buffer's partial contents are not stated; the alignment of the header in memory is not modelled.
- Tar.Parse: which names are valid UTF-8 is a parameter; `for_each_matching` is a filter over the same entries.
- Hardware effects: TLB flushes, port I/O, descriptor tables, interrupt controllers and timers.
- The shell, the framebuffer and the PS/2 scancode tables: finite tables and user interface.
- System calls, the module interface and ring 3 entry: glue over what is modelled.
