/** `read_inode_data` (src/kern/fs/ext3/inode.rs) against the buffer `kmalloc` (src/kern/mem.rs)
    gave it. */
module Ext3Fit {
  import opened Prelude
  import opened ByteStrings
  import opened Slab
  import opened Heap
  import opened Ext3Inode

  /** Whatever the memory was and wherever the buffer lies, a read leaves everything outside
      the granted bytes as it was. */
  ghost predicate StaysInside(disk: seq<Byte>, bs: nat, node: Inode, bytes: nat)
    requires bs >= 4 && IsInode(node)
  {
    forall was, now, buf: nat | buf + BlocksFor(node.Size(), bs) * bs <= |was| &&
        ReadLeaves(disk, bs, node, was, now, buf) ::
      OnlyWithin(was, now, buf, bytes)
  }

  /** A read stays inside what `kmalloc` granted for the file's size exactly when some block
      of the file cannot be read, or the last block is a hole, or the file is longer than half
      a block, or the grant is whole pages and a block no larger than one. Otherwise the rest
      of the last block lands on what lies behind the buffer. */
  lemma FitsExactlyWhen(disk: seq<Byte>, bs: nat, log: nat, node: Inode, g: Grant)
    requires bs == 1024 * Pow2(log) && IsInode(node) && 0 < node.Size() <= TWO_64 - PAGE_SIZE
    requires Served(node.Size(), g)
    ensures StaysInside(disk, bs, node, Bytes(g)) <==>
            || !Readable(disk, bs, node)
            || Resolve(disk, bs, node, BlocksFor(node.Size(), bs) - 1) == 0
            || 2 * node.Size() > bs
            || (g.InPages? && bs <= PAGE_SIZE)
  {
    hide Resolve, ReadLeaves, StaysInside, Extent;
    GrantFits(disk, bs, log, node, g);
    InsideExactlyWhen(disk, bs, node, Bytes(g));
  }

  /** A read of a file into at least its size stays inside exactly when it fails, or all it
      writes fits. */
  lemma InsideExactlyWhen(disk: seq<Byte>, bs: nat, node: Inode, bytes: nat)
    requires bs >= 4 && IsInode(node) && node.Size() <= bytes
    ensures StaysInside(disk, bs, node, bytes) <==> !Readable(disk, bs, node) || Extent(disk, bs, node) <= bytes
  {
    hide Resolve, ReadLeaves, Readable, Extent;
    if !Readable(disk, bs, node) || Extent(disk, bs, node) <= bytes {
      forall was, now, buf: nat | buf + BlocksFor(node.Size(), bs) * bs <= |was| &&
          ReadLeaves(disk, bs, node, was, now, buf)
        ensures OnlyWithin(was, now, buf, bytes)
      {
        LeavesInside(disk, bs, node, was, now, buf, bytes);
      }
    } else {
      var was, now := Overrun(disk, bs, node, bytes);
      assert !OnlyWithin(was, now, 0, bytes);
    }
  }

  lemma LeavesInside(disk: seq<Byte>, bs: nat, node: Inode, was: seq<Byte>, now: seq<Byte>, buf: nat, bytes: nat)
    requires bs >= 4 && IsInode(node) && node.Size() <= bytes && ReadLeaves(disk, bs, node, was, now, buf)
    requires !Readable(disk, bs, node) || Extent(disk, bs, node) <= bytes
    ensures OnlyWithin(was, now, buf, bytes)
  {
    hide Resolve, HoleOrOnDisk, Splice;
    var k: nat :| StopsAt(disk, bs, node, k) && BlocksRead(disk, bs, node, was, now, buf, k);
    BlocksBound(node.Size(), bs, k);
    forall a: nat | a < |was| && !(buf <= a < buf + bytes) ensures now[a] == was[a] {
      SpliceAt(was, buf, FileBytes(disk, bs, node, Written(disk, bs, node, k)), a);
    }
  }

  /** Memory that a readable file's read changes behind the granted bytes. */
  lemma Overrun(disk: seq<Byte>, bs: nat, node: Inode, bytes: nat) returns (was: seq<Byte>, now: seq<Byte>)
    requires bs >= 4 && IsInode(node) && Readable(disk, bs, node) && Extent(disk, bs, node) > bytes
    ensures |was| == BlocksFor(node.Size(), bs) * bs && ReadLeaves(disk, bs, node, was, now, 0)
    ensures !OnlyWithin(was, now, 0, bytes)
  {
    hide Resolve, HoleOrOnDisk, FileByte;
    var blocks := BlocksFor(node.Size(), bs);
    BlocksBound(node.Size(), bs, blocks);
    var byte: Byte := if FileByte(disk, bs, node, bytes) == 0 then 1 else 0;
    var file := FileBytes(disk, bs, node, Extent(disk, bs, node));
    was := seq(blocks * bs, i => byte);
    now := Splice(was, 0, file);
    SpliceAt(was, 0, file, bytes);
    assert StopsAt(disk, bs, node, blocks) && BlocksRead(disk, bs, node, was, now, 0, blocks);
  }

  /** A regular file of 100 bytes, all of whose pointers are block 1. */
  function SmallFile(): Inode {
    Inode(S_IFREG, 100, seq(BLOCK_SLOTS, i => 1), 0)
  }

  /** Two blocks of 1 KiB, the second full of sevens. */
  function SevensDisk(): (disk: seq<Byte>) {
    seq(2048, i => if i < 1024 then 0 else 7)
  }

  /** A read that overruns: `kmalloc(100)` grants 128 bytes, and the byte behind them becomes 7. */
  method SmallFileOverruns(mem: array<Byte>) returns (r: Option<nat>, n: nat)
    requires mem.Length >= 1024
    modifies mem
    ensures Served(SmallFile().Size(), InSlab(3)) && Bytes(InSlab(3)) == 128
    ensures r == Some(0) && n == 100 && mem[128] == 7
  {
    hide BlockPtr;
    var disk, node := SevensDisk(), SmallFile();
    SmallFileFacts();
    ghost var was := mem[..];
    r, n := ReadInodeData(disk, 1024, node, mem, Some(0));
    SpliceAt(was, 0, FileBytes(disk, 1024, node, 1024), 128);
  }

  lemma SmallFileFacts()
    ensures IsDisk(SevensDisk()) && IsInode(SmallFile()) && SmallFile().Size() == 100 && BlocksFor(100, 1024) == 1
    ensures Readable(SevensDisk(), 1024, SmallFile()) && Extent(SevensDisk(), 1024, SmallFile()) == 1024
    ensures FileByte(SevensDisk(), 1024, SmallFile(), 128) == 7
  {
    assert SmallFile().Kind() == S_IFREG;
    assert Resolve(SevensDisk(), 1024, SmallFile(), 0) == 1;
  }

  lemma GrantFits(disk: seq<Byte>, bs: nat, log: nat, node: Inode, g: Grant)
    requires bs == 1024 * Pow2(log) && IsInode(node) && 0 < node.Size() <= TWO_64 - PAGE_SIZE
    requires Served(node.Size(), g)
    ensures node.Size() <= Bytes(g)
    ensures Extent(disk, bs, node) <= Bytes(g) <==>
            || Resolve(disk, bs, node, BlocksFor(node.Size(), bs) - 1) == 0
            || 2 * node.Size() > bs
            || (g.InPages? && bs <= PAGE_SIZE)
  {
    hide Resolve, Pow2, BlocksFor, IsOrderFor, PagesFor;
    var size := node.Size();
    BlocksBound(size, bs, 0);
    match g {
      case InSlab(c) => ClassFits(size, bs, log, c);
      case InPages(b) =>
        BlockHolds(size, b.order);
        PagesFit(size, bs, log, b.order);
    }
  }

  lemma ClassFits(size: nat, bs: nat, log: nat, c: nat)
    requires bs == 1024 * Pow2(log) && 0 < size && Served(size, InSlab(c))
    ensures BlocksFor(size, bs) * bs <= SLAB_SIZES[c] <==> 2 * size > bs
    ensures size <= SLAB_SIZES[c]
  {
    assert c > 0 ==> SLAB_SIZES[c - 1] < size;
    BlocksBound(size, bs, 0);
    BlocksBound(size, bs, 1);
    MulMonotone(bs, 1, BlocksFor(size, bs));
    if log >= 2 {
      Pow2Monotone(2, log);
      assert Pow2(2) == 4;
    } else {
      assert bs == 1024 || bs == 2048;
      assert BlocksFor(size, bs) == if size <= bs then 1 else 2;
    }
  }

  lemma PagesFit(size: nat, bs: nat, log: nat, o: nat)
    requires bs == 1024 * Pow2(log) && 0 < size <= TWO_64 - PAGE_SIZE && size <= Pow2(o) * PAGE_SIZE
    requires IsOrderFor(o, PagesFor(size))
    ensures BlocksFor(size, bs) * bs <= Pow2(o) * PAGE_SIZE <==> 2 * size > bs || bs <= PAGE_SIZE
  {
    hide BlocksFor, IsOrderFor, PagesFor, Pow2;
    if log <= o + 2 {
      var per := Pow2(o + 2 - log);
      GrantInBlocks(log, o);
      WholeBlocks(size, bs, per);
      LongerThanHalf(size, bs, log, o);
    } else {
      BlockExceedsGrant(log, o);
      OneBlockIsMore(size, bs, Pow2(o) * PAGE_SIZE);
    }
  }

  /** A grant of at least a block is a whole number of blocks. */
  lemma GrantInBlocks(log: nat, o: nat)
    requires log <= o + 2
    ensures 1024 * Pow2(log) * Pow2(o + 2 - log) == Pow2(o) * PAGE_SIZE
  {
    assert Pow2(o + 2) == 4 * Pow2(o);
    Pow2Add(log, o + 2 - log);
    MulAssociates(1024, Pow2(log), Pow2(o + 2 - log));
  }

  lemma BlockExceedsGrant(log: nat, o: nat)
    requires log > o + 2
    ensures 2 * (Pow2(o) * PAGE_SIZE) <= 1024 * Pow2(log) && PAGE_SIZE <= Pow2(o) * PAGE_SIZE
  {
    Pow2Monotone(o + 3, log);
    assert Pow2(o + 2) == 4 * Pow2(o);
    assert Pow2(o + 3) == 2 * Pow2(o + 2);
  }

  lemma WholeBlocks(size: nat, bs: nat, per: nat)
    requires bs > 0 && per > 0 && size <= bs * per
    ensures BlocksFor(size, bs) * bs <= bs * per && bs <= bs * per
  {
    BlocksBound(size, bs, per);
    MulMonotone(bs, BlocksFor(size, bs), per);
    MulMonotone(bs, 1, per);
  }

  lemma OneBlockIsMore(size: nat, bs: nat, bytes: nat)
    requires 0 < size <= bytes && 2 * bytes <= bs && bytes >= PAGE_SIZE
    ensures BlocksFor(size, bs) * bs > bytes && 2 * size <= bs && bs > PAGE_SIZE
  {
    BlocksBound(size, bs, 0);
    MulMonotone(bs, 1, BlocksFor(size, bs));
  }

  lemma LongerThanHalf(size: nat, bs: nat, log: nat, o: nat)
    requires bs == 1024 * Pow2(log) && 0 < size <= TWO_64 - PAGE_SIZE && log <= o + 2
    requires IsOrderFor(o, PagesFor(size)) && bs <= Pow2(o) * PAGE_SIZE
    ensures 2 * size > bs || bs <= PAGE_SIZE
  {
    if log > 2 {
      PagesRound(size);
      assert Pow2(o - 1) < PagesFor(size);
      assert !(size <= Pow2(o - 1) * PAGE_SIZE);
    } else {
      Pow2Monotone(log, 2);
      assert Pow2(2) == 4;
    }
  }
}
