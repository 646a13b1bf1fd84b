/** The ext3 reader's lower half: src/kern/fs/ext3/block.rs, inode.rs and the sizes of
    superblock.rs. A disk is a sequence of bytes, a whole number of sectors; a read that
    passes its end fails. */
module Ext3Inode {
  import opened Prelude
  import opened ByteStrings

  const SECTOR: nat := 512
  const TWO_32: nat := 0x1_0000_0000
  const BLOCK_SLOTS: nat := 15

  const S_IFREG: nat := 0x8000
  const S_IFDIR: nat := 0x4000

  ghost predicate IsDisk(disk: seq<Byte>) {
    |disk| % SECTOR == 0
  }

  // ---------------------------------------------------------------- block.rs

  /** The contract of `ahci::read_sectors`: whole sectors, into the start of the buffer. */
  method ReadSectors(disk: seq<Byte>, lba: nat, count: nat, buf: array<Byte>) returns (ok: bool)
    requires IsDisk(disk) && count * SECTOR <= buf.Length
    modifies buf
    ensures ok == ((lba + count) * SECTOR <= |disk|)
    ensures ok ==> buf[..count * SECTOR] == Part(disk, lba * SECTOR, count * SECTOR)
  {
    if (lba + count) * SECTOR > |disk| {
      return false;
    }
    Copy(buf, 0, Part(disk, lba * SECTOR, count * SECTOR));
    return true;
  }

  /** Any stretch of bytes, read through a sector buffer of its own. */
  method ReadBytes(disk: seq<Byte>, off: nat, mem: array<Byte>, dst: nat, count: nat) returns (ok: bool)
    requires IsDisk(disk) && dst + count <= mem.Length
    modifies mem
    ensures ok == (count == 0 || off + count <= |disk|)
    ensures count > 0 && ok ==> mem[..] == Splice(old(mem[..]), dst, Part(disk, off, count))
    ensures count == 0 || !ok ==> mem[..] == old(mem[..])
  {
    if count == 0 {
      return true;
    }
    var start, inSector := off / SECTOR, off % SECTOR;
    var sectors := (inSector + count + 511) / SECTOR;
    var buf := new Byte[sectors * SECTOR];
    SectorsCover(|disk|, off, count);
    ok := ReadSectors(disk, start, sectors, buf);
    if ok {
      PartOfRead(disk, start * SECTOR, buf[..], sectors * SECTOR, inSector, count);
      Copy(mem, dst, buf[inSector..inSector + count]);
    }
  }

  lemma PartOfRead(disk: seq<Byte>, at: nat, buf: seq<Byte>, n: nat, skip: nat, count: nat)
    requires n <= |buf| && at + n <= |disk| && skip + count <= n && buf[..n] == Part(disk, at, n)
    ensures buf[skip..skip + count] == Part(disk, at + skip, count)
  {
    var x, y := buf[skip..skip + count], Part(disk, at + skip, count);
    forall k | 0 <= k < count ensures x[k] == y[k] {
      assert buf[..n][skip + k] == Part(disk, at, n)[skip + k];
    }
  }

  /** The sectors read cover the bytes wanted, and lie on the disk exactly when those do. */
  lemma SectorsCover(size: nat, off: nat, count: nat)
    requires size % SECTOR == 0 && count > 0
    ensures var start, sectors := off / SECTOR, (off % SECTOR + count + 511) / SECTOR;
            && start * SECTOR + off % SECTOR == off
            && off % SECTOR + count <= sectors * SECTOR
            && ((start + sectors) * SECTOR <= size <==> off + count <= size)
  {
    var start, rest, whole := off / SECTOR, off % SECTOR + count, size / SECTOR;
    var sectors := (rest + 511) / SECTOR;
    assert off == SECTOR * start + off % SECTOR && size == SECTOR * whole;
    assert rest <= SECTOR * sectors < rest + SECTOR;
    assert start + sectors <= whole <==> SECTOR * start + rest <= SECTOR * whole;
  }

  // ---------------------------------------------------------------- superblock.rs

  datatype Superblock = Superblock(logBlockSize: nat, inodesPerGroup: nat, revLevel: nat, inodeSize16: nat) {

    /** 1024 << s_log_block_size. */
    function BlockSize(): nat {
      1024 * Pow2(logBlockSize)
    }

    function InodeSize(): nat {
      if revLevel >= 1 && inodeSize16 > 0 then inodeSize16 else 128
    }
  }

  // ---------------------------------------------------------------- resolve_block

  datatype Inode = Inode(mode: nat, sizeLow: nat, block: seq<nat>, sizeHigh: nat) {

    function Kind(): nat {
      mode / 0x1000 * 0x1000
    }

    predicate IsDir() {
      Kind() == S_IFDIR
    }

    function Size(): nat {
      if Kind() == S_IFREG then sizeLow + sizeHigh * TWO_32 else sizeLow
    }
  }

  predicate IsInode(n: Inode) {
    && |n.block| == BLOCK_SLOTS && n.sizeLow < TWO_32 && n.sizeHigh < TWO_32
    && forall i :: 0 <= i < BLOCK_SLOTS ==> n.block[i] < TWO_32
  }

  /** The high four bits of the mode say what a file is, and the rest does not matter: a
      directory of any permissions is one, and only a regular file has a 64-bit size. */
  lemma ModeDecides(n: Inode)
    requires IsInode(n) && n.mode < 0x1_0000
    ensures n.IsDir() <==> 0x4000 <= n.mode <= 0x4FFF
    ensures n.Size() == if 0x8000 <= n.mode <= 0x8FFF then n.sizeLow + n.sizeHigh * TWO_32 else n.sizeLow
    ensures n.mode == 0x41ED ==> n.IsDir() && n.Size() == n.sizeLow
    ensures n.mode == 0x81A4 ==> !n.IsDir() && n.Size() == n.sizeLow + n.sizeHigh * TWO_32
  {
    DivMod(n.mode / 0x1000, n.mode % 0x1000, 0x1000);
  }

  /** `read_block_ptr`: a read that fails looks like a hole. */
  function BlockPtr(disk: seq<Byte>, bs: nat, blk: nat, index: nat): nat {
    var off := blk * bs + index * 4;
    if off + 4 <= |disk| then Le32(disk, off) else 0
  }

  /** A pointer block as it is written: each pointer in four bytes. */
  ghost function PointerBytes(ptrs: seq<nat>): (s: seq<Byte>)
    ensures |s| == 4 * |ptrs|
  {
    if ptrs == [] then [] else To32(ptrs[0]) + PointerBytes(ptrs[1..])
  }

  /** A pointer block reads back pointer by pointer. */
  lemma PointersReadBack(disk: seq<Byte>, bs: nat, blk: nat, ptrs: seq<nat>, i: nat)
    requires Holds(disk, blk * bs, PointerBytes(ptrs)) && i < |ptrs| && ptrs[i] < TWO_32
    ensures BlockPtr(disk, bs, blk, i) == ptrs[i]
  {
    hide BlockPtr, Le32, Holds, PointerBytes;
    var at := blk * bs;
    PointerAt(disk, at, ptrs, i);
    PointerSpot(disk, bs, blk, i, at);
  }

  lemma PointerSpot(disk: seq<Byte>, bs: nat, blk: nat, i: nat, at: nat)
    requires at == blk * bs
    ensures BlockPtr(disk, bs, blk, i) == if at + 4 * i + 4 <= |disk| then Le32(disk, at + 4 * i) else 0
  {
    hide Le32;
  }

  lemma {:induction false} PointerAt(disk: seq<Byte>, at: nat, ptrs: seq<nat>, i: nat)
    requires Holds(disk, at, PointerBytes(ptrs)) && i < |ptrs| && ptrs[i] < TWO_32
    ensures at + 4 * i + 4 <= |disk| && Le32(disk, at + 4 * i) == ptrs[i]
    decreases i
  {
    hide Le32, To32;
    HoldsSplit(disk, at, To32(ptrs[0]), PointerBytes(ptrs[1..]));
    if i == 0 {
      HoldsPart(disk, at, To32(ptrs[0]), 0, 4);
      assert Part(To32(ptrs[0]), 0, 4) == To32(ptrs[0]);
      FieldIs32(disk, at, ptrs[0]);
    } else {
      PointerAt(disk, at + 4, ptrs[1..], i - 1);
    }
  }

  /** The double-indirect part of `resolve_block`. */
  function ResolveDouble(disk: seq<Byte>, bs: nat, p: nat, blk: nat, l: nat): nat
    requires p > 0
  {
    if blk == 0 then 0
    else
      var ind := BlockPtr(disk, bs, blk, l / p);
      if ind == 0 then 0 else BlockPtr(disk, bs, ind, l % p)
  }

  /** The triple-indirect part; pp is p * p, and not reached when that wraps to 0. */
  function ResolveTriple(disk: seq<Byte>, bs: nat, p: nat, pp: nat, blk: nat, l: nat): nat
    requires p > 0 && pp > 0
  {
    if blk == 0 then 0
    else
      var dbl := BlockPtr(disk, bs, blk, l / pp);
      if dbl == 0 then 0
      else
        var ind := BlockPtr(disk, bs, dbl, l % pp / p);
        if ind == 0 then 0 else BlockPtr(disk, bs, ind, l % pp % p)
  }

  /** `resolve_block`, in the source's 32-bit arithmetic. */
  function Resolve(disk: seq<Byte>, bs: nat, node: Inode, logical: nat): nat
    requires bs >= 4 && IsInode(node)
  {
    var p := bs / 4;
    if logical < 12 then node.block[logical]
    else if logical - 12 < p then
      if node.block[12] == 0 then 0 else BlockPtr(disk, bs, node.block[12], logical - 12)
    else
      var l2 := logical - 12 - p;
      var pp := (p * p) % TWO_32;
      if l2 < pp then ResolveDouble(disk, bs, p, node.block[13], l2)
      else if l2 - pp < (pp * p) % TWO_32 then
        assert pp > 0;
        ResolveTriple(disk, bs, p, pp, node.block[14], l2 - pp)
      else 0
  }

  /** A way down the tree: the pointer to start at, then an index at each level. */
  ghost predicate IsPath(p: nat, path: seq<nat>) {
    && |path| > 0 && path[0] < BLOCK_SLOTS
    && |path| == (if path[0] < 12 then 1 else path[0] - 10)
    && forall i :: 1 <= i < |path| ==> path[i] < p
  }

  /** The number with digits i and j to base p. */
  ghost function Digits(i: nat, p: nat, j: nat): nat {
    i * p + j
  }

  /** The logical block number of a path: direct, single, double and triple blocks in order. */
  ghost function NumberOf(p: nat, path: seq<nat>): nat
    requires IsPath(p, path)
  {
    if path[0] < 12 then path[0]
    else if path[0] == 12 then 12 + path[1]
    else if path[0] == 13 then 12 + p + Digits(path[1], p, path[2])
    else 12 + p + p * p + Digits(Digits(path[1], p, path[2]), p, path[3])
  }

  /** What lies at the end of a way down: a 0 pointer anywhere is a hole. */
  ghost function Follow(disk: seq<Byte>, bs: nat, blk: nat, rest: seq<nat>): nat
    decreases |rest|
  {
    if rest == [] then blk
    else if blk == 0 then 0
    else Follow(disk, bs, BlockPtr(disk, bs, blk, rest[0]), rest[1..])
  }

  /** `resolve_block` looks up the tree: the number of any path leads to that path's block,
      as long as the products the path's range needs fit 32 bits. */
  lemma ResolveFollows(disk: seq<Byte>, bs: nat, node: Inode, path: seq<nat>)
    requires bs >= 4 && IsInode(node) && IsPath(bs / 4, path)
    requires path[0] == 13 ==> (bs / 4) * (bs / 4) < TWO_32
    requires path[0] == 14 ==> (bs / 4) * (bs / 4) * (bs / 4) < TWO_32
    ensures Resolve(disk, bs, node, NumberOf(bs / 4, path)) == Follow(disk, bs, node.block[path[0]], path[1..])
  {
    hide Resolve, Follow, NumberOf;
    var p, rest := bs / 4, path[1..];
    NumberOfTail(p, path, rest);
    if path[0] < 12 {
      FollowsDirect(disk, bs, node, path[0]);
    } else if path[0] == 12 {
      FollowsSingle(disk, bs, node, rest);
    } else if path[0] == 13 {
      FollowsDouble(disk, bs, node, p, rest);
    } else {
      FollowsTriple(disk, bs, node, p, rest, Digits(Digits(rest[0], p, rest[1]), p, rest[2]));
    }
  }

  lemma NumberOfTail(p: nat, path: seq<nat>, rest: seq<nat>)
    requires IsPath(p, path) && rest == path[1..]
    ensures |rest| == (if path[0] < 12 then 0 else path[0] - 11) && forall i :: 0 <= i < |rest| ==> rest[i] < p
    ensures NumberOf(p, path) == if path[0] < 12 then path[0]
                                 else if path[0] == 12 then 12 + rest[0]
                                 else if path[0] == 13 then 12 + p + Digits(rest[0], p, rest[1])
                                 else 12 + p + p * p + Digits(Digits(rest[0], p, rest[1]), p, rest[2])
  {
  }

  lemma FollowsDirect(disk: seq<Byte>, bs: nat, node: Inode, d: nat)
    requires bs >= 4 && IsInode(node) && d < 12
    ensures Resolve(disk, bs, node, d) == node.block[d] == Follow(disk, bs, node.block[d], [])
  {
  }

  lemma FollowsSingle(disk: seq<Byte>, bs: nat, node: Inode, rest: seq<nat>)
    requires bs >= 4 && IsInode(node) && |rest| == 1 && rest[0] < bs / 4
    ensures Resolve(disk, bs, node, 12 + rest[0]) == Follow(disk, bs, node.block[12], rest)
  {
    FollowOne(disk, bs, node.block[12], rest);
  }

  lemma FollowsDouble(disk: seq<Byte>, bs: nat, node: Inode, p: nat, rest: seq<nat>)
    requires bs >= 4 && IsInode(node) && p == bs / 4 && p * p < TWO_32 && |rest| == 2 && rest[0] < p && rest[1] < p
    ensures Resolve(disk, bs, node, 12 + p + Digits(rest[0], p, rest[1])) == Follow(disk, bs, node.block[13], rest)
  {
    DoubleSplit(p, rest[0], rest[1]);
    DoubleAt(disk, bs, node, p, p * p, Digits(rest[0], p, rest[1]));
    FollowTwo(disk, bs, node.block[13], rest);
  }

  lemma FollowsTriple(disk: seq<Byte>, bs: nat, node: Inode, p: nat, rest: seq<nat>, l: nat)
    requires bs >= 4 && IsInode(node) && p == bs / 4 && p * p * p < TWO_32
    requires |rest| == 3 && rest[0] < p && rest[1] < p && rest[2] < p &&
        l == Digits(Digits(rest[0], p, rest[1]), p, rest[2])
    ensures Resolve(disk, bs, node, 12 + p + p * p + l) == Follow(disk, bs, node.block[14], rest)
  {
    TripleSplit(p, rest[0], rest[1], rest[2]);
    MulMonotone(p * p, 1, p);
    TripleAt(disk, bs, node, p, p * p, p * p * p, l);
    TripleIsFollow(disk, bs, p, node.block[14], rest, l);
  }

  /** In the double range, when its product does not wrap. */
  lemma DoubleAt(disk: seq<Byte>, bs: nat, node: Inode, p: nat, pp: nat, l: nat)
    requires bs >= 4 && IsInode(node) && p == bs / 4 && pp == p * p && l < pp < TWO_32
    ensures Resolve(disk, bs, node, 12 + p + l) == ResolveDouble(disk, bs, p, node.block[13], l)
  {
    assert (p * p) % TWO_32 == pp;
  }

  /** In the triple range, when neither product wraps. */
  lemma TripleAt(disk: seq<Byte>, bs: nat, node: Inode, p: nat, pp: nat, ppp: nat, l: nat)
    requires bs >= 4 && IsInode(node) && p == bs / 4 && pp == p * p && ppp == pp * p && 0 < pp < TWO_32 &&
        l < ppp < TWO_32
    ensures Resolve(disk, bs, node, 12 + p + pp + l) == ResolveTriple(disk, bs, p, pp, node.block[14], l)
  {
    assert (p * p) % TWO_32 == pp && (pp * p) % TWO_32 == ppp;
  }

  lemma TripleIsFollow(disk: seq<Byte>, bs: nat, p: nat, blk: nat, rest: seq<nat>, l: nat)
    requires 0 < p && 0 < p * p && |rest| == 3
    requires l / (p * p) == rest[0] && l % (p * p) / p == rest[1] && l % (p * p) % p == rest[2]
    ensures ResolveTriple(disk, bs, p, p * p, blk, l) == Follow(disk, bs, blk, rest)
  {
    FollowThree(disk, bs, blk, rest);
  }

  lemma FollowOne(disk: seq<Byte>, bs: nat, blk: nat, rest: seq<nat>)
    requires |rest| == 1
    ensures Follow(disk, bs, blk, rest) == if blk == 0 then 0 else BlockPtr(disk, bs, blk, rest[0])
  {
    assert rest[1..] == [];
  }

  lemma FollowTwo(disk: seq<Byte>, bs: nat, blk: nat, rest: seq<nat>)
    requires |rest| == 2
    ensures Follow(disk, bs, blk, rest) ==
            if blk == 0 then 0 else
            var ind := BlockPtr(disk, bs, blk, rest[0]);
            if ind == 0 then 0 else BlockPtr(disk, bs, ind, rest[1])
  {
    if blk != 0 {
      FollowOne(disk, bs, BlockPtr(disk, bs, blk, rest[0]), rest[1..]);
    }
  }

  lemma FollowThree(disk: seq<Byte>, bs: nat, blk: nat, rest: seq<nat>)
    requires |rest| == 3
    ensures Follow(disk, bs, blk, rest) ==
            if blk == 0 then 0 else
            var dbl := BlockPtr(disk, bs, blk, rest[0]);
            if dbl == 0 then 0 else
            var ind := BlockPtr(disk, bs, dbl, rest[1]);
            if ind == 0 then 0 else BlockPtr(disk, bs, ind, rest[2])
  {
    if blk != 0 {
      FollowTwo(disk, bs, BlockPtr(disk, bs, blk, rest[0]), rest[1..]);
    }
  }

  lemma DoubleSplit(p: nat, i: nat, j: nat)
    requires i < p && j < p
    ensures Digits(i, p, j) < p * p
    ensures Digits(i, p, j) / p == i && Digits(i, p, j) % p == j
  {
    MulGap(i, p, p);
    DivMod(i, j, p);
  }

  lemma TripleSplit(p: nat, i: nat, j: nat, k: nat)
    requires i < p && j < p && k < p
    ensures var n := Digits(Digits(i, p, j), p, k);
            && 0 < p * p && n < p * p * p && n / (p * p) == i
            && n % (p * p) / p == j && n % (p * p) % p == k
  {
    var pp, low := p * p, Digits(j, p, k);
    DoubleSplit(p, j, k);
    Distribute(i * p, j, p);
    MulAssociates(i, p, p);
    assert Digits(Digits(i, p, j), p, k) == i * pp + low;
    DivMod(i, low, pp);
    MulGap(i, p, pp);
    MulAssociates(p, p, p);
  }

  /** Every number below 12 + p + p^2 + p^3 is the number of exactly one path. */
  lemma PathIsUnique(p: nat, a: seq<nat>, b: seq<nat>)
    requires IsPath(p, a) && IsPath(p, b) && NumberOf(p, a) == NumberOf(p, b)
    ensures a == b
  {
    PathRange(p, a);
    PathRange(p, b);
    assert a[0] == b[0];
    if a[0] == 13 {
      DoubleSplit(p, a[1], a[2]);
      DoubleSplit(p, b[1], b[2]);
    } else if a[0] == 14 {
      TripleSplit(p, a[1], a[2], a[3]);
      TripleSplit(p, b[1], b[2], b[3]);
    }
  }

  /** The four ranges of numbers do not meet. */
  lemma PathRange(p: nat, a: seq<nat>)
    requires IsPath(p, a)
    ensures var n := NumberOf(p, a);
            && n < 12 + p + p * p + p * p * p
            && (a[0] < 12 <==> n < 12) && (a[0] <= 12 <==> n < 12 + p) && (a[0] <= 13 <==> n < 12 + p + p * p)
  {
    if a[0] == 13 {
      DoubleSplit(p, a[1], a[2]);
    } else if a[0] == 14 {
      TripleSplit(p, a[1], a[2], a[3]);
    }
  }

  /** With blocks up to 4 KiB every number fits 32 bits. */
  lemma NumbersFit(p: nat)
    requires p <= 1024
    ensures 12 + p + p * p + p * p * p < TWO_32
  {
    MulMonotone(p, p, 1024);
    MulMonotone(1024, p, 1024);
    MulMonotone(p * p, p, 1024);
  }

  lemma PathExists(p: nat, n: nat) returns (path: seq<nat>)
    requires n < 12 + p + p * p + p * p * p
    ensures IsPath(p, path) && NumberOf(p, path) == n
  {
    if n < 12 {
      path := [n];
    } else if n < 12 + p {
      path := [12, n - 12];
    } else if n < 12 + p + p * p {
      var l := n - 12 - p;
      DivBound(l, p, p);
      path := [13, l / p, l % p];
    } else {
      var l := n - 12 - p - p * p;
      var i, j, k := TripleDigits(p, l);
      path := [14, i, j, k];
    }
  }

  lemma TripleDigits(p: nat, l: nat) returns (i: nat, j: nat, k: nat)
    requires 0 < p && l < p * p * p
    ensures i < p && j < p && k < p && Digits(Digits(i, p, j), p, k) == l
  {
    var pp := p * p;
    MulAssociates(p, p, p);
    MulMonotone(p, 1, p);
    DivBound(l, p, pp);
    var low := l % pp;
    DivBound(low, p, p);
    i, j, k := l / pp, low / p, low % p;
    assert l == i * pp + low && low == j * p + k;
    Distribute(i * p, j, p);
    MulAssociates(i, p, p);
  }

  // ---------------------------------------------------------------- larger blocks

  /** A disk whose block 1 points to itself. */
  ghost function LoopDisk(bs: nat): seq<Byte> {
    seq(2 * bs, i => if i == bs then 1 else 0)
  }

  lemma LoopDiskLoops(bs: nat)
    requires bs >= 4
    ensures BlockPtr(LoopDisk(bs), bs, 1, 0) == 1
  {
  }

  /** Every path that starts at this pointer of the inode is followed to its end. */
  ghost predicate FollowedFrom(bs: nat, slot: nat) {
    forall disk: seq<Byte>, node: Inode, path: seq<nat> ::
      IsInode(node) && IsPath(bs / 4, path) && path[0] == slot && bs >= 4 ==>
        Resolve(disk, bs, node, NumberOf(bs / 4, path)) == Follow(disk, bs, node.block[path[0]], path[1..])
  }

  /** Of the block sizes up to 128 KiB, for which some triple-indirect number fits 32 bits,
      exactly 1, 2 and 4 KiB give the triple-indirect tree its range: beyond, p * p * p is 0
      modulo 2^32 and every such block reads as a hole. */
  lemma TripleExactlyWhen(log: nat)
    requires log <= 7
    ensures FollowedFrom(1024 * Pow2(log), 14) <==> log <= 2
  {
    hide Pow2, FollowedFrom;
    var bs, p := 1024 * Pow2(log), Pow2(log + 8);
    Products(log);
    if log <= 2 {
      SmallPower(3 * log + 24);
      Followed(bs, 14);
    } else {
      SmallPower(2 * log + 16);
      LargePower(3 * log + 24);
      LostTriple(bs, p, p * p);
    }
  }

  /** Of the block sizes the superblock's shift can give, exactly those up to 128 KiB give the
      double-indirect tree its range: beyond, p * p is 0 modulo 2^32. */
  lemma DoubleExactlyWhen(log: nat)
    requires log <= 21
    ensures FollowedFrom(1024 * Pow2(log), 13) <==> log <= 7
  {
    hide Pow2, FollowedFrom;
    var bs, p := 1024 * Pow2(log), Pow2(log + 8);
    Products(log);
    if log <= 7 {
      SmallPower(2 * log + 16);
      Followed(bs, 13);
    } else {
      LargePower(2 * log + 16);
      LostDouble(bs, p);
    }
  }

  /** A block holds a power of two pointers. */
  lemma Products(log: nat)
    ensures var p := Pow2(log + 8);
            && 1024 * Pow2(log) >= 4 && (1024 * Pow2(log)) / 4 == p
            && p * p == Pow2(2 * log + 16) && p * p * p == Pow2(3 * log + 24)
  {
    assert Pow2(8) == 256;
    hide Pow2;
    Pow2Add(log, 8);
    Pow2Add(log + 8, log + 8);
    Pow2Add(2 * log + 16, log + 8);
  }

  lemma PowerOf32()
    ensures Pow2(32) == TWO_32
  {
    assert Pow2(8) == 0x100;
    Pow2Add(8, 8);
    Pow2Add(16, 16);
  }

  lemma SmallPower(e: nat)
    requires e < 32
    ensures Pow2(e) < TWO_32
  {
    PowerOf32();
    Pow2Monotone(e + 1, 32);
  }

  lemma LargePower(e: nat)
    requires e >= 32
    ensures Pow2(e) % TWO_32 == 0
  {
    PowerOf32();
    Pow2Add(e - 32, 32);
    ModMultiple(0, Pow2(e - 32), TWO_32);
  }

  lemma Followed(bs: nat, slot: nat)
    requires bs >= 4 && slot < BLOCK_SLOTS
    requires slot == 13 ==> (bs / 4) * (bs / 4) < TWO_32
    requires slot == 14 ==> (bs / 4) * (bs / 4) * (bs / 4) < TWO_32
    ensures FollowedFrom(bs, slot)
  {
    forall disk: seq<Byte>, node: Inode, path: seq<nat> | IsInode(node) && IsPath(bs / 4, path) && path[0] == slot
      ensures Resolve(disk, bs, node, NumberOf(bs / 4, path)) == Follow(disk, bs, node.block[path[0]], path[1..])
    {
      ResolveFollows(disk, bs, node, path);
    }
  }

  /** An inode all of whose pointers are block 1. */
  function OnesNode(): Inode {
    Inode(0, 0, seq(BLOCK_SLOTS, i => 1), 0)
  }

  lemma FirstOf(p: nat)
    requires p > 0
    ensures NumberOf(p, [13, 0, 0]) == 12 + p && NumberOf(p, [14, 0, 0, 0]) == 12 + p + p * p
  {
    assert Digits(0, p, 0) == 0;
  }

  lemma LostTriple(bs: nat, p: nat, pp: nat)
    requires bs >= 4 && p == bs / 4 > 0 && pp == p * p && 0 < pp < TWO_32 && (pp * p) % TWO_32 == 0
    ensures !FollowedFrom(bs, 14)
  {
    hide Resolve, NumberOf, Follow, BlockPtr;
    var disk, path: seq<nat> := LoopDisk(bs), [14, 0, 0, 0];
    LoopDiskLoops(bs);
    FollowThree(disk, bs, 1, path[1..]);
    FirstOf(p);
    NothingBeyond(disk, bs, OnesNode(), p, pp);
    assert IsPath(p, path) && Follow(disk, bs, OnesNode().block[14], path[1..]) == 1;
  }

  lemma NothingBeyond(disk: seq<Byte>, bs: nat, node: Inode, p: nat, pp: nat)
    requires IsInode(node) && bs >= 4 && p == bs / 4 && pp == p * p && pp < TWO_32 && (pp * p) % TWO_32 == 0
    ensures Resolve(disk, bs, node, 12 + p + pp) == 0
  {
    assert (p * p) % TWO_32 == pp;
  }

  lemma LostDouble(bs: nat, p: nat)
    requires bs >= 4 && p == bs / 4 > 0 && (p * p) % TWO_32 == 0
    ensures !FollowedFrom(bs, 13)
  {
    hide Resolve, NumberOf, Follow, BlockPtr;
    var disk, path: seq<nat> := LoopDisk(bs), [13, 0, 0];
    LoopDiskLoops(bs);
    FollowTwo(disk, bs, 1, path[1..]);
    FirstOf(p);
    NoDouble(disk, bs, OnesNode(), p);
    assert IsPath(p, path) && Follow(disk, bs, OnesNode().block[13], path[1..]) == 1;
  }

  lemma NoDouble(disk: seq<Byte>, bs: nat, node: Inode, p: nat)
    requires IsInode(node) && bs >= 4 && p == bs / 4 && (p * p) % TWO_32 == 0
    ensures Resolve(disk, bs, node, 12 + p) == 0
  {
  }

  /** Reading into a zeroed buffer of the given size. */
  method ReadNew(disk: seq<Byte>, off: nat, count: nat, size: nat) returns (r: Option<seq<Byte>>)
    requires IsDisk(disk) && 0 < count <= size
    ensures r == if off + count <= |disk| then Some(Part(disk, off, count) + Zeros(size - count)) else None
  {
    var buf := new Byte[size](i => 0);
    assert buf[..] == Zeros(size);
    var ok := ReadBytes(disk, off, buf, 0, count);
    if !ok {
      return None;
    }
    SpliceZeros(Part(disk, off, count), size);
    return Some(buf[..]);
  }

  /** `read_block_ptr`. */
  method ReadBlockPtr(disk: seq<Byte>, bs: nat, blk: nat, index: nat) returns (r: nat)
    requires IsDisk(disk)
    ensures r == BlockPtr(disk, bs, blk, index)
  {
    var val := ReadNew(disk, blk * bs + index * 4, 4, 4);
    if val.None? {
      return 0;
    }
    return Le32(val.value, 0);
  }

  // ---------------------------------------------------------------- read_inode_data

  function BlocksFor(size: nat, bs: nat): nat
    requires bs > 0
  {
    (size + bs - 1) / bs
  }

  predicate BlockOnDisk(disk: seq<Byte>, bs: nat, blk: nat) {
    blk * bs + bs <= |disk|
  }

  predicate HoleOrOnDisk(disk: seq<Byte>, bs: nat, node: Inode, k: nat)
    requires bs >= 4 && IsInode(node)
  {
    var blk := Resolve(disk, bs, node, k);
    blk == 0 || BlockOnDisk(disk, bs, blk)
  }

  /** The first k blocks of the file are holes or can be read. */
  predicate ReadableTo(disk: seq<Byte>, bs: nat, node: Inode, k: nat)
    requires bs >= 4 && IsInode(node)
  {
    forall j: nat :: j < k ==> HoleOrOnDisk(disk, bs, node, j)
  }

  predicate Readable(disk: seq<Byte>, bs: nat, node: Inode)
    requires bs >= 4 && IsInode(node)
  {
    ReadableTo(disk, bs, node, BlocksFor(node.Size(), bs))
  }

  lemma ReadableStep(disk: seq<Byte>, bs: nat, node: Inode, k: nat)
    requires bs >= 4 && IsInode(node) && ReadableTo(disk, bs, node, k) && k < BlocksFor(node.Size(), bs)
    ensures HoleOrOnDisk(disk, bs, node, k) ==> ReadableTo(disk, bs, node, k + 1)
    ensures !HoleOrOnDisk(disk, bs, node, k) ==> !Readable(disk, bs, node)
  {
  }

  /** The abstract file: each byte comes from the block its number resolves to, 0 in a hole.
      It is defined past the end of the file, up to the end of the last block. */
  function FileByte(disk: seq<Byte>, bs: nat, node: Inode, i: nat): Byte
    requires bs >= 4 && IsInode(node)
  {
    var blk := Resolve(disk, bs, node, i / bs);
    if blk != 0 && BlockOnDisk(disk, bs, blk) then disk[blk * bs + i % bs] else 0
  }

  function FileBytes(disk: seq<Byte>, bs: nat, node: Inode, n: nat): (s: seq<Byte>)
    requires bs >= 4 && IsInode(node)
    ensures |s| == n
  {
    seq(n, i requires i >= 0 => FileByte(disk, bs, node, i))
  }

  /** How many bytes `read_inode_data` writes: a mapped last block is read whole. */
  function Extent(disk: seq<Byte>, bs: nat, node: Inode): nat
    requires bs >= 4 && IsInode(node)
  {
    var blocks := BlocksFor(node.Size(), bs);
    if blocks > 0 && Resolve(disk, bs, node, blocks - 1) != 0 then blocks * bs else node.Size()
  }

  /** What the first k rounds have written. */
  ghost function Written(disk: seq<Byte>, bs: nat, node: Inode, k: nat): nat
    requires bs >= 4 && IsInode(node)
  {
    if k < BlocksFor(node.Size(), bs) then k * bs else Extent(disk, bs, node)
  }

  /** One round's bytes. */
  function Chunk(disk: seq<Byte>, bs: nat, node: Inode, k: nat): seq<Byte>
    requires bs >= 4 && IsInode(node) && k * bs <= node.Size()
    requires HoleOrOnDisk(disk, bs, node, k)
  {
    var blk := Resolve(disk, bs, node, k);
    var left := node.Size() - k * bs;
    if blk == 0 then Zeros(if left < bs then left else bs) else Part(disk, blk * bs, bs)
  }

  lemma BlocksBound(size: nat, bs: nat, k: nat)
    requires bs > 0
    ensures var n := BlocksFor(size, bs);
            && size <= n * bs < size + bs && (k < n <==> k * bs < size) && (k + 1 < n ==> k * bs + bs < size)
  {
    var n := BlocksFor(size, bs);
    assert n * bs <= size + bs - 1 < n * bs + bs;
    if k < n {
      MulGap(k, n, bs);
      if k + 1 < n {
        MulGap(k + 1, n, bs);
        Distribute(k, 1, bs);
      }
    } else {
      MulMonotone(bs, n, k);
    }
  }

  lemma ChunkBytes(disk: seq<Byte>, bs: nat, node: Inode, k: nat, i: nat)
    requires bs >= 4 && IsInode(node) && k * bs <= node.Size()
    requires HoleOrOnDisk(disk, bs, node, k)
    requires i < |Chunk(disk, bs, node, k)|
    ensures i < bs && Chunk(disk, bs, node, k)[i] == FileByte(disk, bs, node, k * bs + i)
  {
    hide Resolve;
    DivMod(k, i, bs);
    BlockByte(disk, bs, node, k, Resolve(disk, bs, node, k), i, k * bs + i);
  }

  /** A byte of the file, by its block and its place in the block. */
  lemma BlockByte(disk: seq<Byte>, bs: nat, node: Inode, k: nat, blk: nat, i: nat, at: nat)
    requires bs >= 4 && IsInode(node) && at / bs == k && at % bs == i < bs
    requires blk == Resolve(disk, bs, node, k) && (blk == 0 || BlockOnDisk(disk, bs, blk))
    ensures FileByte(disk, bs, node, at) == if blk == 0 then 0 else Part(disk, blk * bs, bs)[i]
  {
    hide Resolve;
  }

  lemma ChunkLength(disk: seq<Byte>, bs: nat, node: Inode, k: nat)
    requires bs >= 4 && IsInode(node) && k < BlocksFor(node.Size(), bs)
    requires HoleOrOnDisk(disk, bs, node, k)
    ensures Written(disk, bs, node, k) == k * bs <= node.Size()
    ensures k * bs + |Chunk(disk, bs, node, k)| == Written(disk, bs, node, k + 1)
  {
    var n, size, at := BlocksFor(node.Size(), bs), node.Size(), k * bs;
    BlocksBound(size, bs, k);
    assert (k + 1) * bs == at + bs;
    if k + 1 < n {
      assert Written(disk, bs, node, k + 1) == at + bs && at + bs < size;
    } else {
      assert k + 1 == n && n * bs == at + bs >= size;
      assert Written(disk, bs, node, k + 1) == if Resolve(disk, bs, node, k) != 0 then at + bs else size;
    }
  }

  lemma ChunkIsFile(disk: seq<Byte>, bs: nat, node: Inode, k: nat)
    requires bs >= 4 && IsInode(node) && k < BlocksFor(node.Size(), bs) && k * bs <= node.Size()
    requires HoleOrOnDisk(disk, bs, node, k)
    ensures FileBytes(disk, bs, node, k * bs) + Chunk(disk, bs, node, k)
            == FileBytes(disk, bs, node, Written(disk, bs, node, k + 1))
  {
    ChunkLength(disk, bs, node, k);
    var c := Chunk(disk, bs, node, k);
    forall i: nat | i < |c| ensures c[i] == FileByte(disk, bs, node, k * bs + i) {
      ChunkBytes(disk, bs, node, k, i);
    }
    FileSplit(disk, bs, node, k * bs, c);
  }

  lemma FileSplit(disk: seq<Byte>, bs: nat, node: Inode, n: nat, c: seq<Byte>)
    requires bs >= 4 && IsInode(node)
    requires forall i: nat :: i < |c| ==> c[i] == FileByte(disk, bs, node, n + i)
    ensures FileBytes(disk, bs, node, n) + c == FileBytes(disk, bs, node, n + |c|)
  {
    var x, y := FileBytes(disk, bs, node, n) + c, FileBytes(disk, bs, node, n + |c|);
    forall j: nat | j < n + |c| ensures x[j] == y[j] {
      if j >= n {
        assert x[j] == c[j - n];
      }
    }
  }

  /** Memory is as it was but for n bytes from at on. */
  ghost predicate OnlyWithin(m: seq<Byte>, m': seq<Byte>, at: nat, n: nat) {
    |m| == |m'| && forall a :: 0 <= a < |m| && !(at <= a < at + n) ==> m'[a] == m[a]
  }

  /** The rounds before this one have read the first k blocks. */
  ghost predicate BlocksRead(disk: seq<Byte>, bs: nat, node: Inode, m: seq<Byte>, m': seq<Byte>, buf: nat, k: nat)
    requires bs >= 4 && IsInode(node)
  {
    var n := Written(disk, bs, node, k);
    buf + n <= |m| && m' == Splice(m, buf, FileBytes(disk, bs, node, n))
  }

  /** The first k blocks are holes or on the disk, and block k, if there is one, is neither. */
  ghost predicate StopsAt(disk: seq<Byte>, bs: nat, node: Inode, k: nat)
    requires bs >= 4 && IsInode(node)
  {
    && k <= BlocksFor(node.Size(), bs) && ReadableTo(disk, bs, node, k)
    && (k < BlocksFor(node.Size(), bs) ==> !HoleOrOnDisk(disk, bs, node, k))
  }

  /** What a read into the buffer at buf makes of the memory was: the blocks up to the first
      that cannot be read are in the buffer. */
  ghost predicate ReadLeaves(disk: seq<Byte>, bs: nat, node: Inode, was: seq<Byte>, now: seq<Byte>, buf: nat)
    requires bs >= 4 && IsInode(node)
  {
    exists k: nat :: StopsAt(disk, bs, node, k) && BlocksRead(disk, bs, node, was, now, buf, k)
  }

  /** Nothing is read of an empty file. */
  lemma EmptyRead(disk: seq<Byte>, bs: nat, node: Inode, m: seq<Byte>, buf: nat)
    requires bs >= 4 && IsInode(node) && buf <= |m|
    ensures node.Size() == 0 ==> ReadLeaves(disk, bs, node, m, m, buf)
  {
    if node.Size() == 0 {
      BlocksBound(0, bs, 0);
      assert Splice(m, buf, FileBytes(disk, bs, node, 0)) == m;
      assert StopsAt(disk, bs, node, 0) && BlocksRead(disk, bs, node, m, m, buf, 0);
    }
  }

  lemma NextBlockRead(disk: seq<Byte>, bs: nat, node: Inode, m: seq<Byte>, m1: seq<Byte>, m2: seq<Byte>, buf: nat,
      k: nat)
    requires bs >= 4 && IsInode(node) && k < BlocksFor(node.Size(), bs) && k * bs <= node.Size()
    requires HoleOrOnDisk(disk, bs, node, k)
    requires BlocksRead(disk, bs, node, m, m1, buf, k) && buf + k * bs + |Chunk(disk, bs, node, k)| <= |m|
    requires m2 == Splice(m1, buf + k * bs, Chunk(disk, bs, node, k))
    ensures BlocksRead(disk, bs, node, m, m2, buf, k + 1)
  {
    ChunkLength(disk, bs, node, k);
    ChunkIsFile(disk, bs, node, k);
    SpliceTwice(m, buf, FileBytes(disk, bs, node, k * bs), Chunk(disk, bs, node, k));
  }

  lemma LastBlockRead(disk: seq<Byte>, bs: nat, node: Inode, m: seq<Byte>, m': seq<Byte>, buf: nat, k: nat)
    requires bs >= 4 && IsInode(node) && k <= BlocksFor(node.Size(), bs)
    requires BlocksRead(disk, bs, node, m, m', buf, k)
    ensures k == BlocksFor(node.Size(), bs) ==> (Extent(disk, bs, node) <= BlocksFor(node.Size(), bs) * bs
      && buf + Extent(disk, bs, node) <= |m| && m' == Splice(m, buf, FileBytes(disk, bs, node, Extent(disk, bs, node))))
    ensures k < BlocksFor(node.Size(), bs) ==> OnlyWithin(m, m', buf, node.Size())
  {
    BlocksBound(node.Size(), bs, k);
  }

  /** One round of the loop: a hole is zeroed up to the end of the file, a mapped block is
      read whole. */
  method ReadOneBlock(disk: seq<Byte>, bs: nat, node: Inode, k: nat, mem: array<Byte>, at: nat, bytesLeft: nat)
    returns (ok: bool, chunk: nat)
    requires IsDisk(disk) && bs >= 4 && IsInode(node)
    requires k * bs + bytesLeft == node.Size() && bytesLeft > 0 && at + bs <= mem.Length
    modifies mem
    ensures ok <==> HoleOrOnDisk(disk, bs, node, k)
    ensures ok ==> |Chunk(disk, bs, node, k)| <= bs && mem[..] == Splice(old(mem[..]), at, Chunk(disk, bs, node, k))
    ensures !ok ==> mem[..] == old(mem[..])
    ensures chunk == if bytesLeft < bs then bytesLeft else bs
  {
    hide Resolve;
    var phys := Resolve(disk, bs, node, k);
    chunk := if bytesLeft < bs then bytesLeft else bs;
    ok := true;
    if phys == 0 {
      Copy(mem, at, Zeros(chunk));
    } else {
      ok := ReadBytes(disk, phys * bs, mem, at, bs);
    }
  }

  /** One round, and what it leaves. */
  method ReadNextBlock(disk: seq<Byte>, bs: nat, node: Inode, mem: array<Byte>, ghost was: seq<Byte>,
      buf: nat, k: nat, off: nat, bytesLeft: nat)
    returns (ok: bool, chunk: nat)
    requires IsDisk(disk) && bs >= 4 && IsInode(node) && k < BlocksFor(node.Size(), bs)
    requires off == k * bs && off + bytesLeft == node.Size() && |was| == mem.Length &&
        buf + BlocksFor(node.Size(), bs) * bs <= mem.Length
    requires ReadableTo(disk, bs, node, k) && BlocksRead(disk, bs, node, was, mem[..], buf, k)
    modifies mem
    ensures ok ==> ReadableTo(disk, bs, node, k + 1) && BlocksRead(disk, bs, node, was, mem[..], buf, k + 1)
    ensures !ok ==> !Readable(disk, bs, node) && StopsAt(disk, bs, node, k)
    ensures !ok ==> BlocksRead(disk, bs, node, was, mem[..], buf, k)
    ensures chunk <= bytesLeft && (k + 1 < BlocksFor(node.Size(), bs) ==> off + chunk == (k + 1) * bs)
  {
    hide Resolve, Splice, Chunk;
    BlocksBound(node.Size(), bs, k);
    MulGap(k, BlocksFor(node.Size(), bs), bs);
    ReadableStep(disk, bs, node, k);
    ok, chunk := ReadOneBlock(disk, bs, node, k, mem, buf + off, bytesLeft);
    if ok {
      NextBlockRead(disk, bs, node, was, old(mem[..]), mem[..], buf, k);
    }
  }

  /** The loop of `read_inode_data`; read is the number of blocks that went well. */
  method ReadBlocks(disk: seq<Byte>, bs: nat, node: Inode, mem: array<Byte>, buf: nat)
    returns (ghost read: nat, ok: bool)
    requires IsDisk(disk) && bs >= 4 && IsInode(node)
    requires buf + BlocksFor(node.Size(), bs) * bs <= mem.Length
    modifies mem
    ensures read <= BlocksFor(node.Size(), bs) && (ok <==> read == BlocksFor(node.Size(), bs))
    ensures ok <==> Readable(disk, bs, node)
    ensures StopsAt(disk, bs, node, read) && BlocksRead(disk, bs, node, old(mem[..]), mem[..], buf, read)
  {
    var blocks, bytesLeft, off := BlocksFor(node.Size(), bs), node.Size(), 0;
    read := 0;
    for k := 0 to blocks
      invariant read == k && bytesLeft + off == node.Size() && (k < blocks ==> off == k * bs)
      invariant ReadableTo(disk, bs, node, k)
      invariant BlocksRead(disk, bs, node, old(mem[..]), mem[..], buf, k)
    {
      var chunk;
      ok, chunk := ReadNextBlock(disk, bs, node, mem, old(mem[..]), buf, k, off, bytesLeft);
      if !ok {
        return;
      }
      off, bytesLeft, read := off + chunk, bytesLeft - chunk, k + 1;
    }
    ok := true;
  }

  /** `read_inode_data`: buf is what `kmalloc(size)` returned. The block counter is cast to
      32 bits, which loses nothing for files of at most 2^32 blocks. The memory holds the
      file from buf on, and everything outside the extent is as it was. */
  method ReadInodeData(disk: seq<Byte>, bs: nat, node: Inode, mem: array<Byte>, buf: Option<nat>)
    returns (r: Option<nat>, n: nat)
    requires IsDisk(disk) && bs >= 4 && IsInode(node) && BlocksFor(node.Size(), bs) <= TWO_32
    requires buf.Some? ==> buf.value + BlocksFor(node.Size(), bs) * bs <= mem.Length
    modifies mem
    ensures r.Some? <==> node.Size() > 0 && buf.Some? && Readable(disk, bs, node)
    ensures r.Some? ==> r == buf && n == node.Size() && Extent(disk, bs, node) <= BlocksFor(node.Size(), bs) * bs
    ensures r.Some? ==> mem[..] == Splice(old(mem[..]), buf.value, FileBytes(disk, bs, node, Extent(disk, bs, node)))
    ensures r.None? ==> n == 0 && OnlyWithin(old(mem[..]), mem[..], buf.GetOr(0), if buf.Some? then node.Size() else 0)
    ensures buf.Some? ==> ReadLeaves(disk, bs, node, old(mem[..]), mem[..], buf.value)
  {
    if node.Size() == 0 || buf.None? {
      if buf.Some? {
        EmptyRead(disk, bs, node, mem[..], buf.value);
      }
      return None, 0;
    }
    ghost var read;
    var ok;
    read, ok := ReadBlocks(disk, bs, node, mem, buf.value);
    LastBlockRead(disk, bs, node, old(mem[..]), mem[..], buf.value, read);
    if !ok {
      return None, 0;
    }
    return buf, node.Size();
  }
}
