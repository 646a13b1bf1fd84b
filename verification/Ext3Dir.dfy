/** The ext3 reader's upper half: `read_inode` of src/kern/fs/ext3/inode.rs, and directories
    and paths, src/kern/fs/ext3/dir.rs. */
module Ext3Dir {
  import opened Prelude
  import opened ByteStrings
  import opened Ext3Inode

  // ---------------------------------------------------------------- read_inode

  function Spot(table: nat, bs: nat, index: nat, size: nat): nat {
    table * bs + index * size
  }

  /** Where a group's descriptor lies: the table is in the block after the superblock's. */
  function DescriptorSpot(bs: nat, group: nat): nat {
    (if bs == 1024 then 2 else 1) * bs + group * 32
  }

  /** Where on the disk an inode lies, by its group's descriptor; nothing if that cannot be read. */
  function InodeSpot(disk: seq<Byte>, sb: Superblock, ino: nat): Option<nat>
    requires sb.inodesPerGroup > 0 && ino > 0
  {
    var bs, group, index := sb.BlockSize(), (ino - 1) / sb.inodesPerGroup, (ino - 1) % sb.inodesPerGroup;
    var bgd := DescriptorSpot(bs, group);
    if bgd + 32 > |disk| then None else Some(Spot(Le32(disk, bgd + 8), bs, index, sb.InodeSize()))
  }

  /** The fields of an inode, from the bytes of its record. */
  function Decode(raw: seq<Byte>): (n: Inode)
    requires |raw| >= 128
    ensures IsInode(n)
  {
    Inode(Le16(raw, 0), Le32(raw, 4), seq(BLOCK_SLOTS, i requires 0 <= i < BLOCK_SLOTS => Le32(raw, 40 + 4 * i)),
        Le32(raw, 108))
  }

  /** The bytes hold an inode with these fields, each written in its place; the others are free. */
  ghost predicate RecordIsInode(raw: seq<Byte>, n: Inode)
    requires |raw| >= 128 && IsInode(n)
  {
    && n.mode < 0x1_0000 && Part(raw, 0, 2) == To16(n.mode)
    && Part(raw, 4, 4) == To32(n.sizeLow) && Part(raw, 108, 4) == To32(n.sizeHigh)
    && forall i :: 0 <= i < BLOCK_SLOTS ==> Part(raw, 40 + 4 * i, 4) == To32(n.block[i])
  }

  /** The inode read is the one that was written there, and no other. */
  lemma DecodeExactlyWhen(raw: seq<Byte>, n: Inode)
    requires |raw| >= 128 && IsInode(n)
    ensures Decode(raw) == n <==> RecordIsInode(raw, n)
  {
    To16OfLe(raw, 0);
    To32OfLe(raw, 4);
    To32OfLe(raw, 108);
    forall i | 0 <= i < BLOCK_SLOTS ensures To32(Le32(raw, 40 + 4 * i)) == Part(raw, 40 + 4 * i, 4) {
      To32OfLe(raw, 40 + 4 * i);
    }
    if RecordIsInode(raw, n) {
      FieldIs16(raw, 0, n.mode);
      FieldIs32(raw, 4, n.sizeLow);
      FieldIs32(raw, 108, n.sizeHigh);
      forall i | 0 <= i < BLOCK_SLOTS ensures Le32(raw, 40 + 4 * i) == n.block[i] {
        FieldIs32(raw, 40 + 4 * i, n.block[i]);
      }
      assert Decode(raw).block == n.block;
    }
  }

  /** Two inodes of one group have records that do not overlap. */
  lemma SameGroupApart(disk: seq<Byte>, sb: Superblock, a: nat, b: nat)
    requires sb.inodesPerGroup > 0 && 0 < a < b && (a - 1) / sb.inodesPerGroup == (b - 1) / sb.inodesPerGroup
    requires InodeSpot(disk, sb, a).Some?
    ensures InodeSpot(disk, sb, b).Some?
    ensures InodeSpot(disk, sb, a).value + sb.InodeSize() <= InodeSpot(disk, sb, b).value
  {
    var per := sb.inodesPerGroup;
    assert (b - 1) % per - (a - 1) % per == b - a;
    MulGap((a - 1) % per, (b - 1) % per, sb.InodeSize());
  }

  function InodeAt(disk: seq<Byte>, sb: Superblock, ino: nat): (r: Option<Inode>)
    requires sb.inodesPerGroup > 0
    ensures r.Some? ==> IsInode(r.value)
  {
    if ino == 0 then None
    else
      match InodeSpot(disk, sb, ino)
      case None => None
      case Some(at) =>
        var n := sb.InodeSize();
        if at + n > |disk| then None
        else Some(Decode(Part(disk, at, n) + Zeros(if n > 128 then 0 else 128 - n)))
  }

  /** The superblock lies 1024 bytes into the disk; this is the end of its block. */
  ghost function TableStart(sb: Superblock): nat {
    var bs := 1024 * Pow2(sb.logBlockSize);
    if sb.logBlockSize == 0 then bs + bs else bs
  }

  lemma TableStartIs(sb: Superblock)
    ensures TableStart(sb) == DescriptorSpot(sb.BlockSize(), 0)
  {
    if sb.logBlockSize > 0 {
      assert Pow2(sb.logBlockSize) >= 2;
    }
  }

  /** The size of a record: 128 bytes, or what the superblock of a later revision says. */
  ghost function RecordSize(sb: Superblock): nat {
    match sb.revLevel
    case 0 => 128
    case _ => if sb.inodeSize16 == 0 then 128 else sb.inodeSize16
  }

  /** The bytes from at on are a record of this size with the inode n. */
  ghost predicate HoldsInode(disk: seq<Byte>, at: nat, size: nat, n: Inode) {
    at + size <= |disk| && size >= 128 && IsInode(n) && RecordIsInode(Part(disk, at, size), n)
  }

  /** The descriptor of this group, 32 bytes in the table behind the superblock's block, names
      the first block of the group's inode table at its byte 8. */
  ghost predicate HoldsDescriptor(disk: seq<Byte>, sb: Superblock, group: nat, table: nat) {
    var bgd := TableStart(sb) + 32 * group;
    bgd + 32 <= |disk| && table < TWO_32 && Part(disk, bgd + 8, 4) == To32(table)
  }

  /** Inode `index` of a group reads back from the group's table, which holds the records one
      after the other. */
  lemma InodeReadsBack(disk: seq<Byte>, sb: Superblock, group: nat, index: nat, table: nat, at: nat, n: Inode, ino: nat)
    requires index < sb.inodesPerGroup && ino == group * sb.inodesPerGroup + index + 1
    requires HoldsDescriptor(disk, sb, group, table)
    requires at == table * (1024 * Pow2(sb.logBlockSize)) + index * RecordSize(sb)
    requires HoldsInode(disk, at, RecordSize(sb), n)
    ensures InodeAt(disk, sb, ino) == Some(n)
  {
    hide RecordIsInode, Decode, Pow2, Le32, To32;
    var raw, bgd := Part(disk, at, RecordSize(sb)), TableStart(sb) + 32 * group;
    DivMod(group, index, sb.inodesPerGroup);
    TableStartIs(sb);
    FieldIs32(disk, bgd + 8, table);
    assert InodeSpot(disk, sb, ino) == Some(at);
    DecodeExactlyWhen(raw, n);
    assert raw + Zeros(0) == raw;
  }

  /** The first half of `read_inode`, through the group descriptor. */
  method FindInode(disk: seq<Byte>, sb: Superblock, ino: nat) returns (r: Option<nat>)
    requires IsDisk(disk) && sb.inodesPerGroup > 0 && ino > 0
    ensures r == InodeSpot(disk, sb, ino)
  {
    hide Le32, Spot, DescriptorSpot;
    var bs := sb.BlockSize();
    var group, index := (ino - 1) / sb.inodesPerGroup, (ino - 1) % sb.inodesPerGroup;
    var bgdOff := DescriptorSpot(bs, group);
    var bgd := ReadNew(disk, bgdOff, 32, 32);
    if bgd.None? {
      return None;
    }
    DescriptorField(disk, bgdOff);
    return Some(Spot(Le32(bgd.value, 8), bs, index, sb.InodeSize()));
  }

  lemma DescriptorField(disk: seq<Byte>, off: nat)
    requires off + 32 <= |disk|
    ensures Le32(Part(disk, off, 32) + Zeros(0), 8) == Le32(disk, off + 8)
  {
    FieldOfPart(disk, off, 32, Part(disk, off, 32) + Zeros(0), 8);
  }

  /** `read_inode`, its buffers allocated: the record, behind it zeros up to 128 bytes. */
  method ReadInode(disk: seq<Byte>, sb: Superblock, ino: nat) returns (r: Option<Inode>)
    requires IsDisk(disk) && sb.inodesPerGroup > 0
    ensures r == InodeAt(disk, sb, ino)
  {
    if ino == 0 {
      return None;
    }
    var at := FindInode(disk, sb, ino);
    if at.None? {
      return None;
    }
    var n := sb.InodeSize();
    var raw := ReadNew(disk, at.value, n, if n > 128 then n else 128);
    return if raw.Some? then Some(Decode(raw.value)) else None;
  }

  // ---------------------------------------------------------------- directory data

  datatype Entry = Entry(name: seq<Byte>, inode: nat, kind: Byte)

  const NAME_MAX: nat := 255

  function RecLen(mem: seq<Byte>, off: nat): nat
    requires off + 8 <= |mem|
  {
    Le16(mem, off + 4)
  }

  /** The entry at off. Its name may run past the directory's end, but not past NAME_MAX
      bytes behind it, so that much memory is taken to be there. */
  function EntryAt(mem: seq<Byte>, off: nat): Entry
    requires off + 8 + NAME_MAX <= |mem|
  {
    Entry(Part(mem, off + 8, mem[off + 6]), Le32(mem, off), mem[off + 7])
  }

  /** The calls `for_each_entry` makes, in order, for a directory in the first size bytes. */
  function Listing(mem: seq<Byte>, size: nat, off: nat): seq<Entry>
    requires size + NAME_MAX <= |mem|
    decreases if off <= size then size - off else 0
  {
    if off + 8 > size || RecLen(mem, off) == 0 then []
    else (if EntryAt(mem, off).inode != 0 then [EntryAt(mem, off)] else []) + Listing(mem, size, off + RecLen(mem, off))
  }

  lemma ListingStep(mem: seq<Byte>, size: nat, off: nat)
    requires size + NAME_MAX <= |mem| && off + 8 <= size && RecLen(mem, off) != 0
    ensures var e, rest := EntryAt(mem, off), Listing(mem, size, off + RecLen(mem, off));
            Listing(mem, size, off) == if e.inode != 0 then [e] + rest else rest
  {
  }

  lemma ListingEnd(mem: seq<Byte>, size: nat, off: nat)
    requires size + NAME_MAX <= |mem| && (off + 8 > size || RecLen(mem, off) == 0)
    ensures Listing(mem, size, off) == []
  {
  }

  /** The inode of the first entry with that name, else 0. */
  function FirstNamed(es: seq<Entry>, name: seq<Byte>): nat {
    if es == [] then 0 else if es[0].name == name then es[0].inode else FirstNamed(es[1..], name)
  }

  lemma SkipOne(e: Entry, rest: seq<Entry>, name: seq<Byte>)
    ensures FirstNamed([e] + rest, name) == if e.name == name then e.inode else FirstNamed(rest, name)
  {
    assert ([e] + rest)[1..] == rest;
  }

  /** `find_in_dir_data` finds the first match that `for_each_entry` would list. */
  method FindInDirData(mem: seq<Byte>, size: nat, name: seq<Byte>) returns (r: nat)
    requires size + NAME_MAX <= |mem|
    ensures r == FirstNamed(Listing(mem, size, 0), name)
  {
    hide Listing;
    var off := 0;
    while off + 8 <= size
      invariant FirstNamed(Listing(mem, size, 0), name) == FirstNamed(Listing(mem, size, off), name)
    {
      var recLen := Le16(mem, off + 4);
      if recLen == 0 {
        break;
      }
      ListingStep(mem, size, off);
      var inode, nameLen := Le32(mem, off), mem[off + 6];
      if inode != 0 && nameLen == |name| {
        if Part(mem, off + 8, nameLen) == name {
          return inode;
        }
      }
      SkipOne(EntryAt(mem, off), Listing(mem, size, off + recLen), name);
      off := off + recLen;
    }
    ListingEnd(mem, size, off);
    return 0;
  }

  lemma Regroup(calls: seq<Entry>, e: Entry, rest: seq<Entry>)
    ensures calls + ([e] + rest) == calls + [e] + rest
  {
  }

  /** `for_each_entry`'s scan; the calls it makes are collected. */
  method ForEachEntry(mem: seq<Byte>, size: nat) returns (calls: seq<Entry>)
    requires size + NAME_MAX <= |mem|
    ensures calls == Listing(mem, size, 0)
  {
    hide Listing;
    var off := 0;
    calls := [];
    while off + 8 <= size
      invariant Listing(mem, size, 0) == calls + Listing(mem, size, off)
    {
      var recLen := Le16(mem, off + 4);
      if recLen == 0 {
        break;
      }
      ListingStep(mem, size, off);
      var inode := Le32(mem, off);
      if inode != 0 {
        Regroup(calls, EntryAt(mem, off), Listing(mem, size, off + recLen));
        calls := calls + [EntryAt(mem, off)];
      }
      off := off + recLen;
    }
    ListingEnd(mem, size, off);
  }

  /** A directory record as ext3 lays it out, with its padding; inode 0 marks a dead one. */
  datatype Record = Record(inode: nat, recLen: nat, name: seq<Byte>, kind: Byte)

  ghost predicate IsRecord(r: Record) {
    r.inode < TWO_32 && |r.name| <= NAME_MAX && 8 + |r.name| <= r.recLen < 65536
  }

  ghost function RecordBytes(r: Record): (s: seq<Byte>)
    requires IsRecord(r)
    ensures |s| == r.recLen
  {
    To32(r.inode) + To16(r.recLen) + [|r.name|, r.kind] + r.name + Zeros(r.recLen - 8 - |r.name|)
  }

  ghost predicate AreRecords(rs: seq<Record>) {
    forall i :: 0 <= i < |rs| ==> IsRecord(rs[i])
  }

  ghost function DirBytes(rs: seq<Record>): seq<Byte>
    requires AreRecords(rs)
  {
    if rs == [] then [] else RecordBytes(rs[0]) + DirBytes(rs[1..])
  }

  /** The live records, as entries. */
  ghost function Live(rs: seq<Record>): seq<Entry> {
    if rs == [] then []
    else (if rs[0].inode != 0 then [Entry(rs[0].name, rs[0].inode, rs[0].kind)] else []) + Live(rs[1..])
  }

  lemma RecordReadsBack(mem: seq<Byte>, off: nat, r: Record)
    requires IsRecord(r) && Holds(mem, off, RecordBytes(r)) && off + r.recLen + NAME_MAX <= |mem|
    ensures RecLen(mem, off) == r.recLen && EntryAt(mem, off) == Entry(r.name, r.inode, r.kind)
  {
    var b, n := RecordBytes(r), |r.name|;
    var ino, len := To32(r.inode), To16(r.recLen);
    assert b[0] == ino[0] && b[1] == ino[1] && b[2] == ino[2] && b[3] == ino[3];
    assert b[4] == len[0] && b[5] == len[1] && b[6] == n && b[7] == r.kind;
    assert Part(b, 8, n) == r.name;
    HoldsPart(mem, off, b, 8, n);
  }

  /** One record, and what follows it. */
  lemma ListingCons(mem: seq<Byte>, size: nat, off: nat, r: Record, rest: seq<Byte>, tail: seq<Entry>)
    requires IsRecord(r) && Holds(mem, off, RecordBytes(r) + rest)
    requires off + r.recLen + |rest| == size && size + NAME_MAX <= |mem|
    ensures Holds(mem, off + r.recLen, rest)
    ensures Listing(mem, size, off + r.recLen) == tail ==>
              Listing(mem, size, off) == if r.inode != 0 then [Entry(r.name, r.inode, r.kind)] + tail else tail
  {
    hide Listing, RecordBytes, Holds, EntryAt, RecLen;
    HoldsSplit(mem, off, RecordBytes(r), rest);
    RecordReadsBack(mem, off, r);
    ListingStep(mem, size, off);
  }

  lemma NoRecords(mem: seq<Byte>, off: nat)
    requires off + NAME_MAX <= |mem|
    ensures DirBytes([]) == [] && Live([]) == [] && Listing(mem, off, off) == []
  {
  }

  lemma DirCons(rs: seq<Record>)
    requires AreRecords(rs) && rs != []
    ensures IsRecord(rs[0]) && AreRecords(rs[1..]) && DirBytes(rs) == RecordBytes(rs[0]) + DirBytes(rs[1..])
    ensures var r := rs[0];
            Live(rs) == if r.inode != 0 then [Entry(r.name, r.inode, r.kind)] + Live(rs[1..]) else Live(rs[1..])
  {
  }

  /** A directory written as records lists exactly its live ones, in order. */
  lemma {:induction false} ListingReadsBack(mem: seq<Byte>, size: nat, off: nat, rs: seq<Record>)
    requires AreRecords(rs) && off + |DirBytes(rs)| == size && size + NAME_MAX <= |mem|
    requires Holds(mem, off, DirBytes(rs))
    ensures Listing(mem, size, off) == Live(rs)
    decreases |rs|
  {
    hide *;
    if rs == [] {
      NoRecords(mem, off);
    } else {
      DirCons(rs);
      ListingCons(mem, size, off, rs[0], DirBytes(rs[1..]), Live(rs[1..]));
      ListingReadsBack(mem, size, off + rs[0].recLen, rs[1..]);
    }
  }

  // ---------------------------------------------------------------- lookup

  /** `lookup` in a directory inode, with after being the memory behind the buffer. */
  function LookupIn(disk: seq<Byte>, bs: nat, node: Inode, after: seq<Byte>, name: seq<Byte>): nat
    requires bs >= 4 && IsInode(node) && |after| >= NAME_MAX
  {
    if !node.IsDir() || node.Size() == 0 || !Readable(disk, bs, node) then 0
    else FirstNamed(Listing(FileBytes(disk, bs, node, node.Size()) + after, node.Size(), 0), name)
  }

  /** `lookup`: buf is what `kmalloc` returns for the directory's data. */
  method Lookup(disk: seq<Byte>, bs: nat, node: Inode, mem: array<Byte>, buf: nat, name: seq<Byte>) returns (r: nat)
    requires IsDisk(disk) && bs >= 4 && IsInode(node)
    requires node.IsDir() ==> HasRoom(node, bs, mem.Length - buf)
    modifies mem
    ensures !node.IsDir() ==> r == 0
    ensures node.IsDir() ==> buf + node.Size() + NAME_MAX <= mem.Length
    ensures node.IsDir() ==> r == LookupIn(disk, bs, node, mem[buf + node.Size()..], name)
  {
    if !node.IsDir() {
      return 0;
    }
    var data, size := ReadInodeData(disk, bs, node, mem, Some(buf));
    if data.None? || size == 0 {
      LookupFails(disk, bs, node, mem[buf + node.Size()..], name);
      return 0;
    }
    LookupData(disk, bs, node, old(mem[..]), mem[..], buf, name);
    assert mem[..][buf..] == mem[buf..] && mem[..][buf + size..] == mem[buf + size..];
    r := FindInDirData(mem[buf..], size, name);
  }

  /** The memory from the buffer on holds the file's blocks, and NAME_MAX bytes behind it. */
  predicate HasRoom(node: Inode, bs: nat, room: int)
    requires bs >= 4
  {
    BlocksFor(node.Size(), bs) <= TWO_32 && BlocksFor(node.Size(), bs) * bs <= room && node.Size() + NAME_MAX <= room
  }

  lemma LookupData(disk: seq<Byte>, bs: nat, node: Inode, m: seq<Byte>, m': seq<Byte>, buf: nat, name: seq<Byte>)
    requires bs >= 4 && IsInode(node) && node.IsDir() && Readable(disk, bs, node) && node.Size() > 0
    requires buf + node.Size() + NAME_MAX <= |m| && buf + Extent(disk, bs, node) <= |m|
    requires m' == Splice(m, buf, FileBytes(disk, bs, node, Extent(disk, bs, node)))
    ensures LookupIn(disk, bs, node, m'[buf + node.Size()..], name) ==
        FirstNamed(Listing(m'[buf..], node.Size(), 0), name)
  {
    SizeWithinExtent(disk, bs, node);
    SpliceTail(m, buf, FileBytes(disk, bs, node, Extent(disk, bs, node)), node.Size());
    LookupScans(disk, bs, node, m'[buf + node.Size()..], name);
  }

  lemma SizeWithinExtent(disk: seq<Byte>, bs: nat, node: Inode)
    requires bs >= 4 && IsInode(node)
    ensures node.Size() <= Extent(disk, bs, node)
    ensures FileBytes(disk, bs, node, node.Size()) == FileBytes(disk, bs, node, Extent(disk, bs, node))[..node.Size()]
  {
    BlocksBound(node.Size(), bs, 0);
  }

  /** In a well-formed directory the memory behind the buffer does not matter: a lookup gives
      the first live record with the name, else 0. */
  lemma LookupReadsBack(disk: seq<Byte>, bs: nat, node: Inode, after: seq<Byte>, name: seq<Byte>, rs: seq<Record>)
    requires bs >= 4 && IsInode(node) && |after| >= NAME_MAX
    requires node.IsDir() && Readable(disk, bs, node)
    requires AreRecords(rs) && FileBytes(disk, bs, node, node.Size()) == DirBytes(rs)
    ensures LookupIn(disk, bs, node, after, name) == FirstNamed(Live(rs), name)
  {
    LookupScans(disk, bs, node, after, name);
    WholeDirectory(rs, after);
  }

  lemma LookupFails(disk: seq<Byte>, bs: nat, node: Inode, after: seq<Byte>, name: seq<Byte>)
    requires bs >= 4 && IsInode(node) && |after| >= NAME_MAX
    requires !node.IsDir() || node.Size() == 0 || !Readable(disk, bs, node)
    ensures LookupIn(disk, bs, node, after, name) == 0
  {
  }

  lemma LookupScans(disk: seq<Byte>, bs: nat, node: Inode, after: seq<Byte>, name: seq<Byte>)
    requires bs >= 4 && IsInode(node) && |after| >= NAME_MAX && node.IsDir() && Readable(disk, bs, node)
    ensures var file := FileBytes(disk, bs, node, node.Size());
            LookupIn(disk, bs, node, after, name) == FirstNamed(Listing(file + after, |file|, 0), name)
  {
  }

  lemma WholeDirectory(rs: seq<Record>, after: seq<Byte>)
    requires AreRecords(rs) && |after| >= NAME_MAX
    ensures Listing(DirBytes(rs) + after, |DirBytes(rs)|, 0) == Live(rs)
  {
    ListingReadsBack(DirBytes(rs) + after, |DirBytes(rs)|, 0, rs);
  }

  /** No live entry's name runs past the end of the directory data. */
  predicate NamesInside(data: seq<Byte>, off: nat)
    decreases if off <= |data| then |data| - off else 0
  {
    off + 8 > |data| || RecLen(data, off) == 0 ||
    ((Le32(data, off) == 0 || off + 8 + data[off + 6] <= |data|) && NamesInside(data, off + RecLen(data, off)))
  }

  lemma HeadIndependent(data: seq<Byte>, after: seq<Byte>, after': seq<Byte>, off: nat)
    requires off + 8 <= |data| && |after| >= NAME_MAX && |after'| >= NAME_MAX
    ensures RecLen(data + after, off) == RecLen(data + after', off) == RecLen(data, off)
    ensures EntryAt(data + after, off).inode == EntryAt(data + after', off).inode == Le32(data, off)
    ensures off + 8 + data[off + 6] <= |data| ==> EntryAt(data + after, off) == EntryAt(data + after', off)
  {
    var m, m', n := data + after, data + after', data[off + 6] as nat;
    assert forall i {:trigger data[i]} :: 0 <= i < |data| ==> m[i] == data[i] == m'[i];
    if off + 8 + n <= |data| {
      var x, y := Part(m, off + 8, n), Part(m', off + 8, n);
      assert forall i :: 0 <= i < n ==> x[i] == y[i];
    }
  }

  /** Then the memory behind the directory data does not matter. */
  lemma {:induction false} ListingIndependent(data: seq<Byte>, after: seq<Byte>, after': seq<Byte>, off: nat)
    requires NamesInside(data, off) && |after| >= NAME_MAX && |after'| >= NAME_MAX
    ensures Listing(data + after, |data|, off) == Listing(data + after', |data|, off)
    decreases if off <= |data| then |data| - off else 0
  {
    if off + 8 > |data| {
    } else {
      HeadIndependent(data, after, after', off);
      if RecLen(data, off) != 0 {
        ListingIndependent(data, after, after', off + RecLen(data, off));
        ListingStep(data + after, |data|, off);
        ListingStep(data + after', |data|, off);
      }
    }
  }

  /** A directory whose lookups do not depend on the memory behind its data. */
  ghost predicate IsTidy(disk: seq<Byte>, bs: nat, node: Inode)
    requires bs >= 4 && IsInode(node)
  {
    node.IsDir() && Readable(disk, bs, node) ==> NamesInside(FileBytes(disk, bs, node, node.Size()), 0)
  }

  lemma LookupIndependent(disk: seq<Byte>, bs: nat, node: Inode, after: seq<Byte>, after': seq<Byte>, name: seq<Byte>)
    requires bs >= 4 && IsInode(node) && IsTidy(disk, bs, node) && |after| >= NAME_MAX && |after'| >= NAME_MAX
    ensures LookupIn(disk, bs, node, after, name) == LookupIn(disk, bs, node, after', name)
  {
    if node.IsDir() && Readable(disk, bs, node) && node.Size() > 0 {
      LookupScans(disk, bs, node, after, name);
      LookupScans(disk, bs, node, after', name);
      ListingIndependent(FileBytes(disk, bs, node, node.Size()), after, after', 0);
    } else {
      LookupFails(disk, bs, node, after, name);
      LookupFails(disk, bs, node, after', name);
    }
  }

  // ---------------------------------------------------------------- paths

  /** `path.split('/')`. */
  function Split(path: seq<Byte>): (parts: seq<seq<Byte>>)
    ensures |parts| >= 1
  {
    if path == [] then [[]]
    else
      var rest := Split(path[1..]);
      if path[0] == SLASH then [[]] + rest else [[path[0]] + rest[0]] + rest[1..]
  }

  /** One step of the walk; look gives the inode a directory lists under a name, or 0. */
  function StepInto(look: (nat, seq<Byte>) -> nat, ino: nat, part: seq<Byte>): nat {
    if part == [] || part == [DOT] then ino else look(ino, part)
  }

  /** The walk over path components, which a 0 ends. */
  function WalkParts(look: (nat, seq<Byte>) -> nat, ino: nat, parts: seq<seq<Byte>>): nat
    decreases |parts|
  {
    if parts == [] || ino == 0 then ino else WalkParts(look, StepInto(look, ino, parts[0]), parts[1..])
  }

  /** What a path means, from inode start. */
  function Walk(look: (nat, seq<Byte>) -> nat, start: nat, path: seq<Byte>): nat {
    WalkParts(look, start, Split(path))
  }

  /** Looking something up in inode 0 fails, as `read_inode` does. */
  ghost predicate NothingInZero(look: (nat, seq<Byte>) -> nat) {
    forall name :: look(0, name) == 0
  }

  /** What one disk's directories list: the look of every walk on it, with after behind the
      directory data. */
  function OnDisk(disk: seq<Byte>, sb: Superblock, after: seq<Byte>): (look: (nat, seq<Byte>) -> nat)
    requires sb.inodesPerGroup > 0 && |after| >= NAME_MAX
    ensures NothingInZero(look)
  {
    (ino: nat, name: seq<Byte>) =>
      match InodeAt(disk, sb, ino)
      case None => 0
      case Some(node) => LookupIn(disk, sb.BlockSize(), node, after, name)
  }

  /** If this inode is a directory, it is tidy and its data fits the memory a buffer is given. */
  ghost predicate IsVolumeInode(disk: seq<Byte>, sb: Superblock, ino: nat, room: nat)
    requires sb.inodesPerGroup > 0
  {
    match InodeAt(disk, sb, ino)
    case None => true
    case Some(node) => IsTidy(disk, sb.BlockSize(), node) && (node.IsDir() ==> HasRoom(node, sb.BlockSize(), room))
  }

  /** So is every inode that the walk over the components looks a name up in. */
  ghost predicate WalkIsTidy(disk: seq<Byte>, sb: Superblock, after: seq<Byte>, room: nat, ino: nat,
      parts: seq<seq<Byte>>)
    requires sb.inodesPerGroup > 0 && |after| >= NAME_MAX
    decreases |parts|
  {
    parts != [] ==>
      && (parts[0] == [] || parts[0] == [DOT] || IsVolumeInode(disk, sb, ino, room))
      && WalkIsTidy(disk, sb, after, room, StepInto(OnDisk(disk, sb, after), ino, parts[0]), parts[1..])
  }

  /** One round of `resolve_path`: reading the inode, and the lookup in it. */
  method LookupName(disk: seq<Byte>, sb: Superblock, ino: nat, name: seq<Byte>, mem: array<Byte>, buf: nat,
      ghost room: nat, ghost after: seq<Byte>)
    returns (r: nat)
    requires IsDisk(disk) && sb.inodesPerGroup > 0 && IsVolumeInode(disk, sb, ino, room)
    requires buf + room <= mem.Length && |after| >= NAME_MAX
    modifies mem
    ensures r == OnDisk(disk, sb, after)(ino, name)
  {
    hide LookupIn, IsTidy, InodeAt;
    var node := ReadInode(disk, sb, ino);
    if node.None? {
      return 0;
    }
    r := Lookup(disk, sb.BlockSize(), node.value, mem, buf, name);
    if node.value.IsDir() {
      LookupIndependent(disk, sb.BlockSize(), node.value, mem[buf + node.value.Size()..], after, name);
    } else {
      LookupFails(disk, sb.BlockSize(), node.value, after, name);
    }
  }

  /** `resolve_path`: bufs are what `kmalloc` returns, one for each lookup. The result is the
      walk, whatever after is. */
  method ResolvePath(disk: seq<Byte>, sb: Superblock, start: nat, path: seq<Byte>, mem: array<Byte>, bufs: seq<nat>,
      ghost room: nat, ghost after: seq<Byte>)
    returns (r: nat)
    requires IsDisk(disk) && sb.inodesPerGroup > 0 && |after| >= NAME_MAX
    requires WalkIsTidy(disk, sb, after, room, start, Split(path))
    requires |bufs| >= |Split(path)| && forall k :: 0 <= k < |bufs| ==> bufs[k] + room <= mem.Length
    modifies mem
    ensures r == Walk(OnDisk(disk, sb, after), start, path)
  {
    ghost var look := OnDisk(disk, sb, after);
    var trimmed := TrimSlashes(path);
    TrimIsNothing(look, start, path);
    if trimmed == [] {
      WalkNowhere(look, start);
      return start;
    }
    var parts := Split(trimmed);
    TrimSplits(path);
    TrimIsTidy(disk, sb, after, room, start, path);
    r := start;
    for k := 0 to |parts|
      invariant WalkParts(look, start, parts) == WalkParts(look, r, parts[k..])
      invariant WalkIsTidy(disk, sb, after, room, r, parts[k..])
    {
      WalkStep(look, r, parts[k..]);
      assert parts[k..][1..] == parts[k + 1..];
      if parts[k] == [] || parts[k] == [DOT] {
        continue;
      }
      var found := LookupName(disk, sb, r, parts[k], mem, bufs[k], room, after);
      if found == 0 {
        WalkStep(look, 0, parts[k + 1..]);
        return 0;
      }
      r := found;
    }
  }

  lemma WalkNowhere(look: (nat, seq<Byte>) -> nat, start: nat)
    ensures Walk(look, start, []) == start
  {
    var parts := Split([]);
    assert parts == [[]] && parts[1..] == [];
    assert StepInto(look, start, parts[0]) == start;
    assert WalkParts(look, start, parts[1..]) == start;
  }

  /** One component on; from inode 0 there is no step. */
  lemma WalkStep(look: (nat, seq<Byte>) -> nat, ino: nat, parts: seq<seq<Byte>>)
    requires NothingInZero(look)
    ensures ino == 0 ==> WalkParts(look, ino, parts) == 0
    ensures parts != [] ==> WalkParts(look, ino, parts) == WalkParts(look, StepInto(look, ino, parts[0]), parts[1..])
  {
  }

  lemma {:induction false} TrimSplits(path: seq<Byte>)
    ensures |Split(TrimSlashes(path))| <= |Split(path)|
  {
    if path == [] || path[0] != SLASH {
    } else {
      TrimSplits(path[1..]);
    }
  }

  lemma {:induction false} TrimIsTidy(disk: seq<Byte>, sb: Superblock, after: seq<Byte>, room: nat, start: nat,
      path: seq<Byte>)
    requires sb.inodesPerGroup > 0 && |after| >= NAME_MAX && WalkIsTidy(disk, sb, after, room, start, Split(path))
    ensures WalkIsTidy(disk, sb, after, room, start, Split(TrimSlashes(path)))
  {
    if path == [] || path[0] != SLASH {
    } else {
      assert Split(path)[0] == [] && Split(path)[1..] == Split(path[1..]);
      TrimIsTidy(disk, sb, after, room, start, path[1..]);
    }
  }

  lemma {:induction false} TrimIsNothing(look: (nat, seq<Byte>) -> nat, start: nat, path: seq<Byte>)
    ensures Walk(look, start, path) == Walk(look, start, TrimSlashes(path))
  {
    if path == [] || path[0] != SLASH {
    } else {
      TrimIsNothing(look, start, path[1..]);
      assert Split(path)[1..] == Split(path[1..]);
    }
  }

  lemma {:induction false} SplitJoin(p: seq<Byte>, q: seq<Byte>)
    ensures Split(p + [SLASH] + q) == Split(p) + Split(q)
  {
    if p == [] {
      assert (p + [SLASH] + q)[1..] == q;
    } else {
      assert (p + [SLASH] + q)[1..] == p[1..] + [SLASH] + q;
      SplitJoin(p[1..], q);
    }
  }

  lemma {:induction false} WalkAppend(look: (nat, seq<Byte>) -> nat, ino: nat, a: seq<seq<Byte>>, b: seq<seq<Byte>>)
    ensures WalkParts(look, ino, a + b) == WalkParts(look, WalkParts(look, ino, a), b)
    decreases |a|
  {
    if a == [] {
      assert a + b == b;
    } else if ino != 0 {
      assert (a + b)[1..] == a[1..] + b;
      WalkAppend(look, StepInto(look, ino, a[0]), a[1..], b);
    }
  }

  /** Walking p/q is walking q from where p leads; where p leads nowhere, p/q leads nowhere. */
  lemma WalkJoins(look: (nat, seq<Byte>) -> nat, start: nat, p: seq<Byte>, q: seq<Byte>)
    ensures Walk(look, start, p + [SLASH] + q) == Walk(look, Walk(look, start, p), q)
    ensures Walk(look, start, p) == 0 ==> Walk(look, start, p + [SLASH] + q) == 0
  {
    SplitJoin(p, q);
    WalkAppend(look, start, Split(p), Split(q));
  }

  /** A path of one name: no slash, and neither empty nor ".". */
  predicate IsName(name: seq<Byte>) {
    name != [] && name != [DOT] && SLASH !in name
  }

  lemma {:induction false} SplitName(name: seq<Byte>)
    requires SLASH !in name
    ensures Split(name) == [name]
  {
    if name == [] {
    } else {
      SplitName(name[1..]);
      assert [name[0]] + name[1..] == name && [name[1..]][1..] == [];
    }
  }

  /** A single name is looked up once; "." and the empty path stay. */
  lemma WalkOne(look: (nat, seq<Byte>) -> nat, s: nat, name: seq<Byte>)
    requires s != 0
    ensures IsName(name) ==> Walk(look, s, name) == look(s, name)
    ensures Walk(look, s, []) == Walk(look, s, [DOT]) == s
  {
    WalkNowhere(look, s);
    SplitName([DOT]);
    assert [[DOT]][1..] == [];
    if IsName(name) {
      SplitName(name);
      assert Walk(look, s, name) == WalkParts(look, look(s, name), [name][1..]);
    }
  }

  /** Record k is the first live one with that name. */
  ghost predicate IsFirstLive(rs: seq<Record>, name: seq<Byte>, k: nat) {
    && k < |rs| && rs[k].inode != 0 && rs[k].name == name
    && forall j :: 0 <= j < k ==> rs[j].inode == 0 || rs[j].name != name
  }

  ghost predicate NoneLive(rs: seq<Record>, name: seq<Byte>) {
    forall j :: 0 <= j < |rs| ==> rs[j].inode == 0 || rs[j].name != name
  }

  lemma LiveStep(rs: seq<Record>, name: seq<Byte>)
    requires rs != []
    ensures FirstNamed(Live(rs), name) ==
            if rs[0].inode != 0 && rs[0].name == name then rs[0].inode else FirstNamed(Live(rs[1..]), name)
  {
    var e, rest := Entry(rs[0].name, rs[0].inode, rs[0].kind), Live(rs[1..]);
    SkipOne(e, rest, name);
    assert Live(rs) == if rs[0].inode != 0 then [e] + rest else rest;
  }

  lemma NothingLive(name: seq<Byte>)
    ensures FirstNamed(Live([]), name) == 0
  {
  }

  lemma {:induction false} FirstOfLive(rs: seq<Record>, name: seq<Byte>)
    ensures NoneLive(rs, name) ==> FirstNamed(Live(rs), name) == 0
    ensures forall k: nat :: IsFirstLive(rs, name, k) ==> FirstNamed(Live(rs), name) == rs[k].inode
  {
    hide Live, FirstNamed;
    if rs == [] {
      NothingLive(name);
    } else {
      FirstOfLive(rs[1..], name);
      LiveStep(rs, name);
      if NoneLive(rs, name) {
        assert rs[0].inode == 0 || rs[0].name != name;
        assert NoneLive(rs[1..], name);
      }
      forall k: nat | IsFirstLive(rs, name, k) ensures FirstNamed(Live(rs), name) == rs[k].inode {
        LaterFirst(rs, name, k);
      }
    }
  }

  lemma LaterFirst(rs: seq<Record>, name: seq<Byte>, k: nat)
    requires IsFirstLive(rs, name, k)
    ensures k > 0 ==> !(rs[0].inode != 0 && rs[0].name == name) && IsFirstLive(rs[1..], name, k - 1)
  {
    if k > 0 {
      forall j | 0 <= j < k - 1 ensures rs[1..][j].inode == 0 || rs[1..][j].name != name {
        assert rs[1..][j] == rs[j + 1];
      }
    }
  }

  /** From a readable directory of records a name leads to the inode of the first live record
      with that name, and nowhere if there is none. */
  lemma WalkFinds(disk: seq<Byte>, sb: Superblock, after: seq<Byte>, s: nat, name: seq<Byte>, node: Inode,
      rs: seq<Record>)
    requires sb.inodesPerGroup > 0 && |after| >= NAME_MAX && IsName(name)
    requires InodeAt(disk, sb, s) == Some(node) && node.IsDir() && Readable(disk, sb.BlockSize(), node)
    requires AreRecords(rs) && FileBytes(disk, sb.BlockSize(), node, node.Size()) == DirBytes(rs)
    ensures NoneLive(rs, name) ==> Walk(OnDisk(disk, sb, after), s, name) == 0
    ensures forall k: nat :: IsFirstLive(rs, name, k) ==> Walk(OnDisk(disk, sb, after), s, name) == rs[k].inode
  {
    hide Readable, DirBytes, FileBytes, LookupIn, Walk;
    WalkOne(OnDisk(disk, sb, after), s, name);
    LookupReadsBack(disk, sb.BlockSize(), node, after, name, rs);
    FirstOfLive(rs, name);
  }
}
