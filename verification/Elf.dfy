/** The ELF loader of src/kern/crates/avaria-elf: header.rs and loader.rs, in the wrapping
    64-bit arithmetic of a release build. */
module Elf {
  import opened Prelude
  import opened ByteStrings

  const HEADER_SIZE: nat := 64
  const PHDR_SIZE: nat := 56
  const PT_LOAD: nat := 1
  const U64_MAX: nat := TWO_64 - 1

  datatype ElfError = TooSmall | BadMagic | Not64Bit | NotLittleEndian | NotExecutable | NotX86_64 | BadPhdr

  datatype Result<T> = Ok(value: T) | Err(error: ElfError)

  datatype Header = Header(kind: nat, machine: nat, entry: nat, phoff: nat, phentsize: nat, phnum: nat)

  datatype Phdr = Phdr(kind: nat, offset: nat, vaddr: nat, filesz: nat, memsz: nat)

  /** What becomes of a load: it succeeds, it returns an error, a slice bound panics, or the
      program header table is read from outside the file. */
  datatype Outcome = Loaded(entry: nat, base: nat, size: nat) | Failed(error: ElfError) | Panicked | WildRead

  // ---------------------------------------------------------------- header.rs

  function ParseHeader(data: seq<Byte>): Result<Header> {
    if |data| < HEADER_SIZE then Err(TooSmall)
    else if data[..4] != [0x7F, 0x45, 0x4C, 0x46] then Err(BadMagic)
    else if data[4] != 2 then Err(Not64Bit)
    else if data[5] != 1 then Err(NotLittleEndian)
    else if Le16(data, 16) != 2 && Le16(data, 16) != 3 then Err(NotExecutable)
    else if Le16(data, 18) != 62 then Err(NotX86_64)
    else Ok(Header(Le16(data, 16), Le16(data, 18), Le64(data, 24), Le64(data, 32), Le16(data, 54), Le16(data, 56)))
  }

  /** A program header record (System V gABI, chapter 5, "Program Header"). */
  function PhdrAt(data: seq<Byte>, at: nat): (p: Phdr)
    requires at + PHDR_SIZE <= |data|
    ensures IsPhdr(p)
  {
    Phdr(Le32(data, at), Le64(data, at + 8), Le64(data, at + 16), Le64(data, at + 32), Le64(data, at + 40))
  }

  predicate IsPhdr(p: Phdr) {
    p.offset < TWO_64 && p.vaddr < TWO_64 && p.filesz < TWO_64 && p.memsz < TWO_64
  }

  predicate ArePhdrs(phs: seq<Phdr>) {
    forall k :: 0 <= k < |phs| ==> IsPhdr(phs[k])
  }

  /** data starts with an ELF header (System V gABI, chapter 4, "ELF Header") of a 64-bit
      little-endian x86_64 executable or shared object with these fields, each written in
      its place; the other fields are free. */
  ghost predicate StartsWithHeader(data: seq<Byte>, h: Header) {
    && |data| >= HEADER_SIZE && Part(data, 0, 4) == [0x7F, 0x45, 0x4C, 0x46] && data[4] == 2 && data[5] == 1
    && h.kind in {2, 3} && h.machine == 62
    && h.entry < TWO_64 && h.phoff < TWO_64 && h.phentsize < 0x1_0000 && h.phnum < 0x1_0000
    && Part(data, 16, 2) == To16(h.kind) && Part(data, 18, 2) == To16(62)
    && Part(data, 24, 8) == To64(h.entry) && Part(data, 32, 8) == To64(h.phoff)
    && Part(data, 54, 2) == To16(h.phentsize) && Part(data, 56, 2) == To16(h.phnum)
  }

  /** `parse_header` accepts exactly the files that start with such a header, and reads its
      fields. */
  lemma ParseHeaderExactlyWhen(data: seq<Byte>, h: Header)
    ensures ParseHeader(data) == Ok(h) <==> StartsWithHeader(data, h)
  {
    if |data| >= HEADER_SIZE {
      HeaderFields(data);
      if StartsWithHeader(data, h) {
        FieldIs16(data, 16, h.kind);
        FieldIs16(data, 18, 62);
        FieldIs64(data, 24, h.entry);
        FieldIs64(data, 32, h.phoff);
        FieldIs16(data, 54, h.phentsize);
        FieldIs16(data, 56, h.phnum);
      }
    }
  }

  /** The checks of `parse_header` in their order, each by the error it gives. */
  const HEADER_CHECKS: seq<ElfError> := [TooSmall, BadMagic, Not64Bit, NotLittleEndian, NotExecutable, NotX86_64]

  ghost predicate Passes(data: seq<Byte>, e: ElfError) {
    |data| >= HEADER_SIZE &&
    match e
    case BadMagic => Part(data, 0, 4) == [0x7F, 0x45, 0x4C, 0x46]
    case Not64Bit => data[4] == 2
    case NotLittleEndian => data[5] == 1
    case NotExecutable => Part(data, 16, 2) in {To16(2), To16(3)}
    case NotX86_64 => Part(data, 18, 2) == To16(62)
    case _ => true
  }

  /** A file that is not accepted is refused with the error of the first check it fails. */
  lemma HeaderErrorExactly(data: seq<Byte>, k: nat)
    requires k < |HEADER_CHECKS|
    ensures ParseHeader(data) == Err(HEADER_CHECKS[k]) <==>
            !Passes(data, HEADER_CHECKS[k]) && forall j :: 0 <= j < k ==> Passes(data, HEADER_CHECKS[j])
  {
    if |data| >= HEADER_SIZE {
      FieldIs16(data, 16, 2);
      FieldIs16(data, 16, 3);
      FieldIs16(data, 18, 62);
    }
    hide Le16, To16, Le64;
    assert HEADER_CHECKS[0] == TooSmall && HEADER_CHECKS[1] == BadMagic && HEADER_CHECKS[2] == Not64Bit;
    assert HEADER_CHECKS[3] == NotLittleEndian && HEADER_CHECKS[4] == NotExecutable && HEADER_CHECKS[5] == NotX86_64;
  }

  lemma HeaderFields(data: seq<Byte>)
    requires |data| >= HEADER_SIZE
    ensures Part(data, 16, 2) == To16(Le16(data, 16)) && Part(data, 18, 2) == To16(Le16(data, 18))
    ensures Part(data, 24, 8) == To64(Le64(data, 24)) && Part(data, 32, 8) == To64(Le64(data, 32))
    ensures Part(data, 54, 2) == To16(Le16(data, 54)) && Part(data, 56, 2) == To16(Le16(data, 56))
    ensures Part(data, 0, 4) == data[..4]
  {
    To16OfLe(data, 16);
    To16OfLe(data, 18);
    To64OfLe(data, 24);
    To64OfLe(data, 32);
    To16OfLe(data, 54);
    To16OfLe(data, 56);
  }

  /** The record at this place of the file is p's; flags, physical address and alignment are
      free. */
  ghost predicate RecordIs(data: seq<Byte>, at: nat, p: Phdr) {
    && at + PHDR_SIZE <= |data| && IsPhdr(p) && p.kind < 0x1_0000_0000
    && Part(data, at, 4) == To32(p.kind) && Part(data, at + 8, 8) == To64(p.offset)
    && Part(data, at + 16, 8) == To64(p.vaddr) && Part(data, at + 32, 8) == To64(p.filesz)
    && Part(data, at + 40, 8) == To64(p.memsz)
  }

  lemma RecordReadsBack(data: seq<Byte>, at: nat, p: Phdr)
    requires RecordIs(data, at, p)
    ensures PhdrAt(data, at) == p
  {
    FieldIs32(data, at, p.kind);
    FieldIs64(data, at + 8, p.offset);
    FieldIs64(data, at + 16, p.vaddr);
    FieldIs64(data, at + 32, p.filesz);
    FieldIs64(data, at + 40, p.memsz);
  }

  /** A table written record after record, as an entry size of 56 says, reads back. */
  lemma TableReadsBack(data: seq<Byte>, h: Header, phs: seq<Phdr>)
    requires h.phentsize == PHDR_SIZE && h.phnum == |phs| && h.phoff + h.phnum * PHDR_SIZE <= |data|
    requires forall k: nat :: k < |phs| ==> RecordIs(data, h.phoff + k * h.phentsize, phs[k])
    ensures Records(data, h.phoff, h.phnum) == phs
  {
    hide RecordIs, PhdrAt;
    var rs := Records(data, h.phoff, h.phnum);
    forall k: nat | k < |phs| ensures rs[k] == phs[k] {
      RecordReadsBack(data, h.phoff + k * h.phentsize, phs[k]);
    }
  }

  /** The bounds check of `program_headers`. */
  predicate TableAccepted(data: seq<Byte>, h: Header) {
    (h.phoff + h.phnum * h.phentsize) % TWO_64 <= |data| && h.phentsize >= PHDR_SIZE
  }

  /** The records of `program_headers`: as many as the header says, one after the other,
      whatever the entry size says. */
  function Records(data: seq<Byte>, phoff: nat, n: nat): (phs: seq<Phdr>)
    requires phoff + n * PHDR_SIZE <= |data|
    ensures |phs| == n && ArePhdrs(phs)
    ensures forall k: nat :: k < n ==>
        phoff + k * PHDR_SIZE + PHDR_SIZE <= |data| && phs[k] == PhdrAt(data, phoff + k * PHDR_SIZE)
  {
    if n == 0 then [] else Records(data, phoff, n - 1) + [PhdrAt(data, phoff + (n - 1) * PHDR_SIZE)]
  }

  /** With wrap-around it need not: here a table is accepted for a file of only a header. */
  lemma WrappedTable()
    ensures var h, data := Header(2, 62, 0, TWO_64 - PHDR_SIZE, PHDR_SIZE, 1), Zeros(HEADER_SIZE);
            TableAccepted(data, h) && h.phoff + h.phnum * PHDR_SIZE > |data|
  {
  }

  /** Without wrap-around an accepted table lies in the file. */
  lemma TableInFile(data: seq<Byte>, h: Header)
    requires TableAccepted(data, h) && h.phoff + h.phnum * h.phentsize < TWO_64
    ensures h.phoff + h.phnum * PHDR_SIZE <= |data|
  {
    MulMonotone(h.phnum, PHDR_SIZE, h.phentsize);
  }

  /** The whole table, at the entry size the header gives, lies in the file. */
  ghost predicate TableLies(data: seq<Byte>, h: Header) {
    h.phentsize >= PHDR_SIZE && h.phoff + h.phnum * h.phentsize <= |data|
  }

  lemma EntryLies(data: seq<Byte>, h: Header, k: nat)
    requires TableLies(data, h) && k < h.phnum
    ensures h.phoff + h.phnum * PHDR_SIZE <= |data|
    ensures h.phoff + k * h.phentsize + PHDR_SIZE <= |data|
  {
    MulMonotone(h.phnum, PHDR_SIZE, h.phentsize);
    MulGap(k, h.phnum, h.phentsize);
  }

  /** `program_headers` gives entry k of the table as the file has it, at phoff + k * e_phentsize. */
  ghost predicate ReadsEntry(data: seq<Byte>, h: Header, k: nat)
    requires TableLies(data, h) && k < h.phnum
  {
    EntryLies(data, h, k);
    Records(data, h.phoff, h.phnum)[k] == PhdrAt(data, h.phoff + k * h.phentsize)
  }

  /** A file of zeros with one byte of entry 1's memory size set, at the header's entry size. */
  ghost function OddEntry(h: Header): (data: seq<Byte>)
    ensures |data| == h.phoff + h.phnum * h.phentsize
  {
    var odd := h.phoff + h.phentsize + 47;
    seq(h.phoff + h.phnum * h.phentsize, i => if i == odd then 1 else 0)
  }

  lemma ZeroField(data: seq<Byte>, at: nat)
    requires at + 8 <= |data| && forall i {:trigger data[i]} :: at <= i < at + 8 ==> data[i] == 0
    ensures Le64(data, at) == 0
  {
  }

  lemma OddEntryDiffers(data: seq<Byte>, there: nat, read: nat)
    requires read + PHDR_SIZE <= |data| && there + PHDR_SIZE <= |data| && read < there && data[there + 47] == 1
    requires forall i {:trigger data[i]} :: 0 <= i < |data| && i != there + 47 ==> data[i] == 0
    ensures PhdrAt(data, there).memsz != PhdrAt(data, read).memsz
  {
    ZeroField(data, read + 40);
  }

  /** That entry is not the record read in its place. */
  lemma OddEntryMisread(h: Header)
    requires h.phentsize > PHDR_SIZE && h.phnum > 1
    ensures TableLies(OddEntry(h), h) && !ReadsEntry(OddEntry(h), h, 1)
  {
    var data := OddEntry(h);
    EntryLies(data, h, 1);
    hide PhdrAt;
    OddEntryDiffers(data, h.phoff + 1 * h.phentsize, h.phoff + 1 * PHDR_SIZE);
  }

  /** The reader gives the file's own table entries, for every file and entry, exactly when
      the entry size is that of a record or there is at most one entry. */
  lemma StrideExactlyWhen(h: Header)
    requires h.phentsize >= PHDR_SIZE
    ensures (forall data: seq<Byte>, k: nat :: TableLies(data, h) && k < h.phnum ==> ReadsEntry(data, h, k))
            <==> h.phentsize == PHDR_SIZE || h.phnum <= 1
  {
    if h.phentsize == PHDR_SIZE || h.phnum <= 1 {
      forall data: seq<Byte>, k: nat | TableLies(data, h) && k < h.phnum ensures ReadsEntry(data, h, k) {
        EntryLies(data, h, k);
        assert k * PHDR_SIZE == k * h.phentsize;
      }
    } else {
      OddEntryMisread(h);
    }
  }

  // ---------------------------------------------------------------- what a load means

  function SegmentEnd(p: Phdr): nat {
    (p.vaddr + p.memsz) % TWO_64
  }

  /** The least address of a segment to load; U64_MAX if there is none. */
  function MinVaddr(phs: seq<Phdr>): (m: nat)
    ensures m <= U64_MAX
    ensures forall k :: 0 <= k < |phs| && phs[k].kind == PT_LOAD ==> m <= phs[k].vaddr
  {
    if phs == [] then U64_MAX
    else
      var p, m := phs[|phs| - 1], MinVaddr(phs[..|phs| - 1]);
      if p.kind == PT_LOAD && p.vaddr < m then p.vaddr else m
  }

  /** The greatest end of a segment to load. */
  function MaxEnd(phs: seq<Phdr>): (m: nat)
    ensures m < TWO_64
    ensures forall k :: 0 <= k < |phs| && phs[k].kind == PT_LOAD ==> SegmentEnd(phs[k]) <= m
  {
    if phs == [] then 0
    else
      var p, m := phs[|phs| - 1], MaxEnd(phs[..|phs| - 1]);
      if p.kind == PT_LOAD && SegmentEnd(p) > m then SegmentEnd(p) else m
  }

  /** vaddr_max - vaddr_min, wrapping. */
  function Span(phs: seq<Phdr>): nat {
    (MaxEnd(phs) + TWO_64 - MinVaddr(phs)) % TWO_64
  }

  /** Where in the buffer a segment goes. */
  function Dst(phs: seq<Phdr>, p: Phdr): nat
    requires MinVaddr(phs) <= p.vaddr
  {
    p.vaddr - MinVaddr(phs)
  }

  /** What the copy of one segment comes to; nothing if it goes well. */
  function CopyVerdict(dataLen: nat, bufLen: nat, p: Phdr, dst: nat): (r: Option<Outcome>)
    ensures r.Some? ==> !r.value.Loaded?
  {
    var srcEnd, dstEnd := (p.offset + p.filesz) % TWO_64, (dst + p.filesz) % TWO_64;
    if srcEnd > dataLen then Some(Failed(BadPhdr))
    else if p.offset > srcEnd || dst > dstEnd || dstEnd > bufLen then Some(Panicked)
    else None
  }

  /** The first thing that goes wrong from segment k on. */
  function CopiesVerdict(dataLen: nat, bufLen: nat, phs: seq<Phdr>, k: nat): (r: Option<Outcome>)
    requires k <= |phs|
    ensures r.Some? ==> !r.value.Loaded?
    decreases |phs| - k
  {
    if k == |phs| then None
    else if phs[k].kind != PT_LOAD then CopiesVerdict(dataLen, bufLen, phs, k + 1)
    else
      match CopyVerdict(dataLen, bufLen, phs[k], Dst(phs, phs[k]))
      case Some(o) => Some(o)
      case None => CopiesVerdict(dataLen, bufLen, phs, k + 1)
  }

  /** The outcome once the table has been read. */
  function SegmentsVerdict(dataLen: nat, bufLen: nat, phs: seq<Phdr>, entry: nat, base: nat): Outcome {
    if MinVaddr(phs) == U64_MAX || Span(phs) > bufLen then Failed(BadPhdr)
    else
      match CopiesVerdict(dataLen, bufLen, phs, 0)
      case Some(o) => o
      case None => Loaded((entry + (base + TWO_64 - MinVaddr(phs)) % TWO_64) % TWO_64, base, Span(phs))
  }

  /** Segment p puts a file byte at place i of the buffer. */
  predicate Covers(phs: seq<Phdr>, p: Phdr, i: nat)
    requires p.kind == PT_LOAD ==> MinVaddr(phs) <= p.vaddr
  {
    p.kind == PT_LOAD && Dst(phs, p) <= i < Dst(phs, p) + p.filesz
  }

  /** The last of the first n segments that covers place i. */
  function LastCover(phs: seq<Phdr>, n: nat, i: nat): (r: Option<nat>)
    requires n <= |phs|
    ensures r.Some? ==> r.value < n && Covers(phs, phs[r.value], i)
    ensures forall k: nat :: k < n && Covers(phs, phs[k], i) ==> r.Some? && k <= r.value
  {
    if n == 0 then None
    else if Covers(phs, phs[n - 1], i) then Some(n - 1)
    else LastCover(phs, n - 1, i)
  }

  /** Byte i of the buffer after n segments: that of the last segment covering it, else 0
      within the image, else what was there. */
  function ByteAfter(data: seq<Byte>, phs: seq<Phdr>, n: nat, was: seq<Byte>, i: nat): Byte
    requires n <= |phs| && i < |was|
  {
    match LastCover(phs, n, i)
    case Some(k) =>
      var at := phs[k].offset + (i - Dst(phs, phs[k]));
      if at < |data| then data[at] else 0
    case None => if i < Span(phs) then 0 else was[i]
  }

  /** The whole buffer after n segments. */
  ghost predicate ImageAfter(data: seq<Byte>, phs: seq<Phdr>, n: nat, was: seq<Byte>, now: seq<Byte>)
    requires n <= |phs|
  {
    |now| == |was| && forall i: nat {:trigger now[i]} :: i < |was| ==> now[i] == ByteAfter(data, phs, n, was, i)
  }

  // ---------------------------------------------------------------- loader.rs

  /** The first pass of `load_at`. */
  method FindSpan(phs: seq<Phdr>) returns (vmin: nat, vmax: nat)
    ensures vmin == MinVaddr(phs) && vmax == MaxEnd(phs)
  {
    vmin, vmax := U64_MAX, 0;
    for k := 0 to |phs|
      invariant vmin == MinVaddr(phs[..k]) && vmax == MaxEnd(phs[..k])
    {
      var p := phs[k];
      assert phs[..k + 1][..k] == phs[..k];
      if p.kind != PT_LOAD {
        continue;
      }
      if p.vaddr < vmin {
        vmin := p.vaddr;
      }
      var end := (p.vaddr + p.memsz) % TWO_64;
      if end > vmax {
        vmax := end;
      }
    }
    assert phs[..|phs|] == phs;
  }

  lemma CopyStep(data: seq<Byte>, phs: seq<Phdr>, k: nat, was: seq<Byte>, m: seq<Byte>, m': seq<Byte>)
    requires k < |phs| && IsPhdr(phs[k]) && ImageAfter(data, phs, k, was, m)
    requires phs[k].kind == PT_LOAD && CopyVerdict(|data|, |was|, phs[k], Dst(phs, phs[k])).None?
    requires phs[k].offset + phs[k].filesz <= |data| && Dst(phs, phs[k]) + phs[k].filesz <= |m|
    requires m' == Splice(m, Dst(phs, phs[k]), Part(data, phs[k].offset, phs[k].filesz))
    ensures ImageAfter(data, phs, k + 1, was, m')
  {
    var dst, x := Dst(phs, phs[k]), Part(data, phs[k].offset, phs[k].filesz);
    forall i: nat | i < |was| ensures m'[i] == ByteAfter(data, phs, k + 1, was, i) {
      SpliceAt(m, dst, x, i);
      if Covers(phs, phs[k], i) {
        assert x[i - dst] == data[phs[k].offset + (i - dst)];
      } else {
        assert m[i] == ByteAfter(data, phs, k, was, i);
      }
    }
  }

  /** What a copy comes to: it goes well exactly when source and target lie within file and
      buffer, without wrap-around; an end past the file, as 64 bits have it, is an error; and
      everything else is a slice out of bounds. */
  lemma CopyOutcome(dataLen: nat, bufLen: nat, p: Phdr, dst: nat)
    requires IsPhdr(p) && dst < TWO_64 && dataLen < TWO_64 && bufLen < TWO_64
    ensures var fits := p.offset + p.filesz <= dataLen && dst + p.filesz <= bufLen;
            CopyVerdict(dataLen, bufLen, p, dst) ==
            if fits then None
            else if (p.offset + p.filesz) % TWO_64 > dataLen then Some(Failed(BadPhdr))
            else Some(Panicked)
  {
  }

  /** A copy with a verdict of none is within both slices. */
  lemma CopyInBounds(dataLen: nat, bufLen: nat, p: Phdr, dst: nat)
    requires IsPhdr(p) && dst < TWO_64 && CopyVerdict(dataLen, bufLen, p, dst).None?
    ensures p.offset + p.filesz <= dataLen && dst + p.filesz <= bufLen
  {
  }

  /** The second pass of `load_at`. */
  method CopySegments(data: seq<Byte>, phs: seq<Phdr>, vmin: nat, buffer: array<Byte>, ghost was: seq<Byte>)
    returns (bad: Option<Outcome>)
    requires ArePhdrs(phs) && vmin == MinVaddr(phs) && ImageAfter(data, phs, 0, was, buffer[..])
    modifies buffer
    ensures bad == CopiesVerdict(|data|, buffer.Length, phs, 0)
    ensures bad.None? ==> ImageAfter(data, phs, |phs|, was, buffer[..])
  {
    for k := 0 to |phs|
      invariant CopiesVerdict(|data|, buffer.Length, phs, 0) == CopiesVerdict(|data|, buffer.Length, phs, k)
      invariant ImageAfter(data, phs, k, was, buffer[..])
    {
      var p := phs[k];
      if p.kind != PT_LOAD {
        SkipStep(data, phs, k, was, buffer[..]);
        continue;
      }
      var dst := p.vaddr - vmin;
      bad := CopyVerdict(|data|, buffer.Length, p, dst);
      if bad.Some? {
        return;
      }
      CopyInBounds(|data|, buffer.Length, p, dst);
      ghost var m := buffer[..];
      Copy(buffer, dst, Part(data, p.offset, p.filesz));
      CopyStep(data, phs, k, was, m, buffer[..]);
    }
    bad := None;
  }

  lemma SkipStep(data: seq<Byte>, phs: seq<Phdr>, k: nat, was: seq<Byte>, m: seq<Byte>)
    requires k < |phs| && phs[k].kind != PT_LOAD && ImageAfter(data, phs, k, was, m)
    ensures ImageAfter(data, phs, k + 1, was, m)
  {
    forall i: nat | i < |was| ensures m[i] == ByteAfter(data, phs, k + 1, was, i) {
      assert LastCover(phs, k + 1, i) == LastCover(phs, k, i);
    }
  }

  lemma FilledStart(data: seq<Byte>, phs: seq<Phdr>, was: seq<Byte>, now: seq<Byte>)
    requires Span(phs) <= |was| && now == Splice(was, 0, Zeros(Span(phs)))
    ensures ImageAfter(data, phs, 0, was, now)
  {
    forall i: nat | i < |was| ensures now[i] == ByteAfter(data, phs, 0, was, i) {
      SpliceAt(was, 0, Zeros(Span(phs)), i);
    }
  }

  /** `load_at` from the parsed table on; base is the buffer's address. */
  method LoadSegments(data: seq<Byte>, phs: seq<Phdr>, entry: nat, buffer: array<Byte>, base: nat) returns (r: Outcome)
    requires ArePhdrs(phs)
    modifies buffer
    ensures r == SegmentsVerdict(|data|, buffer.Length, phs, entry, base)
    ensures r.Loaded? ==> ImageAfter(data, phs, |phs|, old(buffer[..]), buffer[..])
  {
    var vmin, vmax := FindSpan(phs);
    if vmin == U64_MAX {
      return Failed(BadPhdr);
    }
    var size := (vmax + TWO_64 - vmin) % TWO_64;
    if size > buffer.Length {
      return Failed(BadPhdr);
    }
    Copy(buffer, 0, Zeros(size));
    FilledStart(data, phs, old(buffer[..]), buffer[..]);
    var bad := CopySegments(data, phs, vmin, buffer, old(buffer[..]));
    if bad.Some? {
      return bad.value;
    }
    return Loaded((entry + (base + TWO_64 - vmin) % TWO_64) % TWO_64, base, size);
  }

  /** `load_at`. */
  method LoadAt(data: seq<Byte>, buffer: array<Byte>, base: nat) returns (r: Outcome)
    modifies buffer
    ensures var h := ParseHeader(data);
            match h
            case Err(e) => r == Failed(e) && buffer[..] == old(buffer[..])
            case Ok(hdr) =>
              if !TableAccepted(data, hdr) then r == Failed(BadPhdr) && buffer[..] == old(buffer[..])
              else if hdr.phoff + hdr.phnum * PHDR_SIZE > |data| then r == WildRead
              else
                var phs := Records(data, hdr.phoff, hdr.phnum);
                && r == SegmentsVerdict(|data|, buffer.Length, phs, hdr.entry, base)
                && (r.Loaded? ==> ImageAfter(data, phs, |phs|, old(buffer[..]), buffer[..]))
  {
    var h := ParseHeader(data);
    if h.Err? {
      return Failed(h.error);
    }
    var hdr := h.value;
    if !TableAccepted(data, hdr) {
      return Failed(BadPhdr);
    }
    if hdr.phoff + hdr.phnum * PHDR_SIZE > |data| {
      return WildRead;
    }
    r := LoadSegments(data, Records(data, hdr.phoff, hdr.phnum), hdr.entry, buffer, base);
  }

  // ---------------------------------------------------------------- well-formed files

  /** A segment no larger in the file than in memory, with sums that do not overflow. */
  predicate IsSegment(p: Phdr) {
    p.filesz <= p.memsz && p.vaddr + p.memsz < TWO_64 && p.offset + p.filesz < TWO_64
  }

  predicate AreSegments(phs: seq<Phdr>) {
    forall k :: 0 <= k < |phs| && phs[k].kind == PT_LOAD ==> IsPhdr(phs[k]) && IsSegment(phs[k])
  }

  predicate InFile(dataLen: nat, phs: seq<Phdr>, k: nat)
    requires k <= |phs|
  {
    forall j :: k <= j < |phs| && phs[j].kind == PT_LOAD ==> phs[j].offset + phs[j].filesz <= dataLen
  }

  /** Each segment's memory lies within the span: nothing wraps. */
  lemma SegmentWithinSpan(phs: seq<Phdr>, k: nat)
    requires AreSegments(phs) && k < |phs| && phs[k].kind == PT_LOAD
    ensures Span(phs) == MaxEnd(phs) - MinVaddr(phs)
    ensures Dst(phs, phs[k]) + phs[k].memsz <= Span(phs)
  {
    assert SegmentEnd(phs[k]) == phs[k].vaddr + phs[k].memsz <= MaxEnd(phs);
  }

  lemma CopyExactlyWhen(dataLen: nat, bufLen: nat, phs: seq<Phdr>, k: nat)
    requires AreSegments(phs) && Span(phs) <= bufLen && k < |phs| && phs[k].kind == PT_LOAD
    ensures CopyVerdict(dataLen, bufLen, phs[k], Dst(phs, phs[k])) ==
            if phs[k].offset + phs[k].filesz <= dataLen then None else Some(Failed(BadPhdr))
  {
    SegmentWithinSpan(phs, k);
    assert phs[k].vaddr + phs[k].filesz < TWO_64;
    hide Span, MinVaddr, MaxEnd, AreSegments;
    InBoundsCopy(dataLen, bufLen, phs[k], Dst(phs, phs[k]));
  }

  lemma InBoundsCopy(dataLen: nat, bufLen: nat, p: Phdr, dst: nat)
    requires p.offset + p.filesz < TWO_64 && dst + p.filesz < TWO_64 && dst + p.filesz <= bufLen
    ensures CopyVerdict(dataLen, bufLen, p, dst) == if p.offset + p.filesz <= dataLen then None
        else Some(Failed(BadPhdr))
  {
  }

  lemma InFileStep(dataLen: nat, phs: seq<Phdr>, k: nat)
    requires k < |phs|
    ensures InFile(dataLen, phs, k) <==>
            InFile(dataLen, phs, k + 1) && (phs[k].kind == PT_LOAD ==> phs[k].offset + phs[k].filesz <= dataLen)
  {
  }

  lemma {:induction false} CopiesExactlyWhen(dataLen: nat, bufLen: nat, phs: seq<Phdr>, k: nat)
    requires AreSegments(phs) && Span(phs) <= bufLen && k <= |phs|
    ensures CopiesVerdict(dataLen, bufLen, phs, k) == if InFile(dataLen, phs, k) then None else Some(Failed(BadPhdr))
    decreases |phs| - k
  {
    if k == |phs| {
    } else {
      InFileStep(dataLen, phs, k);
      CopiesExactlyWhen(dataLen, bufLen, phs, k + 1);
      if phs[k].kind == PT_LOAD {
        CopyExactlyWhen(dataLen, bufLen, phs, k);
      }
    }
  }

  /** a is the least address at which a segment to load starts. */
  ghost predicate IsLeastStart(phs: seq<Phdr>, a: nat) {
    && (exists k :: 0 <= k < |phs| && phs[k].kind == PT_LOAD && phs[k].vaddr == a)
    && forall k :: 0 <= k < |phs| && phs[k].kind == PT_LOAD ==> a <= phs[k].vaddr
  }

  /** z is the greatest address at which one ends. */
  ghost predicate IsGreatestEnd(phs: seq<Phdr>, z: nat) {
    && (exists k :: 0 <= k < |phs| && phs[k].kind == PT_LOAD && phs[k].vaddr + phs[k].memsz == z)
    && forall k :: 0 <= k < |phs| && phs[k].kind == PT_LOAD ==> phs[k].vaddr + phs[k].memsz <= z
  }

  lemma {:induction false} MinAttained(phs: seq<Phdr>)
    ensures MinVaddr(phs) < U64_MAX ==> IsLeastStart(phs, MinVaddr(phs))
  {
    if phs == [] {
    } else {
      var n := |phs| - 1;
      MinAttained(phs[..n]);
      if MinVaddr(phs) < U64_MAX && MinVaddr(phs) == MinVaddr(phs[..n]) {
        var k :| 0 <= k < n && phs[..n][k].kind == PT_LOAD && phs[..n][k].vaddr == MinVaddr(phs);
        assert phs[k].vaddr == MinVaddr(phs);
      } else {
        assert MinVaddr(phs) < U64_MAX ==> phs[n].kind == PT_LOAD && phs[n].vaddr == MinVaddr(phs);
      }
    }
  }

  /** Some segment to load has the end MaxEnd, if that is not 0. */
  lemma {:induction false} MaxAttained(phs: seq<Phdr>) returns (k: nat)
    requires MaxEnd(phs) > 0
    ensures k < |phs| && phs[k].kind == PT_LOAD && SegmentEnd(phs[k]) == MaxEnd(phs)
  {
    k := |phs| - 1;
    if MaxEnd(phs) == MaxEnd(phs[..k]) {
      k := MaxAttained(phs[..k]);
    }
  }

  lemma SpanEnds(phs: seq<Phdr>)
    requires AreSegments(phs) && exists k :: 0 <= k < |phs| && phs[k].kind == PT_LOAD
    ensures IsGreatestEnd(phs, MaxEnd(phs))
  {
    var k :| 0 <= k < |phs| && phs[k].kind == PT_LOAD;
    if MaxEnd(phs) > 0 {
      k := MaxAttained(phs);
    }
    EndIs(phs, k);
    forall j | 0 <= j < |phs| && phs[j].kind == PT_LOAD ensures phs[j].vaddr + phs[j].memsz <= MaxEnd(phs) {
      EndIs(phs, j);
    }
  }

  lemma EndIs(phs: seq<Phdr>, k: nat)
    requires AreSegments(phs) && k < |phs| && phs[k].kind == PT_LOAD
    ensures phs[k].vaddr + phs[k].memsz == SegmentEnd(phs[k]) <= MaxEnd(phs)
  {
  }

  /** The place a load reports: the buffer, as long as from the least start to the greatest
      end, with the entry as far from the buffer as it was from that start. */
  ghost predicate IsPlaced(phs: seq<Phdr>, entry: nat, base: nat, r: Outcome)
    requires r.Loaded?
  {
    exists a: nat, z: nat :: IsLeastStart(phs, a) && IsGreatestEnd(phs, z) &&
      r.base == base && r.size == z - a && (r.entry - base) % TWO_64 == (entry - a) % TWO_64
  }

  /** A file of well-formed segments never panics, and loads exactly when it has a segment
      to load, the buffer holds the span and every segment's bytes are in the file. Then the
      entry keeps its distance from the start, modulo 2^64. */
  lemma LoadsExactlyWhen(dataLen: nat, bufLen: nat, phs: seq<Phdr>, entry: nat, base: nat)
    requires AreSegments(phs) && entry < TWO_64 && base < TWO_64
    ensures var r := SegmentsVerdict(dataLen, bufLen, phs, entry, base);
            && (r.Loaded? || r == Failed(BadPhdr))
            && (r.Loaded? <==> MinVaddr(phs) < U64_MAX && Span(phs) <= bufLen && InFile(dataLen, phs, 0))
            && (r.Loaded? ==> IsPlaced(phs, entry, base, r))
  {
    if Span(phs) <= bufLen {
      CopiesExactlyWhen(dataLen, bufLen, phs, 0);
    }
    if MinVaddr(phs) < U64_MAX {
      Placed(phs, entry, base);
    }
  }

  lemma Placed(phs: seq<Phdr>, entry: nat, base: nat)
    requires AreSegments(phs) && entry < TWO_64 && base < TWO_64 && MinVaddr(phs) < U64_MAX
    ensures IsPlaced(phs, entry, base,
                     Loaded((entry + (base + TWO_64 - MinVaddr(phs)) % TWO_64) % TWO_64, base, Span(phs)))
  {
    hide MinVaddr, MaxEnd, Span, AreSegments, IsGreatestEnd, IsPlaced;
    MinAttained(phs);
    SpanEnds(phs);
    SpanIsDistance(phs);
    ModuloKept(entry, base, MinVaddr(phs));
    PlacedAt(phs, MinVaddr(phs), MaxEnd(phs), entry, base,
             Loaded((entry + (base + TWO_64 - MinVaddr(phs)) % TWO_64) % TWO_64, base, Span(phs)));
  }

  lemma SpanIsDistance(phs: seq<Phdr>)
    requires AreSegments(phs) && IsLeastStart(phs, MinVaddr(phs))
    ensures Span(phs) == MaxEnd(phs) - MinVaddr(phs)
  {
    var k :| 0 <= k < |phs| && phs[k].kind == PT_LOAD;
    SegmentWithinSpan(phs, k);
  }

  lemma PlacedAt(phs: seq<Phdr>, a: nat, z: nat, entry: nat, base: nat, r: Outcome)
    requires IsLeastStart(phs, a) && IsGreatestEnd(phs, z) && r.Loaded?
    requires r.base == base && r.size == z - a && (r.entry - base) % TWO_64 == (entry - a) % TWO_64
    ensures IsPlaced(phs, entry, base, r)
  {
    hide IsLeastStart, IsGreatestEnd;
  }

  lemma ModuloKept(e: nat, b: nat, m: nat)
    requires e < TWO_64 && b < TWO_64 && m < TWO_64
    ensures ((e + (b + TWO_64 - m) % TWO_64) % TWO_64 - b) % TWO_64 == (e - m) % TWO_64
  {
  }

  /** The file part of segment p has a byte for address v. */
  ghost predicate HoldsAddress(p: Phdr, v: nat) {
    p.kind == PT_LOAD && p.vaddr <= v < p.vaddr + p.filesz
  }

  lemma EndsAreUnique(phs: seq<Phdr>, a: nat, z: nat)
    requires AreSegments(phs) && IsLeastStart(phs, a) && IsGreatestEnd(phs, z)
    ensures a == MinVaddr(phs) && z == MaxEnd(phs) && Span(phs) == z - a
  {
    MinAttained(phs);
    SpanEnds(phs);
    SpanIsDistance(phs);
  }

  lemma CoversIsHolds(phs: seq<Phdr>, a: nat, v: nat)
    requires a == MinVaddr(phs) && a <= v
    ensures forall k :: 0 <= k < |phs| ==> (Covers(phs, phs[k], v - a) <==> HoldsAddress(phs[k], v))
  {
  }

  /** The image of a well-formed file, loaded from its least start a to its greatest end z:
      the byte for address v lies v - a into the buffer, and is the file's byte for v in the
      last segment that has one, or zero; and the buffer behind the image is as it was. */
  lemma ImageIsExact(data: seq<Byte>, phs: seq<Phdr>, was: seq<Byte>, now: seq<Byte>, a: nat, z: nat, v: nat)
    requires AreSegments(phs) && InFile(|data|, phs, 0) && ImageAfter(data, phs, |phs|, was, now)
    requires IsLeastStart(phs, a) && IsGreatestEnd(phs, z) && a <= v < a + |was|
    ensures |now| == |was| && (v >= z ==> now[v - a] == was[v - a])
    ensures forall k: nat ::
      k < |phs| && HoldsAddress(phs[k], v) && (forall j: nat :: k < j < |phs| ==> !HoldsAddress(phs[j], v)) ==>
        var at := phs[k].offset + (v - phs[k].vaddr);
        at < |data| && now[v - a] == data[at]
    ensures v < z && (forall k: nat :: k < |phs| ==> !HoldsAddress(phs[k], v)) ==> now[v - a] == 0
  {
    hide MinVaddr, MaxEnd, Span, IsLeastStart, IsGreatestEnd;
    EndsAreUnique(phs, a, z);
    CoversIsHolds(phs, a, v);
    assert now[v - a] == ByteAfter(data, phs, |phs|, was, v - a);
    match LastCover(phs, |phs|, v - a) {
      case Some(k) =>
        SegmentWithinSpan(phs, k);
      case None =>
    }
  }

  /** Copies that all go well stay within the file and the buffer. */
  lemma {:induction false} CopiesInBounds(dataLen: nat, bufLen: nat, phs: seq<Phdr>, k: nat, j: nat)
    requires ArePhdrs(phs) && k <= j < |phs| && phs[j].kind == PT_LOAD && CopiesVerdict(dataLen, bufLen, phs, k).None?
    ensures phs[j].offset + phs[j].filesz <= dataLen && Dst(phs, phs[j]) + phs[j].filesz <= bufLen
    decreases j - k
  {
    if k == j {
      CopyInBounds(dataLen, bufLen, phs[j], Dst(phs, phs[j]));
    } else {
      CopiesInBounds(dataLen, bufLen, phs, k + 1, j);
    }
  }

  /** Whatever the file's bytes and the buffer's old contents, what was behind the image is
      still there after the load. */
  ghost predicate KeepsBehind(dataLen: nat, bufLen: nat, phs: seq<Phdr>) {
    forall data: seq<Byte>, was: seq<Byte>, now: seq<Byte>, i: nat ::
      |data| == dataLen && |was| == bufLen && ImageAfter(data, phs, |phs|, was, now) && Span(phs) <= i < |now| ==>
          now[i] == was[i]
  }

  /** Every segment's file part ends within the span. */
  ghost predicate FilePartsInSpan(phs: seq<Phdr>) {
    forall k: nat :: k < |phs| && phs[k].kind == PT_LOAD && phs[k].filesz > 0 ==>
        Dst(phs, phs[k]) + phs[k].filesz <= Span(phs)
  }

  /** A load that succeeds leaves the buffer behind the image as it was exactly when every
      segment's file part ends within the span. */
  lemma BehindIsSafeExactlyWhen(dataLen: nat, bufLen: nat, phs: seq<Phdr>, entry: nat, base: nat)
    requires ArePhdrs(phs) && SegmentsVerdict(dataLen, bufLen, phs, entry, base).Loaded?
    ensures KeepsBehind(dataLen, bufLen, phs) <==> FilePartsInSpan(phs)
  {
    if FilePartsInSpan(phs) {
      forall data: seq<Byte>, was: seq<Byte>, now: seq<Byte>, i: nat
        | |data| == dataLen && |was| == bufLen && ImageAfter(data, phs, |phs|, was, now) && Span(phs) <= i < |now|
        ensures now[i] == was[i]
      {
        assert now[i] == ByteAfter(data, phs, |phs|, was, i);
      }
    } else {
      var k: nat :| k < |phs| && phs[k].kind == PT_LOAD && phs[k].filesz > 0 &&
          Dst(phs, phs[k]) + phs[k].filesz > Span(phs);
      SpillShows(dataLen, bufLen, phs, k);
    }
  }

  /** A file of ones, loaded into a buffer of zeros, shows the spill of segment k. */
  lemma SpillShows(dataLen: nat, bufLen: nat, phs: seq<Phdr>, k: nat)
    requires ArePhdrs(phs) && CopiesVerdict(dataLen, bufLen, phs, 0).None?
    requires k < |phs| && phs[k].kind == PT_LOAD && phs[k].filesz > 0 && Dst(phs, phs[k]) + phs[k].filesz > Span(phs)
    ensures !KeepsBehind(dataLen, bufLen, phs)
  {
    var data: seq<Byte>, was: seq<Byte> := seq(dataLen, j => 1), Zeros(bufLen);
    var now: seq<Byte> := seq(bufLen, j requires 0 <= j < |was| => ByteAfter(data, phs, |phs|, was, j));
    var i: nat := Dst(phs, phs[k]) + phs[k].filesz - 1;
    CopiesInBounds(dataLen, bufLen, phs, 0, k);
    assert Covers(phs, phs[k], i);
    var last := LastCover(phs, |phs|, i).value;
    CopiesInBounds(dataLen, bufLen, phs, 0, last);
    assert ImageAfter(data, phs, |phs|, was, now);
    assert now[i] == ByteAfter(data, phs, |phs|, was, i) == 1;
  }

  /** Without the size condition the buffer behind the image is not safe: a segment with more
      bytes in the file than in memory is copied whole. */
  lemma OversizeSpills()
    ensures var data, phs, was := [7, 7], [Phdr(PT_LOAD, 0, 0, 2, 1)], [1, 1];
            && SegmentsVerdict(|data|, |was|, phs, 0, 0) == Loaded(0, 0, 1)
            && ByteAfter(data, phs, 1, was, 1) == 7 && Span(phs) == 1
  {
    var phs := [Phdr(PT_LOAD, 0, 0, 2, 1)];
    assert phs[..0] == [];
    assert MinVaddr(phs) == 0 && MaxEnd(phs) == 1;
    assert CopiesVerdict(2, 2, phs, 1) == None;
    assert LastCover(phs, 1, 1) == Some(0);
  }
}
