/** The initial ramdisk: a ustar archive in memory, src/kern/fs/initrd.rs. Names are byte
    strings; text says which of them are valid UTF-8. */
module Tar {
  import opened Prelude
  import opened ByteStrings

  const MAX_ENTRIES: nat := 64
  const RECORD: nat := 512
  const NAME_FIELD: nat := 100
  const SIZE_AT: nat := 124
  const TYPE_AT: nat := 156
  const PREFIX_AT: nat := 345
  const PREFIX_FIELD: nat := 155
  const SPACE: Byte := 32
  const ZERO_DIGIT: Byte := 48
  const DIR_TYPE: Byte := 53

  datatype Entry = Entry(name: seq<Byte>, data: seq<Byte>, isDir: bool)

  /** The table of entries: the first count places are filled. */
  datatype TarFs = TarFs(entries: seq<Option<Entry>>, count: nat)

  ghost predicate IsTarFs(fs: TarFs) {
    && |fs.entries| == MAX_ENTRIES && fs.count <= MAX_ENTRIES
    && forall i :: 0 <= i < MAX_ENTRIES ==> (fs.entries[i].Some? <==> i < fs.count)
  }

  ghost function Contents(fs: TarFs): seq<Entry>
    requires IsTarFs(fs)
  {
    seq(fs.count, i requires 0 <= i < fs.count => fs.entries[i].value)
  }

  /** `parse` gives a table, or nothing for a name that is not text; it panics on an entry
      whose data runs past the archive. */
  datatype Parsed<T> = Ok(value: T) | NotText | Panicked

  // ---------------------------------------------------------------- fields

  predicate EndsNumber(b: Byte) {
    b == 0 || b == SPACE
  }

  /** b - b'0' in 8 bits. */
  function Digit(b: Byte): nat {
    (b + 256 - ZERO_DIGIT) % 256
  }

  /** The value of the digits up to a NUL or a space, in front of which acc has been read. */
  function OctalValue(s: seq<Byte>, acc: nat): nat
    decreases |s|
  {
    if s == [] || EndsNumber(s[0]) then acc else OctalValue(s[1..], acc * 8 + Digit(s[0]))
  }

  /** `parse_octal`. */
  method ParseOctal(data: seq<Byte>) returns (val: nat)
    ensures val == OctalValue(data, 0)
  {
    val := 0;
    for i := 0 to |data|
      invariant OctalValue(data, 0) == OctalValue(data[i..], val)
    {
      if EndsNumber(data[i]) {
        break;
      }
      assert data[i..][1..] == data[i + 1..];
      val := val * 8 + Digit(data[i]);
    }
  }

  /** 8 to the power n. */
  function Pow8(n: nat): nat {
    if n == 0 then 1 else 8 * Pow8(n - 1)
  }

  /** v written in n octal digits. */
  function Octal(v: nat, n: nat): (s: seq<Byte>)
    ensures |s| == n
    decreases n
  {
    if n == 0 then [] else Octal(v / 8, n - 1) + [ZERO_DIGIT + v % 8]
  }

  lemma Horner(acc: nat, p: nat, v: nat)
    ensures (acc * p + v / 8) * 8 + v % 8 == acc * (8 * p) + v
  {
  }

  lemma OneDigit(d: nat, tail: seq<Byte>, acc: nat)
    requires d < 8
    ensures OctalValue([ZERO_DIGIT + d] + tail, acc) == OctalValue(tail, acc * 8 + d)
  {
    var s := [ZERO_DIGIT + d] + tail;
    assert s[1..] == tail;
  }

  lemma {:induction false} OctalReadsBack(v: nat, n: nat, tail: seq<Byte>, acc: nat)
    requires v < Pow8(n)
    ensures OctalValue(Octal(v, n) + tail, acc) == OctalValue(tail, acc * Pow8(n) + v)
    decreases n
  {
    if n == 0 {
      assert Octal(v, n) + tail == tail;
    } else {
      hide OctalValue;
      var d: seq<Byte> := [ZERO_DIGIT + v % 8];
      OctalReadsBack(v / 8, n - 1, d + tail, acc);
      assert Octal(v, n) + tail == Octal(v / 8, n - 1) + (d + tail);
      OneDigit(v % 8, tail, acc * Pow8(n - 1) + v / 8);
      Horner(acc, Pow8(n - 1), v);
    }
  }

  lemma OctalEnds(s: seq<Byte>, acc: nat)
    requires s != [] && EndsNumber(s[0])
    ensures OctalValue(s, acc) == acc
  {
  }

  /** The bytes in front of the first NUL. */
  function UpToNul(s: seq<Byte>): (n: nat)
    ensures n <= |s| && (forall i :: 0 <= i < n ==> s[i] != 0) && (n < |s| ==> s[n] == 0)
  {
    if s == [] || s[0] == 0 then 0 else 1 + UpToNul(s[1..])
  }

  /** `trim_start_matches("./")`. */
  function TrimDots(name: seq<Byte>): seq<Byte> {
    if |name| >= 2 && name[0] == DOT && name[1] == SLASH then TrimDots(name[2..]) else name
  }

  /** `trim_end_matches('/')`. */
  function TrimEnd(name: seq<Byte>): seq<Byte> {
    if name != [] && name[|name| - 1] == SLASH then TrimEnd(name[..|name| - 1]) else name
  }

  predicate EndsInSlash(name: seq<Byte>) {
    name != [] && name[|name| - 1] == SLASH
  }

  /** The bytes after size bytes of data, up to the next record. */
  function Padded(size: nat): (p: nat)
    ensures size <= p < size + RECORD && p % RECORD == 0
  {
    (size + 511) / RECORD * RECORD
  }

  // ---------------------------------------------------------------- parse

  function RawName(a: seq<Byte>, off: nat): seq<Byte>
    requires off + RECORD <= |a|
  {
    var field := Part(a, off, NAME_FIELD);
    field[..UpToNul(field)]
  }

  function SizeField(a: seq<Byte>, off: nat): nat
    requires off + RECORD <= |a|
  {
    OctalValue(Part(a, off + SIZE_AT, 12), 0)
  }

  /** What one header record says; an empty name is passed over. */
  datatype Head = Head(name: seq<Byte>, isDir: bool, size: nat)

  function HeadAt(a: seq<Byte>, off: nat): Head
    requires off + RECORD <= |a|
  {
    var name := TrimDots(RawName(a, off));
    var isDir := name != [] && (a[off + TYPE_AT] == DIR_TYPE || EndsInSlash(name));
    Head(name, isDir, if isDir then 0 else SizeField(a, off))
  }

  function Prepend(es: seq<Entry>, p: Parsed<seq<Entry>>): Parsed<seq<Entry>> {
    if p.Ok? then Ok(es + p.value) else p
  }

  /** The entries from off on, at most room of them. */
  function ParseFrom(text: seq<Byte> -> bool, a: seq<Byte>, off: nat, room: nat): Parsed<seq<Entry>>
    decreases if off <= |a| then |a| - off else 0
  {
    if off + RECORD > |a| || room == 0 || a[off] == 0 then Ok([])
    else if !text(RawName(a, off)) then NotText
    else
      var h, start := HeadAt(a, off), off + RECORD;
      if h.name == [] then ParseFrom(text, a, start + Padded(h.size), room)
      else if start + h.size > |a| then Panicked
      else Prepend([Entry(h.name, Part(a, start, h.size), h.isDir)],
          ParseFrom(text, a, start + Padded(h.size), room - 1))
  }

  lemma PrependNothing(p: Parsed<seq<Entry>>)
    ensures Prepend([], p) == p
  {
    if p.Ok? {
      assert [] + p.value == p.value;
    }
  }

  lemma PrependTwice(es: seq<Entry>, e: Entry, p: Parsed<seq<Entry>>)
    ensures Prepend(es, Prepend([e], p)) == Prepend(es + [e], p)
  {
    if p.Ok? {
      assert es + ([e] + p.value) == es + [e] + p.value;
    }
  }

  /** The header fields, read as `parse` reads them. */
  method ReadHead(a: seq<Byte>, off: nat) returns (h: Head)
    requires off + RECORD <= |a|
    ensures h == HeadAt(a, off)
  {
    var name := TrimDots(RawName(a, off));
    if name == [] {
      var skip := ParseOctal(Part(a, off + SIZE_AT, 12));
      return Head(name, false, skip);
    }
    var isDir := a[off + TYPE_AT] == DIR_TYPE || EndsInSlash(name);
    var size := 0;
    if !isDir {
      size := ParseOctal(Part(a, off + SIZE_AT, 12));
    }
    return Head(name, isDir, size);
  }

  /** One round of the parser. */
  lemma ParseStep(text: seq<Byte> -> bool, a: seq<Byte>, off: nat, room: nat, h: Head)
    requires off + RECORD <= |a| && room > 0 && a[off] != 0 && text(RawName(a, off))
    requires h == HeadAt(a, off) && off + RECORD + h.size <= |a|
    ensures var start, next := off + RECORD, off + RECORD + Padded(h.size);
            ParseFrom(text, a, off, room) ==
            if h.name == [] then ParseFrom(text, a, next, room)
            else Prepend([Entry(h.name, Part(a, start, h.size), h.isDir)], ParseFrom(text, a, next, room - 1))
  {
  }

  /** The places of the table: es first, the rest empty. */
  ghost predicate IsTableOf(entries: seq<Option<Entry>>, es: seq<Entry>) {
    && |entries| == MAX_ENTRIES && |es| <= MAX_ENTRIES
    && forall i :: 0 <= i < MAX_ENTRIES ==> entries[i] == if i < |es| then Some(es[i]) else None
  }

  lemma TableAppend(entries: seq<Option<Entry>>, es: seq<Entry>, e: Entry)
    requires IsTableOf(entries, es) && |es| < MAX_ENTRIES
    ensures IsTableOf(entries[|es| := Some(e)], es + [e])
  {
  }

  lemma TableContents(entries: seq<Option<Entry>>, es: seq<Entry>)
    requires IsTableOf(entries, es)
    ensures IsTarFs(TarFs(entries, |es|)) && Contents(TarFs(entries, |es|)) == es
  {
  }

  /** The entries found so far, and what the rest of the archive gives. */
  ghost function Total(text: seq<Byte> -> bool, a: seq<Byte>, off: nat, es: seq<Entry>): Parsed<seq<Entry>>
    requires |es| <= MAX_ENTRIES
  {
    Prepend(es, ParseFrom(text, a, off, MAX_ENTRIES - |es|))
  }

  lemma TotalStep(text: seq<Byte> -> bool, a: seq<Byte>, off: nat, es: seq<Entry>, h: Head)
    requires off + RECORD <= |a| && |es| < MAX_ENTRIES && a[off] != 0 && text(RawName(a, off)) && h == HeadAt(a, off)
    ensures h.name == [] ==> Total(text, a, off, es) == Total(text, a, off + RECORD + Padded(h.size), es)
    ensures h.name != [] && off + RECORD + h.size <= |a| ==>
              Total(text, a, off, es)
              == Total(text, a, off + RECORD + Padded(h.size),
                  es + [Entry(h.name, Part(a, off + RECORD, h.size), h.isDir)])
    ensures h.name != [] && off + RECORD + h.size > |a| ==> Total(text, a, off, es) == Panicked
  {
    if h.name != [] && off + RECORD + h.size <= |a| {
      var next := off + RECORD + Padded(h.size);
      ParseStep(text, a, off, MAX_ENTRIES - |es|, h);
      PrependTwice(es, Entry(h.name, Part(a, off + RECORD, h.size), h.isDir),
          ParseFrom(text, a, next, MAX_ENTRIES - |es| - 1));
    }
  }

  lemma TotalEnd(text: seq<Byte> -> bool, a: seq<Byte>, off: nat, es: seq<Entry>)
    requires |es| <= MAX_ENTRIES && (off + RECORD > |a| || |es| == MAX_ENTRIES || a[off] == 0)
    ensures Total(text, a, off, es) == Ok(es)
  {
    assert es + [] == es;
  }

  lemma TotalNotText(text: seq<Byte> -> bool, a: seq<Byte>, off: nat, es: seq<Entry>)
    requires off + RECORD <= |a| && |es| < MAX_ENTRIES && a[off] != 0 && !text(RawName(a, off))
    ensures Total(text, a, off, es) == NotText
  {
  }

  /** `TarFs::parse`. */
  method Parse(text: seq<Byte> -> bool, archive: seq<Byte>) returns (r: Parsed<TarFs>)
    ensures match ParseFrom(text, archive, 0, MAX_ENTRIES)
            case Ok(es) => r.Ok? && IsTarFs(r.value) && Contents(r.value) == es
            case NotText => r == NotText
            case Panicked => r == Panicked
  {
    hide ParseFrom, HeadAt, RawName, Prepend;
    var entries := new Option<Entry>[MAX_ENTRIES](i => None);
    var count, offset := 0, 0;
    ghost var es: seq<Entry> := [];
    PrependNothing(ParseFrom(text, archive, 0, MAX_ENTRIES));
    while offset + RECORD <= |archive| && count < MAX_ENTRIES
      invariant count == |es| && IsTableOf(entries[..], es)
      invariant ParseFrom(text, archive, 0, MAX_ENTRIES) == Total(text, archive, offset, es)
      decreases |archive| - offset
    {
      if archive[offset] == 0 {
        break;
      }
      if !text(RawName(archive, offset)) {
        TotalNotText(text, archive, offset, es);
        return NotText;
      }
      var h := ReadHead(archive, offset);
      var start := offset + RECORD;
      TotalStep(text, archive, offset, es, h);
      if h.name == [] {
        offset := start + Padded(h.size);
        continue;
      }
      if start + h.size > |archive| {
        return Panicked;
      }
      var e := Entry(h.name, Part(archive, start, h.size), h.isDir);
      TableAppend(entries[..], es, e);
      entries[count] := Some(e);
      count, es, offset := count + 1, es + [e], start + Padded(h.size);
    }
    TotalEnd(text, archive, offset, es);
    TableContents(entries[..], es);
    return Ok(TarFs(entries[..], count));
  }

  // ---------------------------------------------------------------- find and read

  ghost predicate Matches(e: Entry, path: seq<Byte>) {
    TrimEnd(e.name) == TrimSlashes(path)
  }

  /** k is the first entry with that path. */
  ghost predicate FirstMatch(es: seq<Entry>, path: seq<Byte>, k: nat) {
    k < |es| && Matches(es[k], path) && forall j :: 0 <= j < k ==> !Matches(es[j], path)
  }

  ghost predicate NoMatch(es: seq<Entry>, path: seq<Byte>) {
    forall j :: 0 <= j < |es| ==> !Matches(es[j], path)
  }

  /** `find`. */
  method Find(fs: TarFs, path: seq<Byte>) returns (r: Option<Entry>, ghost at: nat)
    requires IsTarFs(fs)
    ensures r.None? ==> NoMatch(Contents(fs), path)
    ensures r.Some? ==> FirstMatch(Contents(fs), path, at) && r.value == Contents(fs)[at]
  {
    var wanted := TrimSlashes(path);
    at := 0;
    for i := 0 to fs.count
      invariant forall j :: 0 <= j < i ==> !Matches(Contents(fs)[j], path)
    {
      if fs.entries[i].Some? {
        if TrimEnd(fs.entries[i].value.name) == wanted {
          return fs.entries[i], i;
        }
      }
    }
    return None, 0;
  }

  /** `read`: the data of the first entry with that path, nothing for a directory. */
  method Read(fs: TarFs, path: seq<Byte>) returns (r: Option<seq<Byte>>)
    requires IsTarFs(fs)
    ensures NoMatch(Contents(fs), path) ==> r == None
    ensures forall k: nat :: FirstMatch(Contents(fs), path, k) ==>
              r == if Contents(fs)[k].isDir then None else Some(Contents(fs)[k].data)
  {
    ghost var at;
    var e;
    e, at := Find(fs, path);
    if e.None? {
      return None;
    }
    assert forall k: nat :: FirstMatch(Contents(fs), path, k) ==> k == at;
    if e.value.isDir {
      return None;
    }
    return Some(e.value.data);
  }

  // ---------------------------------------------------------------- archives

  /** A member as it is put in an archive: its header record (POSIX pax, "ustar Interchange
      Format"; the parser reads its name, size and type), its data, and padding. */
  datatype Member = Member(header: seq<Byte>, name: seq<Byte>, data: seq<Byte>, digits: nat, pad: seq<Byte>)

  ghost predicate IsDirMember(m: Member)
    requires |m.header| == RECORD
  {
    m.header[TYPE_AT] == DIR_TYPE || EndsInSlash(TrimDots(m.name))
  }

  /** The prefix field, up to a NUL; the parser does not read it. */
  ghost function Prefix(m: Member): seq<Byte>
    requires |m.header| == RECORD
  {
    var field := Part(m.header, PREFIX_AT, PREFIX_FIELD);
    field[..UpToNul(field)]
  }

  /** The path the format gives a member: the prefix, if there is one, a slash, and the name. */
  ghost function FullPath(m: Member): seq<Byte>
    requires |m.header| == RECORD
  {
    if Prefix(m) == [] then m.name else Prefix(m) + [SLASH] + m.name
  }

  /** The name fills the start of its field, up to a NUL; the size is in octal digits, ended by
      a NUL or a space; directories have no data. */
  ghost predicate IsMember(text: seq<Byte> -> bool, m: Member) {
    && |m.header| == RECORD
    && 0 < |m.name| <= NAME_FIELD && (forall i :: 0 <= i < |m.name| ==> m.name[i] != 0) && text(m.name)
    && m.header[..|m.name|] == m.name && (|m.name| < NAME_FIELD ==> m.header[|m.name|] == 0)
    && m.digits <= 11 && |m.data| < Pow8(m.digits)
    && Part(m.header, SIZE_AT, m.digits) == Octal(|m.data|, m.digits) && m.header[SIZE_AT + m.digits] in {0, 32}
    && (IsDirMember(m) ==> m.data == [])
    && |m.data| + |m.pad| == Padded(|m.data|)
  }

  ghost predicate AreMembers(text: seq<Byte> -> bool, ms: seq<Member>) {
    forall i :: 0 <= i < |ms| ==> IsMember(text, ms[i])
  }

  ghost function MemberBytes(m: Member): seq<Byte> {
    m.header + m.data + m.pad
  }

  ghost function ArchiveBytes(ms: seq<Member>): seq<Byte> {
    if ms == [] then [] else MemberBytes(ms[0]) + ArchiveBytes(ms[1..])
  }

  /** The entries the members stand for: those whose name is not empty without its "./". */
  ghost function Expected(ms: seq<Member>): seq<Entry> {
    if ms == [] then []
    else (if TrimDots(ms[0].name) == [] || |ms[0].header| != RECORD then []
          else [Entry(TrimDots(ms[0].name), ms[0].data, IsDirMember(ms[0]))]) + Expected(ms[1..])
  }

  function UpTo<T>(s: seq<T>, n: nat): seq<T> {
    if |s| <= n then s else s[..n]
  }

  lemma UpToNulIs(s: seq<Byte>, n: nat)
    requires n <= |s| && (forall i :: 0 <= i < n ==> s[i] != 0) && (n < |s| ==> s[n] == 0)
    ensures UpToNul(s) == n
  {
  }

  lemma MemberName(text: seq<Byte> -> bool, a: seq<Byte>, off: nat, m: Member)
    requires IsMember(text, m) && off + RECORD <= |a| && Holds(a, off, m.header)
    ensures RawName(a, off) == m.name && a[off] != 0
  {
    var field := Part(a, off, NAME_FIELD);
    HoldsPart(a, off, m.header, 0, NAME_FIELD);
    assert m.name[0] == m.header[..|m.name|][0];
    forall i | 0 <= i < |m.name| ensures field[i] == m.name[i] {
      assert m.header[..|m.name|][i] == m.name[i];
    }
    UpToNulIs(field, |m.name|);
    assert field[..|m.name|] == m.name;
    assert m.header[0] == m.name[0] && a[off + 0] == m.header[0];
  }

  lemma MemberType(a: seq<Byte>, off: nat, m: Member)
    requires |m.header| == RECORD && off + RECORD <= |a| && Holds(a, off, m.header)
    ensures a[off + TYPE_AT] == m.header[TYPE_AT]
  {
  }

  lemma MemberSize(text: seq<Byte> -> bool, a: seq<Byte>, off: nat, m: Member)
    requires IsMember(text, m) && off + RECORD <= |a| && Holds(a, off, m.header)
    ensures SizeField(a, off) == |m.data|
  {
    HoldsPart(a, off, m.header, SIZE_AT, 12);
    SizeReadsBack(m.header, m.digits, |m.data|);
  }

  lemma SizeReadsBack(header: seq<Byte>, n: nat, size: nat)
    requires |header| == RECORD && n <= 11 && size < Pow8(n)
    requires Part(header, SIZE_AT, n) == Octal(size, n) && EndsNumber(header[SIZE_AT + n])
    ensures OctalValue(Part(header, SIZE_AT, 12), 0) == size
  {
    hide OctalValue, Octal, Pow8;
    var field := Part(header, SIZE_AT, 12);
    assert field[..n] == Part(header, SIZE_AT, n);
    assert field == Octal(size, n) + field[n..];
    OctalReadsBack(size, n, field[n..], 0);
    OctalEnds(field[n..], size);
  }

  /** A member is read as its entry, and the next record is where the next member starts. */
  lemma MemberReadsBack(text: seq<Byte> -> bool, a: seq<Byte>, off: nat, m: Member, rest: seq<Byte>)
    requires IsMember(text, m) && Holds(a, off, MemberBytes(m) + rest)
    ensures off + RECORD + |m.data| <= |a| && a[off] != 0 && RawName(a, off) == m.name && text(m.name)
    ensures var h := HeadAt(a, off);
            && h.size == |m.data| && h.name == TrimDots(m.name)
            && (h.name != [] ==> h.isDir == IsDirMember(m))
    ensures Part(a, off + RECORD, |m.data|) == m.data && Holds(a, off + RECORD + Padded(|m.data|), rest)
  {
    hide OctalValue, Octal, Pow8, UpToNul, RawName, SizeField;
    HoldsSplit(a, off, MemberBytes(m), rest);
    HoldsSplit(a, off, m.header + m.data, m.pad);
    HoldsSplit(a, off, m.header, m.data);
    MemberName(text, a, off, m);
    MemberSize(text, a, off, m);
    MemberType(a, off, m);
    HoldsPart(a, off + RECORD, m.data, 0, |m.data|);
    assert Part(m.data, 0, |m.data|) == m.data;
  }

  /** A member is read under its full path, but for the "./" in front, exactly when its prefix
      is empty or nothing but "./" too. */
  lemma FullPathExactlyWhen(text: seq<Byte> -> bool, a: seq<Byte>, off: nat, m: Member, rest: seq<Byte>)
    requires IsMember(text, m) && Holds(a, off, MemberBytes(m) + rest)
    ensures off + RECORD <= |a|
    ensures HeadAt(a, off).name == TrimDots(FullPath(m)) <==> Prefix(m) == [] || TrimDots(Prefix(m) + [SLASH]) == []
  {
    hide HeadAt, UpToNul, OctalValue, Octal, Pow8;
    MemberReadsBack(text, a, off, m, rest);
    TrimDotsOfJoin(Prefix(m) + [SLASH], m.name);
    TrimDotsShortens(m.name);
  }

  lemma {:induction false} TrimDotsShortens(x: seq<Byte>)
    ensures |TrimDots(x)| <= |x|
  {
    if |x| >= 2 && x[0] == DOT && x[1] == SLASH {
      TrimDotsShortens(x[2..]);
    } else {
      assert TrimDots(x) == x;
    }
  }

  /** Behind a slash, "./" is removed only when all that is in front of it is. */
  lemma {:induction false} TrimDotsOfJoin(x: seq<Byte>, y: seq<Byte>)
    requires x == [] || x[|x| - 1] == SLASH
    ensures TrimDots(x + y) == if TrimDots(x) == [] then TrimDots(y) else TrimDots(x) + y
  {
    if x == [] {
      assert x + y == y;
    } else if |x| >= 2 && x[0] == DOT && x[1] == SLASH {
      assert (x + y)[2..] == x[2..] + y;
      TrimDotsOfJoin(x[2..], y);
    } else {
      assert (x + y)[0] == x[0] && TrimDots(x + y) == x + y;
    }
  }

  /** An archive that ends inside a member's data is not refused: the parser panics. */
  lemma TruncatedPanics(text: seq<Byte> -> bool, a: seq<Byte>, off: nat, room: nat, m: Member)
    requires IsMember(text, m) && !IsDirMember(m) && TrimDots(m.name) != [] && room > 0
    requires Holds(a, off, m.header) && off + RECORD <= |a| < off + RECORD + |m.data|
    ensures ParseFrom(text, a, off, room) == Panicked
  {
    hide OctalValue, Octal, Pow8, UpToNul;
    MemberName(text, a, off, m);
    MemberSize(text, a, off, m);
    MemberType(a, off, m);
  }

  /** Where the members end: too little is left for a record, or the next one starts with NUL. */
  ghost predicate IsEnd(tail: seq<Byte>) {
    |tail| < RECORD || tail[0] == 0
  }

  /** One round over a member. */
  lemma ParseMember(text: seq<Byte> -> bool, a: seq<Byte>, off: nat, room: nat, m: Member, rest: seq<Byte>)
    requires IsMember(text, m) && Holds(a, off, MemberBytes(m) + rest) && room > 0
    ensures Holds(a, off + RECORD + Padded(|m.data|), rest)
    ensures var name, next := TrimDots(m.name), off + RECORD + Padded(|m.data|);
            ParseFrom(text, a, off, room) ==
            if name == [] then ParseFrom(text, a, next, room)
            else Prepend([Entry(name, m.data, IsDirMember(m))], ParseFrom(text, a, next, room - 1))
  {
    hide ParseFrom, HeadAt, RawName, IsMember, Holds, MemberBytes;
    MemberReadsBack(text, a, off, m, rest);
    ParseStep(text, a, off, room, HeadAt(a, off));
  }

  lemma ExpectedStep(ms: seq<Member>, room: nat)
    requires ms != [] && |ms[0].header| == RECORD && room > 0
    ensures var m, more := ms[0], Expected(ms[1..]);
            UpTo(Expected(ms), room) ==
            if TrimDots(m.name) == [] then UpTo(more, room)
            else [Entry(TrimDots(m.name), m.data, IsDirMember(m))] + UpTo(more, room - 1)
  {
  }

  lemma ParseEnd(text: seq<Byte> -> bool, a: seq<Byte>, off: nat, room: nat, tail: seq<Byte>)
    requires room == 0 || (IsEnd(tail) && Holds(a, off, tail) && off + |tail| == |a|)
    ensures ParseFrom(text, a, off, room) == Ok([])
  {
    assert room > 0 && |tail| >= RECORD ==> a[off + 0] == tail[0];
  }

  lemma ArchiveStep(ms: seq<Member>, tail: seq<Byte>)
    requires ms != []
    ensures ArchiveBytes(ms) + tail == MemberBytes(ms[0]) + (ArchiveBytes(ms[1..]) + tail)
  {
  }

  /** An archive of legal members parses to the entries they stand for, in order, as many as
      there is room for. */
  lemma {:induction false} ParseReadsBack(text: seq<Byte> -> bool, a: seq<Byte>, off: nat, room: nat, ms: seq<Member>,
      tail: seq<Byte>)
    requires AreMembers(text, ms) && IsEnd(tail)
    requires Holds(a, off, ArchiveBytes(ms) + tail) && off + |ArchiveBytes(ms) + tail| == |a|
    ensures ParseFrom(text, a, off, room) == Ok(UpTo(Expected(ms), room))
    decreases |ms|, 0
  {
    if room == 0 {
      ParseEnd(text, a, off, room, tail);
    } else if ms == [] {
      assert ArchiveBytes(ms) + tail == tail;
      ParseEnd(text, a, off, room, tail);
    } else {
      ArchiveStep(ms, tail);
      assert |MemberBytes(ms[0])| == RECORD + Padded(|ms[0].data|);
      ParseOneMore(text, a, off, room, ms[0], ms[1..], tail);
      ExpectedStep(ms, room);
    }
  }

  lemma {:induction false} ParseOneMore(text: seq<Byte> -> bool, a: seq<Byte>, off: nat, room: nat, m: Member,
      ms: seq<Member>, tail: seq<Byte>)
    requires AreMembers(text, ms) && IsMember(text, m) && IsEnd(tail) && room > 0
    requires Holds(a, off, MemberBytes(m) + (ArchiveBytes(ms) + tail)) &&
        off + RECORD + Padded(|m.data|) + |ArchiveBytes(ms) + tail| == |a|
    ensures ParseFrom(text, a, off, room) ==
            if TrimDots(m.name) == [] then Ok(UpTo(Expected(ms), room))
            else Ok([Entry(TrimDots(m.name), m.data, IsDirMember(m))] + UpTo(Expected(ms), room - 1))
    decreases |ms|, 1
  {
    hide ParseFrom, Holds, MemberBytes, ArchiveBytes, Expected, IsMember;
    var next, left := off + RECORD + Padded(|m.data|), if TrimDots(m.name) == [] then room else room - 1;
    ParseMember(text, a, off, room, m, ArchiveBytes(ms) + tail);
    ParseReadsBack(text, a, next, left, ms, tail);
    assert ParseFrom(text, a, next, left) == Ok(UpTo(Expected(ms), left));
  }

  /** From the start: the first 64 entries with a name. */
  lemma ArchiveReadsBack(text: seq<Byte> -> bool, ms: seq<Member>, tail: seq<Byte>)
    requires AreMembers(text, ms) && IsEnd(tail)
    ensures ParseFrom(text, ArchiveBytes(ms) + tail, 0, MAX_ENTRIES) == Ok(UpTo(Expected(ms), MAX_ENTRIES))
  {
    ParseReadsBack(text, ArchiveBytes(ms) + tail, 0, MAX_ENTRIES, ms, tail);
  }

  // ---------------------------------------------------------------- by name

  /** n times the bytes of x. */
  ghost function Times(n: nat, x: seq<Byte>): seq<Byte> {
    if n == 0 then [] else x + Times(n - 1, x)
  }

  predicate StartsWithDots(name: seq<Byte>) {
    |name| >= 2 && name[0] == DOT && name[1] == SLASH
  }

  lemma TimesMore(n: nat, x: seq<Byte>, name: seq<Byte>)
    requires n > 0
    ensures Times(n, x) + name == x + (Times(n - 1, x) + name)
  {
  }

  lemma DotsOff(name: seq<Byte>)
    ensures TrimDots([DOT, SLASH] + name) == TrimDots(name)
  {
    assert ([DOT, SLASH] + name)[2..] == name;
  }

  /** "./" is removed from the front as often as it is there, and nothing else. */
  lemma {:induction false} DotsAreTrimmed(n: nat, name: seq<Byte>)
    requires !StartsWithDots(name)
    ensures TrimDots(Times(n, [DOT, SLASH]) + name) == name
  {
    if n == 0 {
      assert [] + name == name;
    } else {
      var more := Times(n - 1, [DOT, SLASH]) + name;
      DotsAreTrimmed(n - 1, name);
      TimesMore(n, [DOT, SLASH], name);
      DotsOff(more);
    }
  }

  /** So are slashes in front of a path, */
  lemma {:induction false} SlashesAreTrimmed(n: nat, path: seq<Byte>)
    requires path == [] || path[0] != SLASH
    ensures TrimSlashes(Times(n, [SLASH]) + path) == path
  {
    if n == 0 {
      assert [] + path == path;
    } else {
      SlashesAreTrimmed(n - 1, path);
      assert (Times(n, [SLASH]) + path)[1..] == Times(n - 1, [SLASH]) + path;
    }
  }

  /** and those at the end of a name. */
  lemma {:induction false} EndsAreTrimmed(n: nat, name: seq<Byte>)
    requires !EndsInSlash(name)
    ensures TrimEnd(name + Times(n, [SLASH])) == name
  {
    if n == 0 {
      assert name + [] == name;
    } else {
      EndsAreTrimmed(n - 1, name);
      TimesEnd(n, SLASH);
      assert (name + Times(n, [SLASH]))[..|name| + n - 1] == name + Times(n - 1, [SLASH]);
    }
  }

  lemma {:induction false} TimesEnd(n: nat, b: Byte)
    requires n > 0
    ensures |Times(n, [b])| == n && Times(n, [b])[n - 1] == b && Times(n, [b])[..n - 1] == Times(n - 1, [b])
  {
    if n == 1 {
      assert Times(1, [b]) == [b];
    } else {
      TimesEnd(n - 1, b);
      assert Times(n, [b]) == [b] + Times(n - 1, [b]);
    }
  }

  /** A member's name as paths refer to it: without "./" in front and slashes behind. */
  function PathName(m: Member): seq<Byte> {
    TrimEnd(TrimDots(m.name))
  }

  /** Member k is the first that a path refers to. */
  ghost predicate IsFirstNamed(ms: seq<Member>, path: seq<Byte>, k: nat) {
    && k < |ms| && TrimDots(ms[k].name) != [] && PathName(ms[k]) == TrimSlashes(path)
    && forall j :: 0 <= j < k ==> PathName(ms[j]) != TrimSlashes(path)
  }

  /** Its entry is the first that matches. */
  lemma {:induction false} ExpectedFinds(ms: seq<Member>, path: seq<Byte>, k: nat) returns (at: nat)
    requires IsFirstNamed(ms, path, k) && forall i :: 0 <= i < |ms| ==> |ms[i].header| == RECORD
    ensures at <= k && FirstMatch(Expected(ms), path, at)
    ensures Expected(ms)[at] == Entry(TrimDots(ms[k].name), ms[k].data, IsDirMember(ms[k]))
    decreases k
  {
    at := 0;
    if k == 0 {
      assert Expected(ms)[0] == Entry(TrimDots(ms[0].name), ms[0].data, IsDirMember(ms[0]));
    } else {
      assert forall j :: 0 <= j < |ms| - 1 ==> ms[1..][j] == ms[j + 1];
      at := ExpectedFinds(ms[1..], path, k - 1);
      if TrimDots(ms[0].name) != [] {
        ShiftMatch(Entry(TrimDots(ms[0].name), ms[0].data, IsDirMember(ms[0])), Expected(ms[1..]), path, at);
        at := at + 1;
      }
    }
  }

  lemma ShiftMatch(e: Entry, es: seq<Entry>, path: seq<Byte>, at: nat)
    requires FirstMatch(es, path, at) && !Matches(e, path)
    ensures FirstMatch([e] + es, path, at + 1) && ([e] + es)[at + 1] == es[at]
  {
  }

  /** Parsing an archive of at most 64 members and reading by path gives the data of the first
      member the path refers to, and nothing for a directory. */
  method ReadFromArchive(text: seq<Byte> -> bool, ghost ms: seq<Member>, ghost tail: seq<Byte>, archive: seq<Byte>,
      path: seq<Byte>, ghost k: nat)
    returns (r: Option<seq<Byte>>)
    requires AreMembers(text, ms) && IsEnd(tail) && archive == ArchiveBytes(ms) + tail && |ms| <= MAX_ENTRIES
    requires IsFirstNamed(ms, path, k)
    ensures r == if IsDirMember(ms[k]) then None else Some(ms[k].data)
  {
    hide ParseFrom, Expected, ArchiveBytes, IsMember;
    ArchiveReadsBack(text, ms, tail);
    ExpectedFits(ms);
    MemberHeaders(text, ms);
    ghost var at := ExpectedFinds(ms, path, k);
    var fs := Parse(text, archive);
    r := Read(fs.value, path);
  }

  lemma {:induction false} ExpectedFits(ms: seq<Member>)
    ensures |Expected(ms)| <= |ms|
  {
    if ms == [] {
    } else {
      ExpectedFits(ms[1..]);
    }
  }

  lemma MemberHeaders(text: seq<Byte> -> bool, ms: seq<Member>)
    requires AreMembers(text, ms)
    ensures forall i :: 0 <= i < |ms| ==> |ms[i].header| == RECORD
  {
  }

  /** A member archived as "./" and a plain file name is read back under that name, with or
      without slashes in front. */
  lemma DotName(m: Member, name: seq<Byte>, slashes: nat)
    requires m.name == [DOT, SLASH] + name && name != [] && name[0] != SLASH
    requires !StartsWithDots(name) && !EndsInSlash(name)
    ensures TrimDots(m.name) == name && PathName(m) == name == TrimSlashes(Times(slashes, [SLASH]) + name)
  {
    assert Times(1, [DOT, SLASH]) == [DOT, SLASH] by {
      assert Times(0, [DOT, SLASH]) == [];
    }
    DotsAreTrimmed(1, name);
    SlashesAreTrimmed(slashes, name);
  }
}
