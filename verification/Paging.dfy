/** The page-table walks of src/kern/mem.rs and src/kern/drv/ring3/mod.rs: `map_mmio`,
    `make_executable` and `make_user_accessible` on 4-level tables (Intel SDM Vol. 3A,
    section 4.5). Addresses are counted in 4 KiB pages and an entry is a record of the bits
    the walks look at; the 64-bit encoding is not part of this model. */
module Paging {
  import opened Prelude

  const ENTRIES: nat := 512
  const VIRTUAL_PAGES: nat := 0x10_0000_0000  // 2^36

  datatype Entry = Entry(present: bool, writable: bool, user: bool, pwt: bool, pcd: bool, huge: bool, nx: bool,
      frame: nat)

  type Table = t: seq<Entry> | |t| == ENTRIES witness seq(ENTRIES, i => ZERO_ENTRY)

  const ZERO_ENTRY: Entry := Entry(false, false, false, false, false, false, false, 0)

  const ZERO_TABLE: Table := ZeroTable()

  function ZeroTable(): (t: Table)
    ensures forall i :: 0 <= i < ENTRIES ==> t[i] == ZERO_ENTRY
  {
    seq(ENTRIES, i => ZERO_ENTRY)
  }

  function LinkTo(frame: nat): Entry {
    Entry(true, true, false, false, false, false, false, frame)
  }

  function MmioLeaf(frame: nat): Entry {
    Entry(true, true, false, true, true, false, true, frame)
  }

  /** The tables that live in physical memory, by frame. */
  type Memory = map<nat, Table>

  /** Indices from the root down: four of them for a page, fewer for a table. */
  type Path = seq<nat>

  /** The four table indices of a virtual page. */
  function PathOf(page: nat): (v: Path)
    ensures |v| == 4 && forall k :: 0 <= k < 4 ==> v[k] < ENTRIES
  {
    [page / 0x800_0000 % 512, page / 0x4_0000 % 512, page / 0x200 % 512, page % 512]
  }

  ghost predicate IsPage(v: Path) {
    |v| == 4 && forall k :: 0 <= k < 4 ==> v[k] < ENTRIES
  }

  /** An entry that leads to a next-level table: the huge bit is looked at below the root. */
  predicate IsLink(level: nat, e: Entry) {
    e.present && level < 3 && !(level >= 1 && e.huge)
  }

  predicate IsLeaf(level: nat, e: Entry) {
    e.present && !IsLink(level, e)
  }

  // ---------------------------------------------------------------- translation

  /** The leaf that maps a page, and how many levels down it was found. */
  datatype Leaf = Leaf(level: nat, entry: Entry)

  /** The hardware walk from table f at some level. */
  ghost function Walk(mem: Memory, f: nat, level: nat, v: Path): Option<Leaf>
    requires IsPage(v) && level < 4
    decreases 4 - level
  {
    if f !in mem || !mem[f][v[level]].present then None
    else if IsLink(level, mem[f][v[level]]) then Walk(mem, mem[f][v[level]].frame, level + 1, v)
    else Some(Leaf(level, mem[f][v[level]]))
  }

  /** The present entries the walk reads, from table f at some level on down. */
  ghost function Reads(mem: Memory, f: nat, level: nat, v: Path): (es: seq<Entry>)
    requires IsPage(v) && level < 4
    ensures |es| <= 4 - level
    decreases 4 - level
  {
    if f !in mem || !mem[f][v[level]].present then []
    else if IsLink(level, mem[f][v[level]]) then [mem[f][v[level]]] + Reads(mem, mem[f][v[level]].frame, level + 1, v)
    else [mem[f][v[level]]]
  }

  /** An entry through which the kernel, and only the kernel, can write. */
  ghost predicate IsKernelWritable(e: Entry) {
    e.present && e.writable && !e.user
  }

  /** An entry above the last level that only leads on. */
  ghost predicate IsPlainLink(e: Entry) {
    !e.huge && !e.pwt && !e.pcd && !e.nx
  }

  /** From depth `at` on the walk is as it was, or goes further, and then through new entries
      that let the kernel, and only the kernel, write; above the last level they only lead on. */
  ghost predicate Grown(at: nat, es: seq<Entry>, es': seq<Entry>) {
    && es <= es'
    && forall i :: |es| <= i < |es'| ==> IsKernelWritable(es'[i]) && (at + i < 3 ==> IsPlainLink(es'[i]))
  }

  /** No walk lost an entry, and what is new on one is open to kernel writes. */
  ghost predicate WalksGrown(m0: Memory, m: Memory, root: nat) {
    forall v :: IsPage(v) ==> Grown(0, Reads(m0, root, 0, v), Reads(m, root, 0, v))
  }

  lemma WalksGrownNone(m: Memory, root: nat)
    ensures WalksGrown(m, m, root)
  {
  }

  lemma WalksGrownTwice(m0: Memory, m1: Memory, m2: Memory, root: nat)
    requires WalksGrown(m0, m1, root) && WalksGrown(m1, m2, root)
    ensures WalksGrown(m0, m2, root)
  {
    hide Reads;
    forall v | IsPage(v) ensures Grown(0, Reads(m0, root, 0, v), Reads(m2, root, 0, v)) {
      var a, b, c := Reads(m0, root, 0, v), Reads(m1, root, 0, v), Reads(m2, root, 0, v);
      assert Grown(0, a, b) && Grown(0, b, c);
      assert forall i :: |a| <= i < |b| ==> c[i] == b[i];
    }
  }

  /** A page mapped for device registers: an entry of the last level that lets the kernel, and
      only the kernel, read and write physical page p, uncached and not for execution. */
  ghost predicate IsDeviceLeaf(w: Option<Leaf>, p: nat) {
    && w.Some? && w.value.level == 3 && w.value.entry.frame == p
    && w.value.entry.present && w.value.entry.writable && !w.value.entry.user
    && w.value.entry.pwt && w.value.entry.pcd && w.value.entry.nx && !w.value.entry.huge
  }

  /** A walk that ends at a leaf reads one entry at each level, the leaf last. */
  lemma {:induction false} ReadsOfWalk(mem: Memory, f: nat, level: nat, v: Path)
    requires IsPage(v) && level < 4 && Walk(mem, f, level, v).Some?
    ensures var l, es := Walk(mem, f, level, v).value, Reads(mem, f, level, v);
            level <= l.level < 4 && |es| == l.level - level + 1 && es[|es| - 1] == l.entry
    decreases 4 - level
  {
    if IsLink(level, mem[f][v[level]]) {
      ReadsOfWalk(mem, mem[f][v[level]].frame, level + 1, v);
    } else {
      assert Reads(mem, f, level, v) == [mem[f][v[level]]];
    }
  }

  /** On a device page whose walk was new from the root on, every entry lets the kernel, and
      only the kernel, write. */
  lemma NewWalkIsOpen(m0: Memory, m: Memory, root: nat, v: Path, p: nat)
    requires IsPage(v) && WalksGrown(m0, m, root) && IsDeviceLeaf(Walk(m, root, 0, v), p)
    requires root in m0 && !m0[root][v[0]].present
    ensures |Reads(m, root, 0, v)| == 4 && forall i :: 0 <= i < 4 ==> IsKernelWritable(Reads(m, root, 0, v)[i])
  {
    ReadsOfWalk(m, root, 0, v);
    assert Grown(0, Reads(m0, root, 0, v), Reads(m, root, 0, v)) && Reads(m0, root, 0, v) == [];
  }

  /** User mode may pass at every level of the walk. */
  ghost predicate UserWalk(mem: Memory, f: nat, level: nat, v: Path)
    requires IsPage(v) && level < 4
    decreases 4 - level
  {
    f in mem && mem[f][v[level]].user &&
    (IsLink(level, mem[f][v[level]]) ==> UserWalk(mem, mem[f][v[level]].frame, level + 1, v))
  }

  /** The physical page a leaf gives to page v. */
  ghost function PhysicalPage(l: Leaf, v: Path): nat
    requires IsPage(v)
  {
    if l.level >= 3 then l.entry.frame
    else if l.level == 2 then l.entry.frame + v[3]
    else l.entry.frame + v[2] * ENTRIES + v[3]
  }

  ghost function Translate(mem: Memory, root: nat, v: Path): Option<nat>
    requires IsPage(v)
  {
    var w := Walk(mem, root, 0, v);
    if w.None? then None else Some(PhysicalPage(w.value, v))
  }

  // ---------------------------------------------------------------- tree shape

  /** Slot i of the table at q links to a table exactly when the tree has one there. */
  ghost predicate SlotOk(mem: Memory, tab: map<Path, nat>, q: Path, i: nat)
    requires q in tab && tab[q] in mem && i < ENTRIES
  {
    && (IsLink(|q|, mem[tab[q]][i]) <==> q + [i] in tab)
    && (q + [i] in tab ==> tab[q + [i]] == mem[tab[q]][i].frame)
  }

  ghost predicate NodeOk(mem: Memory, tab: map<Path, nat>, q: Path)
    requires q in tab
  {
    && |q| <= 3 && tab[q] in mem
    && (|q| > 0 ==> q[..|q| - 1] in tab && q[|q| - 1] < ENTRIES)
    && forall i :: 0 <= i < ENTRIES ==> SlotOk(mem, tab, q, i)
  }

  /** tab names every table by its path from the root, and no two paths share a table. */
  ghost predicate Tree(mem: Memory, root: nat, tab: map<Path, nat>) {
    && [] in tab && tab[[]] == root
    && (forall q :: q in tab ==> NodeOk(mem, tab, q))
    && (forall q, r :: q in tab && r in tab && tab[q] == tab[r] ==> q == r)
  }

  function PutEntry(mem: Memory, f: nat, i: nat, e: Entry): Memory
    requires f in mem && i < ENTRIES
  {
    mem[f := mem[f][i := e]]
  }

  lemma PutSame(mem: Memory, f: nat, i: nat)
    requires f in mem && i < ENTRIES
    ensures PutEntry(mem, f, i, mem[f][i]) == mem
  {
    assert mem[f][i := mem[f][i]] == mem[f];
  }

  /** One step of the walk, seen from the tree. */
  lemma WalkStep(mem: Memory, root: nat, tab: map<Path, nat>, q: Path, v: Path)
    requires Tree(mem, root, tab) && q in tab && IsPage(v) && q == v[..|q|]
    ensures |q| <= 3 && tab[q] in mem
    ensures var e := mem[tab[q]][v[|q|]];
            && (IsLink(|q|, e) <==> v[..|q| + 1] in tab)
            && (!e.present ==> Walk(mem, tab[q], |q|, v) == None)
            && (IsLink(|q|, e) ==> Walk(mem, tab[q], |q|, v) == Walk(mem, tab[v[..|q| + 1]], |q| + 1, v))
            && (IsLeaf(|q|, e) ==> Walk(mem, tab[q], |q|, v) == Some(Leaf(|q|, e)))
  {
    assert NodeOk(mem, tab, q);
    assert SlotOk(mem, tab, q, v[|q|]);
    PathSnoc(v, |q|);
  }

  /** The same step for the entries read. */
  lemma ReadsStep(mem: Memory, root: nat, tab: map<Path, nat>, q: Path, v: Path)
    requires Tree(mem, root, tab) && q in tab && IsPage(v) && q == v[..|q|]
    ensures |q| <= 3 && tab[q] in mem
    ensures var e := mem[tab[q]][v[|q|]];
            && (IsLink(|q|, e) <==> v[..|q| + 1] in tab)
            && (!e.present ==> Reads(mem, tab[q], |q|, v) == [])
            && (IsLink(|q|, e) ==> Reads(mem, tab[q], |q|, v) == [e] + Reads(mem, tab[v[..|q| + 1]], |q| + 1, v))
            && (IsLeaf(|q|, e) ==> Reads(mem, tab[q], |q|, v) == [e])
  {
    assert NodeOk(mem, tab, q);
    assert SlotOk(mem, tab, q, v[|q|]);
    PathSnoc(v, |q|);
  }

  lemma PathSnoc(v: Path, n: nat)
    requires n < |v|
    ensures v[..n + 1] == v[..n] + [v[n]]
  {
  }

  lemma {:induction false} PrefixInTree(mem: Memory, root: nat, tab: map<Path, nat>, q: Path, n: nat)
    requires Tree(mem, root, tab) && q in tab && n <= |q|
    ensures q[..n] in tab
    decreases |q| - n
  {
    if n == |q| {
      assert q[..n] == q;
    } else {
      PrefixInTree(mem, root, tab, q, n + 1);
      assert NodeOk(mem, tab, q[..n + 1]);
      assert q[..n + 1][..n] == q[..n];
    }
  }

  // ---------------------------------------------------------------- growing the tree

  /** `write_bytes(page, 0, 4096)`. */
  function WithZeroed(mem: Memory, g: nat): Memory {
    mem[g := ZERO_TABLE]
  }

  /** mem2 is mem with the fresh zeroed table g linked into slot i of the table at q. */
  ghost predicate Extended(mem: Memory, mem2: Memory, tab: map<Path, nat>, q: Path, i: nat, g: nat) {
    && q in tab && |q| < 3 && i < ENTRIES && (forall r :: r in tab ==> tab[r] != g && tab[r] in mem)
    && !mem[tab[q]][i].present
    && mem2 == PutEntry(WithZeroed(mem, g), tab[q], i, LinkTo(g))
  }

  lemma ExtendTree(mem: Memory, mem2: Memory, root: nat, tab: map<Path, nat>, q: Path, i: nat, g: nat)
    requires Tree(mem, root, tab) && Extended(mem, mem2, tab, q, i, g)
    ensures Tree(mem2, root, tab[q + [i] := g]) && q + [i] !in tab
  {
    var c := q + [i];
    var tab2 := tab[c := g];
    assert NodeOk(mem, tab, q) && SlotOk(mem, tab, q, i);
    assert c !in tab;
    assert c[..|c| - 1] == q;
    forall r | r in tab2 ensures NodeOk(mem2, tab2, r) {
      if r in tab {
        assert NodeOk(mem, tab, r);
      }
      forall j | 0 <= j < ENTRIES ensures SlotOk(mem2, tab2, r, j) {
        SlotAfterExtend(mem, mem2, root, tab, q, i, g, r, j);
      }
    }
  }

  lemma SlotAfterExtend(mem: Memory, mem2: Memory, root: nat, tab: map<Path, nat>, q: Path, i: nat, g: nat, r: Path,
      j: nat)
    requires Tree(mem, root, tab) && Extended(mem, mem2, tab, q, i, g) && q + [i] !in tab
    requires r in tab[q + [i] := g] && j < ENTRIES
    ensures SlotOk(mem2, tab[q + [i] := g], r, j)
  {
    var c := q + [i];
    if r + [j] == c {
      assert r == (r + [j])[..|r|] == c[..|q|] == q;
      assert j == (r + [j])[|r|] == i;
    } else if r == c {
      assert (r + [j])[..|r + [j]| - 1] == r;
      assert r + [j] in tab ==> NodeOk(mem, tab, r + [j]);
    } else {
      assert NodeOk(mem, tab, r) && SlotOk(mem, tab, r, j);
      assert r == q ==> j != i;
    }
  }

  /** Linking in a fresh table changes no translation. */
  lemma {:induction false} ExtendWalk(mem: Memory, mem2: Memory, root: nat, tab: map<Path, nat>, q: Path, i: nat,
      g: nat, r: Path, v: Path)
    requires Tree(mem, root, tab) && Extended(mem, mem2, tab, q, i, g) && q + [i] !in tab
    requires Tree(mem2, root, tab[q + [i] := g])
    requires r in tab && IsPage(v) && r == v[..|r|]
    ensures Walk(mem2, tab[r], |r|, v) == Walk(mem, tab[r], |r|, v)
    decreases 4 - |r|
  {
    var tab2 := tab[q + [i] := g];
    WalkStep(mem, root, tab, r, v);
    WalkStep(mem2, root, tab2, r, v);
    var r' := v[..|r| + 1];
    if r == q && v[|q|] == i {
      assert r' == q + [i];
      WalkStep(mem2, root, tab2, r', v);
    } else if r' in tab {
      ExtendWalk(mem, mem2, root, tab, q, i, g, r', v);
    }
  }

  /** What the walks read grows by the link to it at most. */
  lemma {:induction false} ExtendReads(mem: Memory, mem2: Memory, root: nat, tab: map<Path, nat>, q: Path, i: nat,
      g: nat, r: Path, v: Path)
    requires Tree(mem, root, tab) && Extended(mem, mem2, tab, q, i, g) && q + [i] !in tab
    requires Tree(mem2, root, tab[q + [i] := g])
    requires r in tab && IsPage(v) && r == v[..|r|]
    ensures Grown(|r|, Reads(mem, tab[r], |r|, v), Reads(mem2, tab[r], |r|, v))
    decreases 4 - |r|
  {
    hide Tree, Reads;
    var tab2 := tab[q + [i] := g];
    ReadsStep(mem, root, tab, r, v);
    ReadsStep(mem2, root, tab2, r, v);
    SameTable(mem, root, tab, q, r);
    var r' := v[..|r| + 1];
    if r == q && v[|q|] == i {
      PathSnoc(v, |q|);
      assert r' == q + [i];
      ReadsStep(mem2, root, tab2, r', v);
      assert Reads(mem2, tab[r], |r|, v) == [LinkTo(g)];
    } else if r' in tab {
      ExtendReads(mem, mem2, root, tab, q, i, g, r', v);
    }
  }

  lemma TreeRoot(mem: Memory, root: nat, tab: map<Path, nat>)
    requires Tree(mem, root, tab)
    ensures [] in tab && tab[[]] == root
  {
  }

  lemma SameTable(mem: Memory, root: nat, tab: map<Path, nat>, q: Path, r: Path)
    requires Tree(mem, root, tab) && q in tab && r in tab
    ensures tab[q] == tab[r] ==> q == r
  {
  }

  // ---------------------------------------------------------------- editing an entry

  /** Writing an entry that links to the same table as before, or to none as before, keeps
      the tree. */
  lemma RewriteSlot(mem: Memory, root: nat, tab: map<Path, nat>, q: Path, i: nat, e: Entry)
    requires Tree(mem, root, tab) && q in tab && i < ENTRIES && tab[q] in mem
    requires var old_ := mem[tab[q]][i];
             IsLink(|q|, e) <==> IsLink(|q|, old_)
    requires IsLink(|q|, e) ==> e.frame == mem[tab[q]][i].frame
    ensures Tree(PutEntry(mem, tab[q], i, e), root, tab)
  {
    var mem2 := PutEntry(mem, tab[q], i, e);
    forall r | r in tab ensures NodeOk(mem2, tab, r) {
      assert NodeOk(mem, tab, r);
      assert r != q ==> tab[r] != tab[q];
      forall j | 0 <= j < ENTRIES ensures SlotOk(mem2, tab, r, j) {
        assert SlotOk(mem, tab, r, j);
      }
    }
  }

  /** Filling an absent slot of a last-level table maps that one page. */
  lemma {:induction false} FillWalk(mem: Memory, root: nat, tab: map<Path, nat>, page: Path, e: Entry, r: Path, v: Path)
    requires Tree(mem, root, tab) && IsPage(page) && page[..3] in tab && tab[page[..3]] in mem && e.present
    requires Tree(PutEntry(mem, tab[page[..3]], page[3], e), root, tab)
    requires !mem[tab[page[..3]]][page[3]].present
    requires r in tab && IsPage(v) && r == v[..|r|]
    ensures |r| < 4
    ensures var mem2 := PutEntry(mem, tab[page[..3]], page[3], e);
            Walk(mem2, tab[r], |r|, v) == if v == page then Some(Leaf(3, e)) else Walk(mem, tab[r], |r|, v)
    ensures v == page ==> Walk(mem, tab[r], |r|, v) == None
    decreases 4 - |r|
  {
    hide Tree, Walk;
    var mem2 := PutEntry(mem, tab[page[..3]], page[3], e);
    WalkStep(mem, root, tab, r, v);
    WalkStep(mem2, root, tab, r, v);
    SameTable(mem, root, tab, page[..3], r);
    var r' := v[..|r| + 1];
    if |r| == 3 {
      assert v == v[..3] + [v[3]] && page == page[..3] + [page[3]];
      assert r == page[..3] || tab[r] != tab[page[..3]];
    } else {
      assert r != page[..3];
      if v == page {
        PrefixInTree(mem, root, tab, page[..3], |r| + 1);
        assert page[..3][..|r| + 1] == r';
      }
      if r' in tab {
        FillWalk(mem, root, tab, page, e, r', v);
      }
    }
  }

  /** What the walks read grows by that entry at most. */
  lemma {:induction false} FillReads(mem: Memory, root: nat, tab: map<Path, nat>, page: Path, e: Entry, r: Path,
      v: Path)
    requires Tree(mem, root, tab) && IsPage(page) && page[..3] in tab && tab[page[..3]] in mem && IsKernelWritable(e)
    requires Tree(PutEntry(mem, tab[page[..3]], page[3], e), root, tab)
    requires !mem[tab[page[..3]]][page[3]].present
    requires r in tab && IsPage(v) && r == v[..|r|]
    ensures |r| < 4
    ensures var mem2 := PutEntry(mem, tab[page[..3]], page[3], e);
            Grown(|r|, Reads(mem, tab[r], |r|, v), Reads(mem2, tab[r], |r|, v))
    decreases 4 - |r|
  {
    hide Tree, Reads;
    ReadsStep(mem, root, tab, r, v);
    ReadsStep(PutEntry(mem, tab[page[..3]], page[3], e), root, tab, r, v);
    SameTable(mem, root, tab, page[..3], r);
    if v[..|r| + 1] in tab {
      FillReads(mem, root, tab, page, e, v[..|r| + 1], v);
    }
  }

  // ---------------------------------------------------------------- page numbers and paths

  /** The page number, modulo 2^36, that a path stands for. */
  function PageOf(v: Path): nat
    requires |v| == 4
  {
    ((v[0] * 512 + v[1]) * 512 + v[2]) * 512 + v[3]
  }

  lemma PageOfPath(page: nat)
    ensures PageOf(PathOf(page)) == page % VIRTUAL_PAGES
  {
    var a, b, c, d := page / 512, page / 512 / 512, page / 512 / 512 / 512, page / 512 / 512 / 512 / 512;
    var i, j, k, l := page % 512, a % 512, b % 512, c % 512;
    assert page == 512 * a + i && a == 512 * b + j && b == 512 * c + k && c == 512 * d + l;
    DivUnique(page, b, 0x4_0000);
    DivUnique(page, c, 0x800_0000);
    assert PathOf(page) == [l, k, j, i];
    DivMod(d, ((l * 512 + k) * 512 + j) * 512 + i, VIRTUAL_PAGES);
  }

  /** Pages fewer than 2^36 apart have different paths. */
  lemma PathsDiffer(x: nat, y: nat)
    requires x < y < x + VIRTUAL_PAGES
    ensures PathOf(x) != PathOf(y)
  {
    hide PathOf, PageOf;
    PageOfPath(x);
    PageOfPath(y);
    ModDiffers(x, y, VIRTUAL_PAGES);
  }

  // ---------------------------------------------------------------- setting flags

  datatype Mode = Executable | UserAccessible

  /** What the two flag walks make of an entry they pass. */
  function Mark(mode: Mode, level: nat, e: Entry): Entry {
    if !e.present then e
    else match mode
      case Executable => if IsLink(level, e) then e else e.(writable := true, nx := false)
      case UserAccessible => if IsLink(level, e) then e.(user := true)
          else e.(user := true, writable := true, nx := false)
  }

  /** The walk of page v reads slot i of the table at q. */
  ghost predicate OnPath(q: Path, i: nat, v: Path) {
    |v| == 4 && |q| < 4 && v[..|q|] == q && v[|q|] == i
  }

  /** Some page from lo to hi - 1 reads that slot. */
  ghost predicate Covered(q: Path, i: nat, lo: nat, hi: nat) {
    exists p :: lo <= p < hi && OnPath(q, i, PathOf(p))
  }

  ghost function EntryAt(mem: Memory, tab: map<Path, nat>, q: Path, i: nat): Entry {
    if q in tab && tab[q] in mem && i < ENTRIES then mem[tab[q]][i] else ZERO_ENTRY
  }

  /** m2 is m with the entries that v reads above depth n marked. */
  ghost predicate MarkedTo(mode: Mode, m: Memory, m2: Memory, tab: map<Path, nat>, v: Path, n: nat) {
    forall q, i :: q in tab && 0 <= i < ENTRIES ==>
      EntryAt(m2, tab, q, i) == if OnPath(q, i, v) && |q| < n then Mark(mode, |q|, EntryAt(m, tab, q, i))
          else EntryAt(m, tab, q, i)
  }

  /** m2 is m with every entry read for a page from lo to hi - 1 marked, and no other. */
  ghost predicate MarkedRange(mode: Mode, m: Memory, m2: Memory, tab: map<Path, nat>, lo: nat, hi: nat) {
    forall q, i :: q in tab && 0 <= i < ENTRIES ==>
      EntryAt(m2, tab, q, i) == if Covered(q, i, lo, hi) then Mark(mode, |q|, EntryAt(m, tab, q, i))
          else EntryAt(m, tab, q, i)
  }

  /** Marking one more entry down the path of v. */
  lemma MarkStep(mode: Mode, m: Memory, m1: Memory, root: nat, tab: map<Path, nat>, v: Path, n: nat)
    requires Tree(m, root, tab) && Tree(m1, root, tab) && IsPage(v) && n < 4 && v[..n] in tab
    requires MarkedTo(mode, m, m1, tab, v, n) && tab[v[..n]] in m1
    ensures var m2 := PutEntry(m1, tab[v[..n]], v[n], Mark(mode, n, m1[tab[v[..n]]][v[n]]));
            Tree(m2, root, tab) && MarkedTo(mode, m, m2, tab, v, n + 1)
  {
    var q0 := v[..n];
    assert !OnPath(q0, v[n], v) || |q0| == n;
    assert EntryAt(m1, tab, q0, v[n]) == EntryAt(m, tab, q0, v[n]);
    var e := m1[tab[q0]][v[n]];
    RewriteSlot(m1, root, tab, q0, v[n], Mark(mode, n, e));
    var m2 := PutEntry(m1, tab[q0], v[n], Mark(mode, n, e));
    forall q, i | q in tab && 0 <= i < ENTRIES
      ensures EntryAt(m2, tab, q, i) == if OnPath(q, i, v) && |q| < n + 1 then Mark(mode, |q|, EntryAt(m, tab, q, i))
          else EntryAt(m, tab, q, i)
    {
      assert NodeOk(m1, tab, q);
      if q != q0 {
        assert tab[q] != tab[q0];
        assert OnPath(q, i, v) ==> |q| != n;
      }
    }
  }

  /** Below an entry that is no link the tree has no table, so the page is done. */
  lemma MarkDone(mode: Mode, m: Memory, m1: Memory, root: nat, tab: map<Path, nat>, v: Path, n: nat)
    requires Tree(m1, root, tab) && IsPage(v) && n < 4 && v[..n] in tab
    requires MarkedTo(mode, m, m1, tab, v, n + 1) && !IsLink(n, EntryAt(m1, tab, v[..n], v[n]))
    ensures MarkedTo(mode, m, m1, tab, v, 4)
  {
    assert NodeOk(m1, tab, v[..n]) && SlotOk(m1, tab, v[..n], v[n]);
    assert v[..n + 1] == v[..n] + [v[n]];
    forall q, i | q in tab && OnPath(q, i, v) ensures |q| <= n {
      if n < |q| {
        assert q[..n + 1] == v[..n + 1];
        PrefixInTree(m1, root, tab, q, n + 1);
        assert false;
      }
    }
  }

  /** A further page extends the range: marking twice is marking once. */
  lemma MarkNext(mode: Mode, m: Memory, m1: Memory, m2: Memory, tab: map<Path, nat>, lo: nat, p: nat)
    requires lo <= p && MarkedRange(mode, m, m1, tab, lo, p) && MarkedTo(mode, m1, m2, tab, PathOf(p), 4)
    ensures MarkedRange(mode, m, m2, tab, lo, p + 1)
  {
    forall q, i | q in tab && 0 <= i < ENTRIES
      ensures EntryAt(m2, tab, q, i) == if Covered(q, i, lo, p + 1) then Mark(mode, |q|, EntryAt(m, tab, q, i))
          else EntryAt(m, tab, q, i)
    {
      CoveredNext(q, i, lo, p);
      MarkTwice(mode, |q|, EntryAt(m, tab, q, i));
    }
  }

  lemma MarkTwice(mode: Mode, level: nat, e: Entry)
    ensures Mark(mode, level, Mark(mode, level, e)) == Mark(mode, level, e)
  {
  }

  lemma CoveredNext(q: Path, i: nat, lo: nat, p: nat)
    requires lo <= p
    ensures Covered(q, i, lo, p + 1) <==> Covered(q, i, lo, p) || OnPath(q, i, PathOf(p))
  {
  }

  // ---------------------------------------------------------------- map_mmio

  /** A page g that is no table yet, zeroed and linked into an absent slot: the tables still
      form a tree, and every page translates as before. */
  lemma Linked(mem: Memory, root: nat, tab: map<Path, nat>, q: Path, i: nat, g: nat)
    requires Tree(mem, root, tab) && q in tab && |q| < 3 && i < ENTRIES && tab[q] in mem && !mem[tab[q]][i].present
    requires forall r :: r in tab ==> tab[r] != g
    ensures var mem2 := PutEntry(WithZeroed(mem, g), tab[q], i, LinkTo(g));
            && Tree(mem2, root, tab[q + [i] := g])
            && (forall v :: IsPage(v) ==> Walk(mem2, root, 0, v) == Walk(mem, root, 0, v))
            && WalksGrown(mem, mem2, root)
            && IsLink(|q|, mem2[tab[q]][i]) && mem2[tab[q]][i].frame == g && mem2[g] == ZeroTable()
  {
    var mem2 := PutEntry(WithZeroed(mem, g), tab[q], i, LinkTo(g));
    assert forall r :: r in tab ==> NodeOk(mem, tab, r);
    assert Extended(mem, mem2, tab, q, i, g);
    ExtendTree(mem, mem2, root, tab, q, i, g);
    forall v | IsPage(v) ensures Walk(mem2, root, 0, v) == Walk(mem, root, 0, v) {
      ExtendWalk(mem, mem2, root, tab, q, i, g, [], v);
    }
    forall v | IsPage(v) ensures Grown(0, Reads(mem, root, 0, v), Reads(mem2, root, 0, v)) {
      ExtendReads(mem, mem2, root, tab, q, i, g, [], v);
    }
  }

  class AddressSpace {
    const root: nat          // the frame cr3 points at
    const hhdm: nat          // the page number the direct map starts at
    var mem: Memory
    var pool: seq<nat>       // the frames `alloc_pages(0)` hands out next
    ghost var tab: map<Path, nat>

    /** The tables form a tree, and the page source never hands out a table or the same
        frame twice. */
    ghost predicate Valid()
      reads this
    {
      && Tree(mem, root, tab)
      && (forall i, j :: 0 <= i < j < |pool| ==> pool[i] != pool[j])
      && (forall i, q :: 0 <= i < |pool| && q in tab ==> pool[i] != tab[q])
    }

    constructor (root: nat, hhdm: nat, mem: Memory, pool: seq<nat>, ghost tab: map<Path, nat>)
      requires Tree(mem, root, tab) && forall i, j :: 0 <= i < j < |pool| ==> pool[i] != pool[j]
      requires forall i, q :: 0 <= i < |pool| && q in tab ==> pool[i] != tab[q]
      ensures Valid() && this.root == root && this.hhdm == hhdm && this.mem == mem && this.pool == pool &&
          this.tab == tab
    {
      this.root, this.hhdm, this.mem, this.pool, this.tab := root, hhdm, mem, pool, tab;
    }

    ghost function At(v: Path): Option<Leaf>
      reads this
      requires IsPage(v)
    {
      Walk(mem, root, 0, v)
    }

    /** No page's translation differs between two memories. */
    ghost predicate SameWalks(m: Memory)
      reads this
    {
      forall v :: IsPage(v) ==> At(v) == Walk(m, root, 0, v)
    }

    /** Links a fresh zeroed page into an absent slot; false when there is none. */
    method LinkNewTable(f: nat, i: nat, ghost q: Path) returns (ok: bool)
      requires Valid() && q in tab && tab[q] == f && |q| < 3 && i < ENTRIES && f in mem && !mem[f][i].present
      modifies this
      ensures Valid() && SameWalks(old(mem)) && WalksGrown(old(mem), mem, root)
      ensures !ok ==> mem == old(mem) && tab == old(tab) && pool == old(pool) == []
      ensures ok ==> f in mem && IsLink(|q|, mem[f][i]) && tab == old(tab)[q + [i] := mem[f][i].frame]
      ensures ok ==> mem[f][i].frame in mem && mem[mem[f][i].frame] == ZeroTable()
    {
      if pool == [] {
        return false;
      }
      var page := pool[0];
      Linked(mem, root, tab, q, i, page);
      pool := pool[1..];
      mem := WithZeroed(mem, page);
      mem := PutEntry(mem, f, i, LinkTo(page));
      tab := tab[q + [i] := page];
      return true;
    }

    /** The path of the direct-map address of a physical page. */
    ghost function Direct(phys: nat): Path {
      PathOf(hhdm + phys)
    }

    /** The outcome for one physical page. */
    ghost predicate PageResult(m0: Memory, m: Memory, phys: nat) {
      && (Walk(m0, root, 0, Direct(phys)).None? ==> IsDeviceLeaf(Walk(m, root, 0, Direct(phys)), phys))
      && (forall v :: IsPage(v) && (v != Direct(phys) || Walk(m0, root, 0, v).Some?) ==>
          Walk(m, root, 0, v) == Walk(m0, root, 0, v))
    }

    /** One level of the descent: an absent slot gets a new table first. */
    method Descend(f: nat, i: nat, ghost q: Path) returns (ok: bool)
      requires Valid() && q in tab && tab[q] == f && |q| < 3 && i < ENTRIES && f in mem
      requires mem[f][i].present ==> IsLink(|q|, mem[f][i])
      modifies this
      ensures Valid() && SameWalks(old(mem)) && WalksGrown(old(mem), mem, root)
      ensures !ok ==> pool == [] && q in tab && tab[q] == f && f in mem && !mem[f][i].present
      ensures ok ==> f in mem && mem[f][i].frame in mem && q + [i] in tab && tab[q + [i]] == mem[f][i].frame
    {
      ok := true;
      if !mem[f][i].present {
        ok := LinkNewTable(f, i, q);
      }
      assert NodeOk(mem, tab, q) && SlotOk(mem, tab, q, i);
      if ok {
        assert NodeOk(mem, tab, q + [i]);
      }
    }

    /** The body of the loop in `map_mmio`, for one physical page. */
    method MapPage(phys: nat) returns (ok: bool)
      requires Valid()
      modifies this
      ensures Valid() && WalksGrown(old(mem), mem, root)
      ensures !ok ==> pool == [] && SameWalks(old(mem)) && At(Direct(phys)).None?
      ensures ok ==> PageResult(old(mem), mem, phys)
    {
      hide WalksGrown, PathOf;
      var v := PathOf(hhdm + phys);
      assert v[..0] == [];
      PathSnoc(v, 0);
      assert NodeOk(mem, tab, []);
      ok := Descend(root, v[0], []);
      ghost var m1 := mem;
      if !ok {
        AbsentMaps(mem, root, tab, v, 0);
        return false;
      }
      ok := MapBelow(mem[root][v[0]].frame, v, phys);
      WalksGrownTwice(old(mem), m1, mem, root);
    }

    /** The levels below the root. */
    method MapBelow(pdpt: nat, v: Path, phys: nat) returns (ok: bool)
      requires Valid() && v == Direct(phys) && v[..1] in tab && tab[v[..1]] == pdpt && pdpt in mem
      modifies this
      ensures Valid() && WalksGrown(old(mem), mem, root)
      ensures !ok ==> pool == [] && SameWalks(old(mem)) && At(v).None?
      ensures ok ==> PageResult(old(mem), mem, phys)
    {
      hide Walk, Tree, WalksGrown;
      WalksGrownNone(mem, root);
      var pdpte := mem[pdpt][v[1]];
      if pdpte.present && pdpte.huge {
        LeafMaps(mem, root, tab, v, 1);
        return true;
      }
      PathSnoc(v, 1);
      ok := Descend(pdpt, v[1], v[..1]);
      if !ok {
        AbsentMaps(mem, root, tab, v, 1);
        return false;
      }
      ghost var m1 := mem;
      var pd := mem[pdpt][v[1]].frame;
      var pde := mem[pd][v[2]];
      if pde.present && pde.huge {
        LeafMaps(mem, root, tab, v, 2);
        return true;
      }
      PathSnoc(v, 2);
      ok := Descend(pd, v[2], v[..2]);
      WalksGrownTwice(old(mem), m1, mem, root);
      if !ok {
        AbsentMaps(mem, root, tab, v, 2);
        return false;
      }
      ghost var m2 := mem;
      ok := FillPage(mem[pd][v[2]].frame, v, phys);
      WalksGrownTwice(old(mem), m2, mem, root);
    }

    lemma FillGrows(m: Memory, page: Path, e: Entry)
      requires Tree(m, root, tab) && IsPage(page) && page[..3] in tab && tab[page[..3]] in m && IsKernelWritable(e)
      requires Tree(PutEntry(m, tab[page[..3]], page[3], e), root, tab) && !m[tab[page[..3]]][page[3]].present
      ensures WalksGrown(m, PutEntry(m, tab[page[..3]], page[3], e), root)
    {
      hide Tree, Reads;
      assert [] in tab && tab[[]] == root by {
        TreeRoot(m, root, tab);
      }
      var m2 := PutEntry(m, tab[page[..3]], page[3], e);
      forall v | IsPage(v) ensures Grown(0, Reads(m, root, 0, v), Reads(m2, root, 0, v)) {
        FillReads(m, root, tab, page, e, [], v);
      }
    }

    /** The last step: the page's own entry is written if it is absent. */
    method FillPage(pt: nat, v: Path, phys: nat) returns (ok: bool)
      requires Valid() && IsPage(v) && v[..3] in tab && tab[v[..3]] == pt
      modifies this
      ensures Valid() && ok && pool == old(pool)
      ensures forall w :: IsPage(w) && (w != v || old(At(w)).Some?) ==> At(w) == old(At(w))
      ensures old(At(v)).None? ==> IsDeviceLeaf(At(v), phys)
      ensures WalksGrown(old(mem), mem, root)
    {
      assert NodeOk(mem, tab, v[..3]);
      ghost var before := mem;
      var pte := mem[pt][v[3]];
      if !pte.present {
        mem := PutEntry(mem, pt, v[3], MmioLeaf(phys));
        RewriteSlot(before, root, tab, v[..3], v[3], MmioLeaf(phys));
        forall w | IsPage(w)
          ensures Walk(mem, root, 0, w) == if w == v then Some(Leaf(3, MmioLeaf(phys))) else Walk(before, root, 0, w)
          ensures w == v ==> Walk(before, root, 0, w) == None
        {
          FillWalk(before, root, tab, v, MmioLeaf(phys), [], w);
        }
        FillGrows(before, v, MmioLeaf(phys));
      } else {
        LeafMaps(before, root, tab, v, 3);
      }
      return true;
    }

    /** v is the direct-map address of one of the physical pages lo, ..., hi - 1. */
    ghost predicate Requested(v: Path, lo: nat, hi: nat) {
      exists p :: lo <= p < hi && v == Direct(p)
    }

    lemma DirectIsNew(lo: nat, p: nat)
      requires lo <= p < lo + VIRTUAL_PAGES
      ensures !Requested(Direct(p), lo, p)
      ensures forall x :: lo <= x < p ==> Direct(x) != Direct(p)
    {
      forall x | lo <= x < p ensures Direct(x) != Direct(p) {
        PathsDiffer(hhdm + x, hhdm + p);
      }
    }

    lemma RequestedNext(lo: nat, p: nat)
      requires lo <= p
      ensures forall v :: Requested(v, lo, p + 1) <==> Requested(v, lo, p) || v == Direct(p)
    {
      forall v ensures Requested(v, lo, p + 1) <==> Requested(v, lo, p) || v == Direct(p) {
        if v == Direct(p) {
          assert lo <= p < p + 1;
        }
      }
    }

    /** The outcome of one call that completed the pages from lo to hi - 1. */
    ghost predicate MapResult(m0: Memory, m: Memory, lo: nat, hi: nat) {
      && (forall v :: IsPage(v) && (Walk(m0, root, 0, v).Some? || !Requested(v, lo, hi)) ==>
          Walk(m, root, 0, v) == Walk(m0, root, 0, v))
      && (forall p :: lo <= p < hi && Walk(m0, root, 0, Direct(p)).None? ==>
          IsDeviceLeaf(Walk(m, root, 0, Direct(p)), p))
    }

    lemma MapNext(m0: Memory, m1: Memory, m2: Memory, lo: nat, p: nat)
      requires lo <= p < lo + VIRTUAL_PAGES && MapResult(m0, m1, lo, p) && PageResult(m1, m2, p)
      ensures MapResult(m0, m2, lo, p + 1)
    {
      DirectIsNew(lo, p);
      RequestedNext(lo, p);
    }

    lemma MapNone(m: Memory, lo: nat)
      ensures MapResult(m, m, lo, lo)
    {
    }

    /** A page that is absent when the call gets to it was absent before. */
    lemma MapStops(m0: Memory, m1: Memory, m2: Memory, lo: nat, p: nat)
      requires lo <= p && MapResult(m0, m1, lo, p)
      requires forall v :: IsPage(v) ==> Walk(m2, root, 0, v) == Walk(m1, root, 0, v)
      requires Walk(m2, root, 0, Direct(p)).None?
      ensures MapResult(m0, m2, lo, p) && Walk(m0, root, 0, Direct(p)).None?
    {
    }

    /** Requested pages that were absent become uncached leaves of their own physical page,
        and no other translation changes. If the page source runs dry the call returns 0,
        having mapped the pages before an absent one. */
    method MapMmio(physBase: nat, numPages: nat) returns (ret: nat, ghost done: nat)
      requires Valid() && numPages <= VIRTUAL_PAGES
      modifies this
      ensures Valid() && WalksGrown(old(mem), mem, root)
      ensures done <= numPages && (done < numPages ==> pool == [] && old(At(Direct(physBase + done))).None?)
      ensures ret == if done == numPages then (hhdm + physBase) * PAGE_SIZE % TWO_64 else 0
      ensures MapResult(old(mem), mem, physBase, physBase + done)
    {
      hide Walk, Tree, WalksGrown, MapResult, PageResult, Direct;
      MapNone(mem, physBase);
      WalksGrownNone(mem, root);
      for k := 0 to numPages
        invariant Valid() && WalksGrown(old(mem), mem, root)
        invariant MapResult(old(mem), mem, physBase, physBase + k)
      {
        var phys := physBase + k;
        ghost var before := mem;
        var mapped := MapPage(phys);
        WalksGrownTwice(old(mem), before, mem, root);
        if !mapped {
          MapStops(old(mem), before, mem, physBase, phys);
          return 0, k;
        }
        MapNext(old(mem), before, mem, physBase, phys);
      }
      ret := (hhdm + physBase) * PAGE_SIZE % TWO_64;
      done := numPages;
    }

    lemma DirectInjective(lo: nat, hi: nat)
      requires hi <= VIRTUAL_PAGES
      ensures forall x, y :: lo <= x < hi && 0 <= y < VIRTUAL_PAGES && Direct(x) == Direct(y) ==> x == y
    {
      forall x, y | lo <= x < hi && 0 <= y < VIRTUAL_PAGES && Direct(x) == Direct(y) ensures x == y {
        if x < y {
          PathsDiffer(hhdm + x, hhdm + y);
        } else if y < x {
          PathsDiffer(hhdm + y, hhdm + x);
        }
      }
    }

    /** p is one of the pages the run has completed. */
    ghost predicate Done(bases: seq<nat>, dones: seq<nat>, p: nat)
      requires |dones| <= |bases|
    {
      exists i :: 0 <= i < |dones| && bases[i] <= p < bases[i] + dones[i]
    }

    /** v is the direct-map address of one of them. */
    ghost predicate Touched(bases: seq<nat>, dones: seq<nat>, v: Path)
      requires |dones| <= |bases|
    {
      exists p: nat :: Done(bases, dones, p) && v == Direct(p)
    }

    /** The outcome of a run that started from memory m0: what was mapped is unchanged, what
        was not requested is not mapped, and a requested page that was absent maps itself. */
    ghost predicate RunResult(m0: Memory, m: Memory, bases: seq<nat>, dones: seq<nat>)
      requires |dones| <= |bases|
    {
      && (forall v :: IsPage(v) && (Walk(m0, root, 0, v).Some? || !Touched(bases, dones, v)) ==>
          Walk(m, root, 0, v) == Walk(m0, root, 0, v))
      && (forall p: nat :: Done(bases, dones, p) && Walk(m0, root, 0, Direct(p)).None? ==>
            IsDeviceLeaf(Walk(m, root, 0, Direct(p)), p))
    }

    ghost predicate DoneBelow(bases: seq<nat>, dones: seq<nat>)
      requires |dones| <= |bases|
    {
      forall p: nat :: Done(bases, dones, p) ==> p < VIRTUAL_PAGES
    }

    lemma RunNone(m: Memory, bases: seq<nat>)
      ensures RunResult(m, m, bases, []) && DoneBelow(bases, [])
    {
    }

    lemma RunNext(m0: Memory, m1: Memory, m2: Memory, bases: seq<nat>, dones: seq<nat>, done: nat)
      requires |dones| < |bases| && RunResult(m0, m1, bases, dones)
      requires MapResult(m1, m2, bases[|dones|], bases[|dones|] + done) && bases[|dones|] + done <= VIRTUAL_PAGES
      requires DoneBelow(bases, dones)
      ensures RunResult(m0, m2, bases, dones + [done]) && DoneBelow(bases, dones + [done])
      ensures forall v :: IsPage(v) && Walk(m1, root, 0, v).None? ==> Walk(m0, root, 0, v).None?
    {
      DirectInjective(bases[|dones|], bases[|dones|] + done);
      DoneNext(bases, dones, done);
    }

    /** One call of a run from memory m0: it returns the direct-map address, or 0 when it
        stopped at a page that was absent. */
    ghost predicate CallResult(m0: Memory, base: nat, count: nat, done: nat, ret: nat) {
      && done <= count
      && (done == count ==> ret == (hhdm + base) * PAGE_SIZE % TWO_64)
      && (done < count ==> ret == 0 && Walk(m0, root, 0, Direct(base + done)).None?)
    }

    /** A run of calls, on physical pages below 2^36. */
    method MapRun(bases: seq<nat>, counts: seq<nat>) returns (rets: seq<nat>, ghost dones: seq<nat>)
      requires Valid() && |bases| == |counts| && forall i :: 0 <= i < |counts| ==> bases[i] + counts[i] <= VIRTUAL_PAGES
      modifies this
      ensures Valid() && WalksGrown(old(mem), mem, root) && |rets| == |dones| == |bases|
      ensures forall i :: 0 <= i < |bases| ==> CallResult(old(mem), bases[i], counts[i], dones[i], rets[i])
      ensures RunResult(old(mem), mem, bases, dones)
    {
      hide Walk, Tree, WalksGrown, MapResult, RunResult, DoneBelow;
      rets, dones := [], [];
      WalksGrownNone(mem, root);
      RunNone(mem, bases);
      for k := 0 to |bases|
        invariant Valid() && WalksGrown(old(mem), mem, root) && |rets| == |dones| == k
        invariant forall i :: 0 <= i < k ==> CallResult(old(mem), bases[i], counts[i], dones[i], rets[i])
        invariant DoneBelow(bases, dones)
        invariant RunResult(old(mem), mem, bases, dones)
      {
        ghost var before := mem;
        var ret;
        ghost var done;
        ret, done := MapMmio(bases[k], counts[k]);
        RunNext(old(mem), before, mem, bases, dones, done);
        WalksGrownTwice(old(mem), before, mem, root);
        rets, dones := rets + [ret], dones + [done];
      }
    }

    /** After a run every completed page translates to itself, exactly when none of them was
        mapped elsewhere before the run. */
    lemma RunFaithful(m0: Memory, m: Memory, bases: seq<nat>, dones: seq<nat>)
      requires |dones| <= |bases| && RunResult(m0, m, bases, dones)
      ensures (forall p: nat :: Done(bases, dones, p) ==> Translate(m, root, Direct(p)) == Some(p))
         <==> (forall p: nat :: Done(bases, dones, p) ==> Translate(m0, root, Direct(p)) in {None, Some(p)})
    {
    }

    lemma DoneNext(bases: seq<nat>, dones: seq<nat>, done: nat)
      requires |dones| < |bases|
      ensures var lo := bases[|dones|];
              && (forall p: nat :: Done(bases, dones + [done], p) <==> Done(bases, dones, p) || lo <= p < lo + done)
              && (forall v :: Touched(bases, dones + [done], v) <==>
                  Touched(bases, dones, v) || Requested(v, lo, lo + done))
    {
      var lo, k := bases[|dones|], |dones|;
      forall p: nat ensures Done(bases, dones + [done], p) <==> Done(bases, dones, p) || lo <= p < lo + done {
        if lo <= p < lo + done {
          assert (dones + [done])[k] == done;
        }
        if Done(bases, dones, p) {
          var i :| 0 <= i < |dones| && bases[i] <= p < bases[i] + dones[i];
          assert (dones + [done])[i] == dones[i];
        }
      }
    }

    /** One page of `make_executable`: the leaf that maps it, at whatever level. */
    method ExecutablePage(page: nat)
      requires Valid()
      modifies this`mem
      ensures Valid() && MarkedTo(Executable, old(mem), mem, tab, PathOf(page), 4)
    {
      var v := PathOf(page);
      ghost var m := mem;
      assert v[..0] == [] && MarkedTo(Executable, m, mem, tab, v, 0);
      WalkStep(mem, root, tab, [], v);
      MarkStep(Executable, m, mem, root, tab, v, 0);
      var pml4e := mem[root][v[0]];
      PutSame(mem, root, v[0]);
      if !pml4e.present {
        MarkDone(Executable, m, mem, root, tab, v, 0);
        return;
      }
      NextTable(mem, root, tab, v, 0);
      ExecutableFromPdpt(pml4e.frame, v, m);
    }

    /** The walk from its second level on. */
    method ExecutableFromPdpt(pdpt: nat, v: Path, ghost m: Memory)
      requires Valid() && Tree(m, root, tab) && IsPage(v) && v[..1] in tab && tab[v[..1]] == pdpt
      requires MarkedTo(Executable, m, mem, tab, v, 1) && pdpt in mem
      modifies this`mem
      ensures Valid() && MarkedTo(Executable, m, mem, tab, v, 4)
    {
      MarkStep(Executable, m, mem, root, tab, v, 1);
      var pdpte := mem[pdpt][v[1]];
      PutSame(mem, pdpt, v[1]);
      if !pdpte.present {
        MarkDone(Executable, m, mem, root, tab, v, 1);
        return;
      }
      if pdpte.huge {
        mem := PutEntry(mem, pdpt, v[1], pdpte.(nx := false, writable := true));
        MarkDone(Executable, m, mem, root, tab, v, 1);
        return;
      }
      NextTable(mem, root, tab, v, 1);
      ExecutablePageBelow(pdpte.frame, v, m);
    }

    /** The two lower levels of the walk. */
    method ExecutablePageBelow(pd: nat, v: Path, ghost m: Memory)
      requires Valid() && Tree(m, root, tab) && IsPage(v) && v[..2] in tab && tab[v[..2]] == pd
      requires MarkedTo(Executable, m, mem, tab, v, 2) && pd in mem
      modifies this`mem
      ensures Valid() && MarkedTo(Executable, m, mem, tab, v, 4)
    {
      MarkStep(Executable, m, mem, root, tab, v, 2);
      var pde := mem[pd][v[2]];
      PutSame(mem, pd, v[2]);
      if !pde.present {
        MarkDone(Executable, m, mem, root, tab, v, 2);
        return;
      }
      if pde.huge {
        mem := PutEntry(mem, pd, v[2], pde.(nx := false, writable := true));
        MarkDone(Executable, m, mem, root, tab, v, 2);
        return;
      }
      NextTable(mem, root, tab, v, 2);
      var pt := pde.frame;
      MarkStep(Executable, m, mem, root, tab, v, 3);
      var pte := mem[pt][v[3]];
      PutSame(mem, pt, v[3]);
      if pte.present {
        mem := PutEntry(mem, pt, v[3], pte.(nx := false, writable := true));
      }
    }

    /** One page of `make_user_accessible`: every entry on the way to its leaf. */
    method UserPage(page: nat)
      requires Valid()
      modifies this`mem
      ensures Valid() && MarkedTo(UserAccessible, old(mem), mem, tab, PathOf(page), 4)
    {
      var v := PathOf(page);
      ghost var m := mem;
      assert v[..0] == [] && MarkedTo(UserAccessible, m, mem, tab, v, 0);
      WalkStep(mem, root, tab, [], v);
      MarkStep(UserAccessible, m, mem, root, tab, v, 0);
      var pml4e := mem[root][v[0]];
      PutSame(mem, root, v[0]);
      if !pml4e.present {
        MarkDone(UserAccessible, m, mem, root, tab, v, 0);
        return;
      }
      mem := PutEntry(mem, root, v[0], pml4e.(user := true));
      NextTable(mem, root, tab, v, 0);
      UserFromPdpt(pml4e.frame, v, m);
    }

    /** The walk from its second level on. */
    method UserFromPdpt(pdpt: nat, v: Path, ghost m: Memory)
      requires Valid() && Tree(m, root, tab) && IsPage(v) && v[..1] in tab && tab[v[..1]] == pdpt
      requires MarkedTo(UserAccessible, m, mem, tab, v, 1) && pdpt in mem
      modifies this`mem
      ensures Valid() && MarkedTo(UserAccessible, m, mem, tab, v, 4)
    {
      MarkStep(UserAccessible, m, mem, root, tab, v, 1);
      var pdpte := mem[pdpt][v[1]];
      PutSame(mem, pdpt, v[1]);
      if !pdpte.present {
        MarkDone(UserAccessible, m, mem, root, tab, v, 1);
        return;
      }
      PutTwice(mem, pdpt, v[1], pdpte.(user := true), pdpte.(user := true, writable := true, nx := false));
      mem := PutEntry(mem, pdpt, v[1], pdpte.(user := true));
      if pdpte.huge {
        mem := PutEntry(mem, pdpt, v[1], pdpte.(user := true, writable := true, nx := false));
        MarkDone(UserAccessible, m, mem, root, tab, v, 1);
        return;
      }
      NextTable(mem, root, tab, v, 1);
      UserPageBelow(pdpte.frame, v, m);
    }

    /** The two lower levels of the walk. */
    method UserPageBelow(pd: nat, v: Path, ghost m: Memory)
      requires Valid() && Tree(m, root, tab) && IsPage(v) && v[..2] in tab && tab[v[..2]] == pd
      requires MarkedTo(UserAccessible, m, mem, tab, v, 2) && pd in mem
      modifies this`mem
      ensures Valid() && MarkedTo(UserAccessible, m, mem, tab, v, 4)
    {
      MarkStep(UserAccessible, m, mem, root, tab, v, 2);
      var pde := mem[pd][v[2]];
      PutSame(mem, pd, v[2]);
      if !pde.present {
        MarkDone(UserAccessible, m, mem, root, tab, v, 2);
        return;
      }
      PutTwice(mem, pd, v[2], pde.(user := true), pde.(user := true, writable := true, nx := false));
      mem := PutEntry(mem, pd, v[2], pde.(user := true));
      if pde.huge {
        mem := PutEntry(mem, pd, v[2], pde.(user := true, writable := true, nx := false));
        MarkDone(UserAccessible, m, mem, root, tab, v, 2);
        return;
      }
      NextTable(mem, root, tab, v, 2);
      var pt := pde.frame;
      MarkStep(UserAccessible, m, mem, root, tab, v, 3);
      var pte := mem[pt][v[3]];
      PutSame(mem, pt, v[3]);
      if pte.present {
        mem := PutEntry(mem, pt, v[3], pte.(user := true, writable := true, nx := false));
      }
    }

    method MakeExecutable(vaddr: nat, size: nat)
      requires Valid() && vaddr < TWO_64 && size < TWO_64
      modifies this`mem
      ensures Valid() && MarkedRange(Executable, old(mem), mem, tab, FirstPage(vaddr), EndPage(vaddr, size))
    {
      var addr := FirstPage(vaddr);
      var end := EndPage(vaddr, size);
      NothingCovered(Executable, mem, tab, addr);
      while addr < end
        invariant FirstPage(vaddr) <= addr && (end <= FirstPage(vaddr) ==> addr == FirstPage(vaddr))
        invariant FirstPage(vaddr) < end ==> addr <= end
        invariant Valid() && MarkedRange(Executable, old(mem), mem, tab, FirstPage(vaddr), addr)
      {
        ghost var m1 := mem;
        ExecutablePage(addr);
        MarkNext(Executable, old(mem), m1, mem, tab, FirstPage(vaddr), addr);
        addr := addr + 1;
      }
      NothingBeyond(Executable, old(mem), mem, tab, FirstPage(vaddr), addr, end);
    }

    method MakeUserAccessible(vaddr: nat, size: nat)
      requires Valid() && vaddr < TWO_64 && size < TWO_64
      modifies this`mem
      ensures Valid() && MarkedRange(UserAccessible, old(mem), mem, tab, FirstPage(vaddr), EndPage(vaddr, size))
    {
      var addr := FirstPage(vaddr);
      var end := EndPage(vaddr, size);
      NothingCovered(UserAccessible, mem, tab, addr);
      while addr < end
        invariant FirstPage(vaddr) <= addr && (end <= FirstPage(vaddr) ==> addr == FirstPage(vaddr))
        invariant FirstPage(vaddr) < end ==> addr <= end
        invariant Valid() && MarkedRange(UserAccessible, old(mem), mem, tab, FirstPage(vaddr), addr)
      {
        ghost var m1 := mem;
        UserPage(addr);
        MarkNext(UserAccessible, old(mem), m1, mem, tab, FirstPage(vaddr), addr);
        addr := addr + 1;
      }
      NothingBeyond(UserAccessible, old(mem), mem, tab, FirstPage(vaddr), addr, end);
    }
  }

  /** Two tables: the root's first entry leads to one whose first entry maps a large page
      from frame 7 on. */
  function LargePageMemory(): Memory {
    map[0 := ZERO_TABLE[0 := LinkTo(1)], 1 := ZERO_TABLE[0 := Entry(true, true, false, false, false, true, false, 7)]]
  }

  ghost function LargePageTables(): map<Path, nat> {
    map[[] := 0, [0] := 1]
  }

  lemma LargePageFacts()
    ensures Tree(LargePageMemory(), 0, LargePageTables())
    ensures Walk(LargePageMemory(), 0, 0, PathOf(1)).Some? && Translate(LargePageMemory(), 0, PathOf(1)) == Some(8)
  {
    var mem, tab := LargePageMemory(), LargePageTables();
    forall q | q in tab ensures NodeOk(mem, tab, q) {
      forall i | 0 <= i < ENTRIES ensures SlotOk(mem, tab, q, i) {
        assert q == [] ==> q + [i] == [i];
        assert q == [0] ==> q + [i] == [0, i];
      }
    }
    assert PathOf(1) == [0, 0, 0, 1];
    assert Walk(mem, 1, 1, PathOf(1)) == Some(Leaf(1, mem[1][0])) == Walk(mem, 0, 0, PathOf(1));
  }

  /** A run that is not faithful: physical page 0 is asked for and its direct-map address
      returned, but that page was mapped to page 8 before and still is. */
  method MappedElsewhere() returns (space: AddressSpace, rets: seq<nat>, ghost dones: seq<nat>)
    ensures dones == [1] && rets == [PAGE_SIZE]
    ensures Translate(space.mem, space.root, space.Direct(0)) == Some(8)
  {
    hide Walk, Tree, PathOf;
    LargePageFacts();
    space := new AddressSpace(0, 1, LargePageMemory(), [], LargePageTables());
    rets, dones := space.MapRun([0], [1]);
    assert space.CallResult(LargePageMemory(), 0, 1, dones[0], rets[0]);
  }

  /** `vaddr & !0xFFF`, as a page number. */
  function FirstPage(vaddr: nat): nat {
    vaddr / PAGE_SIZE
  }

  /** `(vaddr + size + 0xFFF) & !0xFFF`, as a page number; the sum wraps at 2^64. */
  function EndPage(vaddr: nat, size: nat): nat {
    (vaddr + size + 0xFFF) % TWO_64 / PAGE_SIZE
  }

  /** Some byte of the range lies in page p. */
  ghost predicate HoldsByte(vaddr: nat, size: nat, p: nat) {
    exists b :: vaddr <= b < vaddr + size && b / PAGE_SIZE == p
  }

  /** The page loop reaches page p. */
  ghost predicate IsVisited(vaddr: nat, size: nat, p: nat) {
    FirstPage(vaddr) <= p < EndPage(vaddr, size)
  }

  /** The loop reaches exactly the pages that hold a byte of the range, exactly when the
      rounded end does not wrap. When it wraps, the loop misses the range's last page at
      least, and may still reach others. */
  lemma PagesOfRange(vaddr: nat, size: nat)
    requires 0 < size < TWO_64 && vaddr < TWO_64
    ensures (forall p: nat :: IsVisited(vaddr, size, p) <==> HoldsByte(vaddr, size, p)) <==>
        vaddr + size + 0xFFF < TWO_64
  {
    if vaddr + size + 0xFFF < TWO_64 {
      forall p: nat ensures IsVisited(vaddr, size, p) <==> HoldsByte(vaddr, size, p) {
        VisitedHolds(vaddr, size, p);
      }
    } else {
      var last := vaddr + size - 1;
      assert HoldsByte(vaddr, size, last / PAGE_SIZE);
      assert EndPage(vaddr, size) <= last / PAGE_SIZE;
      assert !IsVisited(vaddr, size, last / PAGE_SIZE);
    }
  }

  lemma VisitedHolds(vaddr: nat, size: nat, p: nat)
    requires 0 < size && vaddr + size + 0xFFF < TWO_64
    ensures IsVisited(vaddr, size, p) <==> HoldsByte(vaddr, size, p)
  {
    if IsVisited(vaddr, size, p) {
      var b := if p == FirstPage(vaddr) then vaddr else p * PAGE_SIZE;
      assert vaddr <= b < vaddr + size && b / PAGE_SIZE == p;
    }
  }

  /** A rounded end that wraps need not stop the loop: here it still reaches page 1. */
  lemma WrappedVisit()
    ensures var vaddr, size := 0x1002, TWO_64 - 1;
            vaddr + size + 0xFFF >= TWO_64 && forall p: nat :: IsVisited(vaddr, size, p) <==> p == 1
  {
  }

  lemma NothingCovered(mode: Mode, m: Memory, tab: map<Path, nat>, lo: nat)
    ensures MarkedRange(mode, m, m, tab, lo, lo)
  {
  }

  /** When the loop does not run, nothing is covered by its bounds either. */
  lemma NothingBeyond(mode: Mode, m: Memory, m2: Memory, tab: map<Path, nat>, lo: nat, at: nat, end: nat)
    requires MarkedRange(mode, m, m2, tab, lo, at) && lo <= at && end <= at && (at == end || at == lo)
    ensures MarkedRange(mode, m, m2, tab, lo, end)
  {
    forall q, i ensures Covered(q, i, lo, at) <==> Covered(q, i, lo, end) {
    }
  }

  lemma PutTwice(mem: Memory, f: nat, i: nat, a: Entry, b: Entry)
    requires f in mem && i < ENTRIES
    ensures PutEntry(PutEntry(mem, f, i, a), f, i, b) == PutEntry(mem, f, i, b)
  {
    assert mem[f][i := a][i := b] == mem[f][i := b];
  }

  /** The entry at depth n of v's path links to the table one level down. */
  lemma NextTable(mem: Memory, root: nat, tab: map<Path, nat>, v: Path, n: nat)
    requires Tree(mem, root, tab) && IsPage(v) && n < 3 && v[..n] in tab
    requires IsLink(n, EntryAt(mem, tab, v[..n], v[n]))
    ensures v[..n + 1] in tab && tab[v[..n + 1]] in mem && tab[v[..n + 1]] == EntryAt(mem, tab, v[..n], v[n]).frame
  {
    assert NodeOk(mem, tab, v[..n]) && SlotOk(mem, tab, v[..n], v[n]);
    assert v[..n + 1] == v[..n] + [v[n]];
    assert NodeOk(mem, tab, v[..n + 1]);
  }

  /** An absent entry on the path of a page leaves it unmapped. */
  lemma AbsentMaps(mem: Memory, root: nat, tab: map<Path, nat>, v: Path, n: nat)
    requires Tree(mem, root, tab) && IsPage(v) && n < 4 && v[..n] in tab && tab[v[..n]] in mem
    requires !mem[tab[v[..n]]][v[n]].present
    ensures Walk(mem, root, 0, v).None?
  {
    WalkStep(mem, root, tab, v[..n], v);
    WalkDown(mem, root, tab, v, n);
  }

  /** A leaf entry on the path of a page maps it. */
  lemma LeafMaps(mem: Memory, root: nat, tab: map<Path, nat>, v: Path, n: nat)
    requires Tree(mem, root, tab) && IsPage(v) && n < 4 && v[..n] in tab && tab[v[..n]] in mem
    requires IsLeaf(n, mem[tab[v[..n]]][v[n]])
    ensures Walk(mem, root, 0, v).Some?
  {
    WalkStep(mem, root, tab, v[..n], v);
    WalkDown(mem, root, tab, v, n);
  }

  lemma {:induction false} WalkDown(mem: Memory, root: nat, tab: map<Path, nat>, v: Path, n: nat)
    requires Tree(mem, root, tab) && IsPage(v) && n < 4 && v[..n] in tab
    ensures Walk(mem, root, 0, v) == Walk(mem, tab[v[..n]], n, v)
  {
    if n == 0 {
      assert v[..0] == [];
    } else {
      PrefixInTree(mem, root, tab, v[..n], n - 1);
      assert v[..n][..n - 1] == v[..n - 1];
      WalkStep(mem, root, tab, v[..n - 1], v);
      WalkDown(mem, root, tab, v, n - 1);
    }
  }

  // ---------------------------------------------------------------- what the flag walks keep

  /** The leaf of page v after the entries of the range were marked. */
  ghost function MarkedLeaf(mode: Mode, w: Leaf, v: Path, lo: nat, hi: nat): Leaf
    requires IsPage(v) && w.level < 4
  {
    if Covered(v[..w.level], v[w.level], lo, hi) then w.(entry := Mark(mode, w.level, w.entry)) else w
  }

  /** Some page of the range is mapped by the same leaf as v, found at this level. */
  ghost predicate SharesLeaf(v: Path, level: nat, lo: nat, hi: nat)
    requires IsPage(v) && level < 4
  {
    exists p :: lo <= p < hi && PathOf(p)[..level + 1] == v[..level + 1]
  }

  /** A marking keeps present, huge and frame, hence links and physical pages. */
  lemma {:induction false} MarkedWalk(mode: Mode, m: Memory, m2: Memory, root: nat, tab: map<Path, nat>, lo: nat,
      hi: nat, r: Path, v: Path)
    requires Tree(m, root, tab) && Tree(m2, root, tab) && MarkedRange(mode, m, m2, tab, lo, hi)
    requires r in tab && IsPage(v) && r == v[..|r|]
    ensures |r| < 4
    ensures var w, w2 := Walk(m, tab[r], |r|, v), Walk(m2, tab[r], |r|, v);
            && (w.None? <==> w2.None?)
            && (w.Some? ==> w.value.level < 4 && IsLeaf(w.value.level, w.value.entry))
            && (w.Some? ==> w2.value == MarkedLeaf(mode, w.value, v, lo, hi))
    decreases 4 - |r|
  {
    assert NodeOk(m, tab, r) && NodeOk(m2, tab, r);
    WalkStep(m, root, tab, r, v);
    WalkStep(m2, root, tab, r, v);
    assert EntryAt(m, tab, r, v[|r|]) == m[tab[r]][v[|r|]] && EntryAt(m2, tab, r, v[|r|]) == m2[tab[r]][v[|r|]];
    if IsLink(|r|, m[tab[r]][v[|r|]]) {
      MarkedWalk(mode, m, m2, root, tab, lo, hi, v[..|r| + 1], v);
    }
  }

  /** No page's physical translation changes, and a leaf that maps no page of the range is
      left as it was. */
  lemma TranslationKept(mode: Mode, m: Memory, m2: Memory, root: nat, tab: map<Path, nat>, lo: nat, hi: nat, v: Path)
    requires Tree(m, root, tab) && Tree(m2, root, tab) && MarkedRange(mode, m, m2, tab, lo, hi) && IsPage(v)
    ensures Translate(m2, root, v) == Translate(m, root, v)
    ensures var w := Walk(m, root, 0, v);
            w.Some? ==> w.value.level < 4 && (SharesLeaf(v, w.value.level, lo, hi) || Walk(m2, root, 0, v) == w)
  {
    assert v[..0] == [];
    MarkedWalk(mode, m, m2, root, tab, lo, hi, [], v);
    var w := Walk(m, root, 0, v);
    if w.Some? && Covered(v[..w.value.level], v[w.value.level], lo, hi) {
      var l := w.value.level;
      var p :| lo <= p < hi && OnPath(v[..l], v[l], PathOf(p));
      assert PathOf(p)[..l + 1] == PathOf(p)[..l] + [PathOf(p)[l]] == v[..l + 1];
    }
  }

  /** Afterwards every mapped page of the range has a writable leaf that may be executed,
      and for user access the user bit at every level. */
  lemma RangeMarked(mode: Mode, m: Memory, m2: Memory, root: nat, tab: map<Path, nat>, lo: nat, hi: nat, p: nat)
    requires Tree(m, root, tab) && Tree(m2, root, tab) && MarkedRange(mode, m, m2, tab, lo, hi)
    requires lo <= p < hi && Walk(m, root, 0, PathOf(p)).Some?
    ensures var w2 := Walk(m2, root, 0, PathOf(p));
            w2.Some? && w2.value.entry.writable && !w2.value.entry.nx
    ensures mode == UserAccessible ==> UserWalk(m2, root, 0, PathOf(p))
  {
    var v := PathOf(p);
    assert v[..0] == [];
    MarkedWalk(mode, m, m2, root, tab, lo, hi, [], v);
    var l := Walk(m, root, 0, v).value.level;
    assert OnPath(v[..l], v[l], v);
    if mode == UserAccessible {
      UserAllTheWay(m, m2, root, tab, lo, hi, [], p);
    }
  }

  lemma {:induction false} UserAllTheWay(m: Memory, m2: Memory, root: nat, tab: map<Path, nat>, lo: nat, hi: nat,
      r: Path, p: nat)
    requires Tree(m, root, tab) && Tree(m2, root, tab) && MarkedRange(UserAccessible, m, m2, tab, lo, hi) &&
        lo <= p < hi
    requires r in tab && r == PathOf(p)[..|r|] && |r| < 4 && Walk(m, tab[r], |r|, PathOf(p)).Some?
    ensures UserWalk(m2, tab[r], |r|, PathOf(p))
    decreases 4 - |r|
  {
    var v := PathOf(p);
    WalkStep(m, root, tab, r, v);
    WalkStep(m2, root, tab, r, v);
    assert OnPath(r, v[|r|], v);
    assert EntryAt(m, tab, r, v[|r|]) == m[tab[r]][v[|r|]] && EntryAt(m2, tab, r, v[|r|]) == m2[tab[r]][v[|r|]];
    if IsLink(|r|, m2[tab[r]][v[|r|]]) {
      NextTable(m2, root, tab, v, |r|);
      UserAllTheWay(m, m2, root, tab, lo, hi, v[..|r| + 1], p);
    }
  }

  /** e2 is e with the flags of this mode set: a leaf may be written and executed, user mode
      may pass any entry, and nothing else differs. */
  ghost predicate FlagsSet(mode: Mode, isLink: bool, e: Entry, e2: Entry) {
    && e2.present == e.present && e2.huge == e.huge && e2.frame == e.frame && e2.pwt == e.pwt && e2.pcd == e.pcd
    && (if isLink then e2.writable == e.writable && e2.nx == e.nx else e2.writable && !e2.nx)
    && (match mode case Executable => e2.user == e.user case UserAccessible => e2.user)
  }

  /** What the marking of the range makes of the entry e that v reads at depth k. */
  ghost predicate EntryMarked(mode: Mode, e: Entry, e2: Entry, v: Path, k: nat, lo: nat, hi: nat)
    requires IsPage(v) && k < 4
  {
    if Covered(v[..k], v[k], lo, hi) then FlagsSet(mode, IsLink(k, e), e, e2) else e2 == e
  }

  ghost predicate EntriesMarked(mode: Mode, es: seq<Entry>, es2: seq<Entry>, v: Path, at: nat, lo: nat, hi: nat)
    requires IsPage(v) && at + |es| <= 4
  {
    |es| == |es2| && forall k: nat :: k < |es| ==> EntryMarked(mode, es[k], es2[k], v, at + k, lo, hi)
  }

  lemma EntriesCons(mode: Mode, e: Entry, e2: Entry, es: seq<Entry>, es2: seq<Entry>, v: Path, at: nat, lo: nat,
      hi: nat)
    requires IsPage(v) && at + 1 + |es| <= 4 && EntriesMarked(mode, es, es2, v, at + 1, lo, hi)
    requires EntryMarked(mode, e, e2, v, at, lo, hi)
    ensures EntriesMarked(mode, [e] + es, [e2] + es2, v, at, lo, hi)
  {
    hide EntryMarked;
    forall k: nat | k < 1 + |es| ensures EntryMarked(mode, ([e] + es)[k], ([e2] + es2)[k], v, at + k, lo, hi) {
      if k > 0 {
        assert EntryMarked(mode, es[k - 1], es2[k - 1], v, at + 1 + (k - 1), lo, hi);
      }
    }
  }

  /** Entry by entry: what a walk reads has the flags set if some page of the range reads it
      too, and is as it was if none does. */
  lemma {:induction false} ReadsMarked(mode: Mode, m: Memory, m2: Memory, root: nat, tab: map<Path, nat>, lo: nat,
      hi: nat, r: Path, v: Path)
    requires Tree(m, root, tab) && Tree(m2, root, tab) && MarkedRange(mode, m, m2, tab, lo, hi)
    requires r in tab && IsPage(v) && r == v[..|r|]
    ensures |r| < 4
    ensures EntriesMarked(mode, Reads(m, tab[r], |r|, v), Reads(m2, tab[r], |r|, v), v, |r|, lo, hi)
    decreases 4 - |r|
  {
    hide Tree, Reads, MarkedRange, EntryMarked;
    ReadsStep(m, root, tab, r, v);
    ReadsStep(m2, root, tab, r, v);
    EntryInRange(mode, m, m2, root, tab, lo, hi, r, v);
    if v[..|r| + 1] in tab {
      var e, e2 := m[tab[r]][v[|r|]], m2[tab[r]][v[|r|]];
      ReadsMarked(mode, m, m2, root, tab, lo, hi, v[..|r| + 1], v);
      EntriesCons(mode, e, e2, Reads(m, tab[v[..|r| + 1]], |r| + 1, v), Reads(m2, tab[v[..|r| + 1]], |r| + 1, v),
        v, |r|, lo, hi);
    }
  }

  lemma EntryInRange(mode: Mode, m: Memory, m2: Memory, root: nat, tab: map<Path, nat>, lo: nat, hi: nat, r: Path,
      v: Path)
    requires Tree(m, root, tab) && Tree(m2, root, tab) && MarkedRange(mode, m, m2, tab, lo, hi)
    requires r in tab && IsPage(v) && r == v[..|r|]
    ensures |r| < 4 && tab[r] in m && tab[r] in m2
    ensures var e, e2 := m[tab[r]][v[|r|]], m2[tab[r]][v[|r|]];
            e2.present == e.present && (e.present ==> EntryMarked(mode, e, e2, v, |r|, lo, hi))
  {
    assert NodeOk(m, tab, r) && NodeOk(m2, tab, r);
    assert EntryAt(m, tab, r, v[|r|]) == m[tab[r]][v[|r|]] && EntryAt(m2, tab, r, v[|r|]) == m2[tab[r]][v[|r|]];
  }

  /** A page of the range: every entry its walk reads has the flags set. */
  lemma RangeFlags(mode: Mode, m: Memory, m2: Memory, root: nat, tab: map<Path, nat>, lo: nat, hi: nat, p: nat)
    requires Tree(m, root, tab) && Tree(m2, root, tab) && MarkedRange(mode, m, m2, tab, lo, hi) && lo <= p < hi
    ensures var es, es2 := Reads(m, root, 0, PathOf(p)), Reads(m2, root, 0, PathOf(p));
            |es| == |es2| && forall k :: 0 <= k < |es| ==> FlagsSet(mode, IsLink(k, es[k]), es[k], es2[k])
  {
    hide PathOf, FlagsSet, Reads, MarkedRange, NodeOk;
    var v := PathOf(p);
    assert v[..0] == [];
    ReadsMarked(mode, m, m2, root, tab, lo, hi, [], v);
    var es, es2 := Reads(m, root, 0, v), Reads(m2, root, 0, v);
    forall k: nat | k < |es| ensures FlagsSet(mode, IsLink(k, es[k]), es[k], es2[k]) {
      assert OnPath(v[..k], v[k], PathOf(p));
      assert EntryMarked(mode, es[k], es2[k], v, 0 + k, lo, hi);
    }
  }

  /** Pages under one leaf lie in physical memory as they do in the address space. */
  lemma LeafIsLinear(l: Leaf, v: Path, w: Path)
    requires IsPage(v) && IsPage(w) && 1 <= l.level < 4 && v[..l.level + 1] == w[..l.level + 1]
    ensures PhysicalPage(l, v) - PhysicalPage(l, w) == PageOf(v) - PageOf(w)
  {
    forall k | 0 <= k <= l.level ensures v[k] == w[k] {
      assert v[..l.level + 1][k] == w[..l.level + 1][k];
    }
  }
}
