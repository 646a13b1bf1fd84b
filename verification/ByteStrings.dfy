/** Bytes, little-endian fields, and copying into a stretch of memory. */
module ByteStrings {
  import opened Prelude

  type Byte = b: nat | b < 256

  /** Little-endian fields of two, four and eight bytes. */
  function Le16(m: seq<Byte>, at: nat): (v: nat)
    requires at + 2 <= |m|
    ensures v < 0x1_0000
  {
    m[at] as nat + 0x100 * (m[at + 1] as nat)
  }

  function Le32(m: seq<Byte>, at: nat): (v: nat)
    requires at + 4 <= |m|
    ensures v < 0x1_0000_0000
  {
    Le16(m, at) + 0x1_0000 * Le16(m, at + 2)
  }

  function Le64(m: seq<Byte>, at: nat): (v: nat)
    requires at + 8 <= |m|
    ensures v < TWO_64
  {
    Le32(m, at) + 0x1_0000_0000 * Le32(m, at + 4)
  }

  /** The first byte counts least. */
  lemma LittleEndian()
    ensures var m: seq<Byte> := [0x78, 0x56, 0x34, 0x12, 0xF0, 0xDE, 0xBC, 0x9A];
            Le16(m, 0) == 0x5678 && Le32(m, 0) == 0x1234_5678 && Le64(m, 0) == 0x9ABC_DEF0_1234_5678
  {
  }

  /** The same fields written. */
  function To16(v: nat): (s: seq<Byte>)
    ensures |s| == 2
    ensures v < 0x1_0000 ==> Le16(s, 0) == v
  {
    [v % 0x100, v / 0x100 % 0x100]
  }

  function To32(v: nat): (s: seq<Byte>)
    ensures |s| == 4
    ensures v < 0x1_0000_0000 ==> Le32(s, 0) == v
  {
    var lo, hi := To16(v % 0x1_0000), To16(v / 0x1_0000);
    assert v < 0x1_0000_0000 ==> Le16(lo, 0) + 0x1_0000 * Le16(hi, 0) == v;
    lo + hi
  }

  function To64(v: nat): (s: seq<Byte>)
    ensures |s| == 8
    ensures v < TWO_64 ==> Le64(s, 0) == v
  {
    var lo, hi := To32(v % 0x1_0000_0000), To32(v / 0x1_0000_0000);
    var s := lo + hi;
    assert Le32(s, 0) == Le32(lo, 0) && Le32(s, 4) == Le32(hi, 0);
    s
  }

  /** Writing a field back gives the bytes it was read from. */
  lemma To16OfLe(m: seq<Byte>, at: nat)
    requires at + 2 <= |m|
    ensures To16(Le16(m, at)) == Part(m, at, 2)
  {
    var lo, hi := m[at] as nat, m[at + 1] as nat;
    assert (lo + 0x100 * hi) % 0x100 == lo && (lo + 0x100 * hi) / 0x100 == hi;
  }

  lemma To32OfLe(m: seq<Byte>, at: nat)
    requires at + 4 <= |m|
    ensures To32(Le32(m, at)) == Part(m, at, 4)
  {
    var lo, hi := Le16(m, at), Le16(m, at + 2);
    DivMod(hi, lo, 0x1_0000);
    assert Le32(m, at) == hi * 0x1_0000 + lo;
    hide Le32, Le16, To16;
    To16OfLe(m, at);
    To16OfLe(m, at + 2);
    assert Part(m, at, 4) == Part(m, at, 2) + Part(m, at + 2, 2);
  }

  lemma To64OfLe(m: seq<Byte>, at: nat)
    requires at + 8 <= |m|
    ensures To64(Le64(m, at)) == Part(m, at, 8)
  {
    var lo, hi := Le32(m, at), Le32(m, at + 4);
    DivMod(hi, lo, 0x1_0000_0000);
    assert Le64(m, at) == hi * 0x1_0000_0000 + lo;
    hide Le64, Le32, To32;
    To32OfLe(m, at);
    To32OfLe(m, at + 4);
    assert Part(m, at, 8) == Part(m, at, 4) + Part(m, at + 4, 4);
  }

  /** A field holds v exactly when its bytes are those of v. */
  lemma FieldIs16(m: seq<Byte>, at: nat, v: nat)
    requires at + 2 <= |m| && v < 0x1_0000
    ensures Le16(m, at) == v <==> Part(m, at, 2) == To16(v)
  {
    To16OfLe(m, at);
    assert Le16(Part(m, at, 2), 0) == Le16(m, at);
  }

  lemma FieldIs32(m: seq<Byte>, at: nat, v: nat)
    requires at + 4 <= |m| && v < 0x1_0000_0000
    ensures Le32(m, at) == v <==> Part(m, at, 4) == To32(v)
  {
    To32OfLe(m, at);
    assert Le32(Part(m, at, 4), 0) == Le32(m, at);
  }

  lemma FieldIs64(m: seq<Byte>, at: nat, v: nat)
    requires at + 8 <= |m| && v < TWO_64
    ensures Le64(m, at) == v <==> Part(m, at, 8) == To64(v)
  {
    To64OfLe(m, at);
    assert Le64(Part(m, at, 8), 0) == Le64(m, at);
  }

  /** Some bytes of s: those from at on, n of them. */
  function Part(s: seq<Byte>, at: nat, n: nat): (p: seq<Byte>)
    requires at + n <= |s|
    ensures |p| == n
  {
    s[at..at + n]
  }

  /** A field of some bytes read on their own. */
  lemma FieldOfPart(s: seq<Byte>, at: nat, n: nat, x: seq<Byte>, k: nat)
    requires at + n <= |s| && k + 4 <= n <= |x| && x[..n] == Part(s, at, n)
    ensures Le32(x, k) == Le32(s, at + k)
  {
    assert forall i {:trigger x[k + i]} :: 0 <= i < 4 ==> x[k + i] == x[..n][k + i] == Part(s, at, n)[k + i];
  }

  function Zeros(n: nat): (z: seq<Byte>)
    ensures |z| == n
  {
    seq(n, i => 0)
  }

  /** m with x written from address at on. */
  function Splice(m: seq<Byte>, at: nat, x: seq<Byte>): (r: seq<Byte>)
    requires at + |x| <= |m|
    ensures |r| == |m|
  {
    m[..at] + x + m[at + |x|..]
  }

  lemma SpliceTwice(m: seq<Byte>, at: nat, x: seq<Byte>, y: seq<Byte>)
    requires at + |x| + |y| <= |m|
    ensures Splice(Splice(m, at, x), at + |x|, y) == Splice(m, at, x + y)
  {
  }

  lemma SpliceAt(m: seq<Byte>, at: nat, x: seq<Byte>, k: nat)
    requires at + |x| <= |m| && k < |m|
    ensures Splice(m, at, x)[k] == if at <= k < at + |x| then x[k - at] else m[k]
  {
  }

  /** `copy_nonoverlapping` of x to address at. */
  method Copy(mem: array<Byte>, at: nat, x: seq<Byte>)
    requires at + |x| <= mem.Length
    modifies mem
    ensures mem[..] == Splice(old(mem[..]), at, x)
  {
    ghost var m := mem[..];
    forall i | 0 <= i < |x| {
      mem[at + i] := x[i];
    }
    forall k: nat | k < mem.Length ensures mem[..][k] == Splice(m, at, x)[k] {
      SpliceAt(m, at, x, k);
    }
  }

  /** Splicing over the start of zeros. */
  lemma SpliceZeros(x: seq<Byte>, n: nat)
    requires |x| <= n
    ensures Splice(Zeros(n), 0, x) == x + Zeros(n - |x|)
  {
  }

  /** Behind spliced bytes lies what lay there before. */
  lemma SpliceTail(m: seq<Byte>, at: nat, x: seq<Byte>, n: nat)
    requires n <= |x| && at + |x| <= |m|
    ensures Splice(m, at, x)[at..] == x[..n] + Splice(m, at, x)[at + n..]
  {
  }

  const SLASH: Byte := 47
  const DOT: Byte := 46

  /** `trim_start_matches('/')`. */
  function TrimSlashes(path: seq<Byte>): seq<Byte> {
    if path != [] && path[0] == SLASH then TrimSlashes(path[1..]) else path
  }

  /** The bytes x lie in m from address at on. */
  ghost predicate Holds(m: seq<Byte>, at: nat, x: seq<Byte>) {
    at + |x| <= |m| && forall i {:trigger x[i]} :: 0 <= i < |x| ==> m[at + i] == x[i]
  }

  lemma HoldsSplit(m: seq<Byte>, at: nat, x: seq<Byte>, y: seq<Byte>)
    requires Holds(m, at, x + y)
    ensures Holds(m, at, x) && Holds(m, at + |x|, y)
  {
    forall i | 0 <= i < |x| ensures m[at + i] == x[i] {
      assert (x + y)[i] == x[i];
    }
    forall i | 0 <= i < |y| ensures m[at + |x| + i] == y[i] {
      assert (x + y)[|x| + i] == y[i];
    }
  }

  lemma HoldsPart(m: seq<Byte>, at: nat, x: seq<Byte>, k: nat, n: nat)
    requires Holds(m, at, x) && k + n <= |x|
    ensures Part(m, at + k, n) == Part(x, k, n)
  {
    var p, q := Part(m, at + k, n), Part(x, k, n);
    forall i | 0 <= i < n ensures p[i] == q[i] {
      assert x[k + i] == q[i];
    }
  }
}
