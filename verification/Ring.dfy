/** The single-producer, single-consumer rings of src/kern/arch/x86_64/ipc.rs and
    src/kern/drv/ps2/mod.rs. Class RingBuffer is the ring as one caller sees it; below it the
    same code is cut into its atomic loads and stores, which interleave freely. */
module Ring {
  import opened Prelude

  const RING_SIZE: nat := 64     // messages of an IPC channel

  // ---------------------------------------------------------------- index arithmetic

  lemma ModNext(x: nat, n: nat)
    requires n > 1
    ensures (x + 1) % n == if x % n == n - 1 then 0 else x % n + 1
    ensures (x % n + 1) % n == (x + 1) % n
  {
    var q, r := x / n, x % n;
    assert x == q * n + r;
    if r == n - 1 {
      assert x + 1 == (q + 1) * n by { assert (q + 1) * n == q * n + n; }
      ModUnique(x + 1, q + 1, 0, n);
      ModUnique(n, 1, 0, n);
    } else {
      ModUnique(x + 1, q, r + 1, n);
      ModUnique(r + 1, 0, r + 1, n);
    }
  }

  lemma ModUnique(x: nat, q: nat, r: nat, n: nat)
    requires n > 0 && r < n && x == q * n + r
    ensures x % n == r
  {
    DivMod(q, r, n);
  }

  /** Adding less than n wraps at most once. */
  lemma ModShift(x: nat, k: nat, n: nat)
    requires n > 0 && k < n
    ensures (x + k) % n == if x % n + k < n then x % n + k else x % n + k - n
  {
    var q, r := x / n, x % n;
    assert x == q * n + r;
    if r + k < n {
      ModUnique(x + k, q, r + k, n);
    } else {
      assert (q + 1) * n == q * n + n;
      ModUnique(x + k, q + 1, r + k - n, n);
    }
  }

  /** The keyboard ring's `& (KB_BUF_SIZE - 1)` is the remainder modulo its size. */
  lemma MaskIsRemainder(x: bv64)
    ensures x & 255 == x % 256
  {
  }

  // ---------------------------------------------------------------- the ring, one caller

  /** What a ring holds, oldest first. */
  ghost function Queue<T>(buf: seq<T>, head: nat, tail: nat): seq<T>
    requires head < |buf| && tail < |buf|
  {
    if tail <= head then buf[tail..head] else buf[tail..] + buf[..head]
  }

  class RingBuffer<T(0)> {
    const size: nat
    var buf: array<T>
    var head: nat
    var tail: nat

    ghost predicate Valid()
      reads this
    {
      size > 1 && buf.Length == size && head < size && tail < size
    }

    ghost function Contents(): seq<T>
      reads this, buf
      requires Valid()
    {
      Queue(buf[..], head, tail)
    }

    constructor (size: nat)
      requires size > 1
      ensures Valid() && fresh(buf) && this.size == size && Contents() == []
    {
      this.size := size;
      buf := new T[size];
      head, tail := 0, 0;
    }

    /** False, and no change, exactly when size - 1 items are held. */
    method Push(msg: T) returns (ok: bool)
      requires Valid()
      modifies this`head, buf
      ensures Valid() && buf == old(buf)
      ensures ok <==> old(|Contents()|) < size - 1
      ensures Contents() == if ok then old(Contents()) + [msg] else old(Contents())
    {
      var next := (head + 1) % size;
      Wrap(head, size);
      if next == tail {
        return false;
      }
      buf[head] := msg;
      head := next;
      return true;
    }

    /** None, and no change, exactly when nothing is held. */
    method Pop() returns (r: Option<T>)
      requires Valid()
      modifies this`tail
      ensures Valid()
      ensures r.None? <==> old(Contents()) == []
      ensures old(Contents()) == if r.Some? then [r.value] + Contents() else Contents()
    {
      if tail == head {
        return None;
      }
      var msg := buf[tail];
      Wrap(tail, size);
      tail := (tail + 1) % size;
      return Some(msg);
    }

    method Len() returns (n: nat)
      requires Valid()
      ensures n == |Contents()|
    {
      n := (head + size - tail) % size;
      LenIsLength(buf[..], head, tail);
    }
  }

  lemma Wrap(i: nat, n: nat)
    requires i < n
    ensures (i + 1) % n == if i + 1 == n then 0 else i + 1
  {
    if i + 1 == n {
      ModUnique(n, 1, 0, n);
    } else {
      ModUnique(i + 1, 0, i + 1, n);
    }
  }

  /** `(head + SIZE - tail) % SIZE` is the number of items held. */
  lemma LenIsLength<T>(buf: seq<T>, head: nat, tail: nat)
    requires head < |buf| && tail < |buf|
    ensures (head + |buf| - tail) % |buf| == |Queue(buf, head, tail)|
  {
    if tail <= head {
      ModUnique(head + |buf| - tail, 1, head - tail, |buf|);
    } else {
      ModUnique(head + |buf| - tail, 0, head + |buf| - tail, |buf|);
    }
  }

  // ---------------------------------------------------------------- the ring, interleaved

  /** Where the producer is: it has loaded the head; it has loaded the tail and found room;
      it has written the slot. Each step does one load or store. */
  datatype Producer<T> = PIdle | PLoaded(msg: T, h: nat) | PRoom(msg: T, h: nat) | PWritten(msg: T, h: nat)

  datatype Consumer<T> = CIdle | CLoaded(t: nat) | CSome(t: nat) | CRead(msg: T, t: nat)

  /** accepted and popped are the history: what was published, and what was taken. */
  datatype State<T> = State(buf: seq<T>, head: nat, tail: nat, p: Producer<T>, c: Consumer<T>,
                            accepted: seq<T>, popped: seq<T>)

  ghost predicate Init<T(!new)>(s: State<T>, n: nat) {
    |s.buf| == n && s.head == s.tail == 0 && s.p == PIdle && s.c == CIdle && s.accepted == s.popped == []
  }

  /** The producer's atomic steps. */
  ghost predicate ProducerStep<T(!new)>(s: State<T>, s': State<T>, n: nat)
    requires n > 1
  {
    match s.p
    case PIdle => exists msg :: s' == s.(p := PLoaded(msg, s.head))
    case PLoaded(msg, h) => s' == s.(p := if (h + 1) % n == s.tail then PIdle else PRoom(msg, h))
    case PRoom(msg, h) => h < |s.buf| && s' == s.(buf := s.buf[h := msg], p := PWritten(msg, h))
    case PWritten(msg, h) => s' == s.(head := (h + 1) % n, p := PIdle, accepted := s.accepted + [msg])
  }

  /** The consumer's atomic steps. */
  ghost predicate ConsumerStep<T(!new)>(s: State<T>, s': State<T>, n: nat)
    requires n > 1
  {
    match s.c
    case CIdle => s' == s.(c := CLoaded(s.tail))
    case CLoaded(t) => s' == s.(c := if t == s.head then CIdle else CSome(t))
    case CSome(t) => t < |s.buf| && s' == s.(c := CRead(s.buf[t], t))
    case CRead(msg, t) => s' == s.(tail := (t + 1) % n, c := CIdle, popped := s.popped + [msg])
  }

  ghost predicate Next<T(!new)>(s: State<T>, s': State<T>, n: nat)
    requires n > 1
  {
    ProducerStep(s, s', n) || ConsumerStep(s, s', n)
  }

  /** The number of items held. */
  ghost function Held<T(!new)>(s: State<T>): int {
    |s.accepted| - |s.popped|
  }

  ghost predicate Inv<T(!new)>(s: State<T>, n: nat)
    requires n > 1
  {
    && |s.buf| == n
    && 0 <= Held(s) <= n - 1
    && s.head == |s.accepted| % n && s.tail == |s.popped| % n
    && s.popped == s.accepted[..|s.popped|]
    && (forall j :: |s.popped| <= j < |s.accepted| ==> s.buf[j % n] == s.accepted[j])
    && (s.p.PIdle? || s.p.h == s.head)
    && (s.p.PRoom? || s.p.PWritten? ==> Held(s) < n - 1)
    && (s.p.PWritten? ==> s.buf[s.head] == s.p.msg)
    && (s.c.CIdle? || s.c.t == s.tail)
    && (s.c.CSome? || s.c.CRead? ==> Held(s) > 0)
    && (s.c.CRead? ==> s.c.msg == s.accepted[|s.popped|])
  }

  lemma InitInv<T(!new)>(s: State<T>, n: nat)
    requires n > 1 && Init(s, n)
    ensures Inv(s, n)
  {
    ModUnique(0, 0, 0, n);
  }

  lemma ProducerKeeps<T(!new)>(s: State<T>, s': State<T>, n: nat)
    requires n > 1 && Inv(s, n) && ProducerStep(s, s', n)
    ensures Inv(s', n)
  {
    ModNext(|s.accepted|, n);
    if s.p.PLoaded? && Held(s) == n - 1 {
      FullMeansNext(|s.popped|, |s.accepted|, n);
    }
    if s.p.PRoom? {
      NoUnreadSlot(s, n);
    }
  }

  /** With n - 1 items held the next head is the tail, and only then. */
  lemma FullMeansNext(a: nat, b: nat, n: nat)
    requires n > 1 && a <= b < a + n
    ensures (b + 1) % n == a % n <==> b == a + n - 1
  {
    if b == a + n - 1 {
      var q := a / n;
      assert a == q * n + a % n && (q + 1) * n == q * n + n;
      ModUnique(b + 1, q + 1, a % n, n);
    } else {
      ModDiffers(a, b + 1, n);
    }
  }

  /** The slot at the head holds no unread item. */
  lemma NoUnreadSlot<T(!new)>(s: State<T>, n: nat)
    requires n > 1 && Inv(s, n)
    ensures forall j :: |s.popped| <= j < |s.accepted| ==> j % n != s.head
  {
    forall j | |s.popped| <= j < |s.accepted| ensures j % n != s.head {
      ModDiffers(j, |s.accepted|, n);
    }
  }

  lemma ConsumerKeeps<T(!new)>(s: State<T>, s': State<T>, n: nat)
    requires n > 1 && Inv(s, n) && ConsumerStep(s, s', n)
    ensures Inv(s', n)
  {
    ModNext(|s.popped|, n);
  }

  /** A push is refused exactly when, as it loads the tail, n - 1 items are held; a pop finds
      nothing exactly when, as it loads the head, none is. */
  lemma RefusalIsExact<T(!new)>(s: State<T>, s': State<T>, n: nat)
    requires n > 1 && Inv(s, n)
    ensures s.p.PLoaded? && ProducerStep(s, s', n) ==> (s'.p.PIdle? <==> Held(s) == n - 1)
    ensures s.c.CLoaded? && ConsumerStep(s, s', n) ==> (s'.c.CIdle? <==> Held(s) == 0)
  {
    ModNext(|s.accepted|, n);
    FullMeansNext(|s.popped|, |s.accepted|, n);
    if Held(s) > 0 {
      ModDiffers(|s.popped|, |s.accepted|, n);
    }
  }

  ghost predicate IsRun<T(!new)>(run: seq<State<T>>, n: nat)
    requires n > 1
  {
    |run| > 0 && Init(run[0], n) && forall i :: 0 <= i < |run| - 1 ==> Next(run[i], run[i + 1], n)
  }

  lemma {:induction false} RunInv<T(!new)>(run: seq<State<T>>, n: nat, k: nat)
    requires n > 1 && IsRun(run, n) && k < |run|
    ensures Inv(run[k], n)
  {
    if k == 0 {
      InitInv(run[0], n);
    } else {
      RunInv(run, n, k - 1);
      assert Next(run[k - 1], run[k], n);
      if ProducerStep(run[k - 1], run[k], n) {
        ProducerKeeps(run[k - 1], run[k], n);
      } else {
        ConsumerKeeps(run[k - 1], run[k], n);
      }
    }
  }

  /** The ring holds exactly the accepted items that were not popped yet, in order. */
  lemma QueueIsUnread<T(!new)>(s: State<T>, n: nat)
    requires n > 1 && Inv(s, n)
    ensures Queue(s.buf, s.head, s.tail) == s.accepted[|s.popped|..]
  {
    var q, u := Queue(s.buf, s.head, s.tail), s.accepted[|s.popped|..];
    ModShift(|s.popped|, |u|, n);
    forall k | 0 <= k < |u| ensures k < |q| && q[k] == u[k] {
      ModShift(|s.popped|, k, n);
      assert s.buf[(|s.popped| + k) % n] == s.accepted[|s.popped| + k];
    }
  }

  /** In every state of every interleaving: what was popped is a prefix of what was accepted,
      the rest is held in order, at most n - 1 items are held, and a slot about to be written
      holds no unread item. */
  lemma EveryRunIsFifo<T(!new)>(run: seq<State<T>>, n: nat, k: nat)
    requires n > 1 && IsRun(run, n) && k < |run|
    ensures var s := run[k];
            && s.head < |s.buf| == n && s.tail < n
            && s.accepted == s.popped + Queue(s.buf, s.head, s.tail)
            && |Queue(s.buf, s.head, s.tail)| <= n - 1
            && (s.p.PRoom? ==> forall j :: |s.popped| <= j < |s.accepted| ==> j % n != s.p.h)
  {
    RunInv(run, n, k);
    NoUnreadSlot(run[k], n);
    QueueIsUnread(run[k], n);
  }
}
