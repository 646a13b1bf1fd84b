/** The IPC channels of src/kern/arch/x86_64/ipc.rs: a fixed table of rings, each used by the
    holders of its id. Calls are taken one at a time; module Ring has the interleavings. */
module Channels {
  import opened Prelude
  import opened Ring

  const MAX_CHANNELS: nat := 32

  class ChannelTable<T(0)> {
    const rings: seq<RingBuffer<T>>
    var active: seq<bool>
    var owner: seq<nat>
    var nextChannel: nat

    /** Every channel has a ring of its own, and only ids that were given out are active. */
    ghost predicate Valid()
      reads this, rings
    {
      && |rings| == |active| == |owner| == MAX_CHANNELS && nextChannel <= MAX_CHANNELS
      && (forall i :: 0 <= i < MAX_CHANNELS ==> rings[i].Valid() && rings[i].size == RING_SIZE)
      && (forall i, j :: 0 <= i < j < MAX_CHANNELS ==> rings[i] != rings[j] && rings[i].buf != rings[j].buf)
      && (forall i :: 0 <= i < MAX_CHANNELS && active[i] ==> i < nextChannel)
    }

    ghost function Buffers(): set<array<T>>
      reads this, rings
    {
      set r | r in rings :: r.buf
    }

    /** What each channel holds, oldest first. */
    ghost function Queues(): (qs: seq<seq<T>>)
      reads this, rings, Buffers()
      requires Valid()
      ensures |qs| == MAX_CHANNELS && forall i :: 0 <= i < MAX_CHANNELS ==> qs[i] == rings[i].Contents()
    {
      seq(MAX_CHANNELS, i requires 0 <= i < MAX_CHANNELS && Valid() reads this, rings, Buffers() => rings[i].Contents())
    }

    constructor ()
      ensures Valid() && fresh(rings) && nextChannel == 0
      ensures forall i :: 0 <= i < MAX_CHANNELS ==> !active[i] && Queues()[i] == []
    {
      var rs := ChannelTable<T>.NewRings();
      rings := rs;
      active, owner, nextChannel := seq(MAX_CHANNELS, i => false), seq(MAX_CHANNELS, i => 0), 0;
    }

    static method NewRings() returns (rs: seq<RingBuffer<T>>)
      ensures |rs| == MAX_CHANNELS && fresh(rs)
      ensures forall r :: r in rs ==> r.Valid() && r.size == RING_SIZE && fresh(r.buf) && r.Contents() == []
      ensures forall i, j :: 0 <= i < j < MAX_CHANNELS ==> rs[i] != rs[j] && rs[i].buf != rs[j].buf
    {
      rs := [];
      for k := 0 to MAX_CHANNELS
        invariant |rs| == k && fresh(rs)
        invariant forall r :: r in rs ==> r.Valid() && r.size == RING_SIZE && fresh(r.buf) && r.Contents() == []
        invariant forall i, j :: 0 <= i < j < k ==> rs[i] != rs[j] && rs[i].buf != rs[j].buf
      {
        var r := new RingBuffer<T>(RING_SIZE);
        rs := rs + [r];
      }
    }

    /** Ids are given out in order, each once in the life of the table; None exactly when all
        are used up. */
    method CreateChannel(who: nat) returns (r: Option<nat>)
      requires Valid()
      modifies this
      ensures Valid() && Queues() == old(Queues())
      ensures r == if old(nextChannel) < MAX_CHANNELS then Some(old(nextChannel)) else None
      ensures r.None? ==> nextChannel == old(nextChannel) && active == old(active) && owner == old(owner)
      ensures r.Some? ==> nextChannel == r.value + 1 && active == old(active)[r.value := true]
      ensures r.Some? ==> owner == old(owner)[r.value := who]
    {
      var id := nextChannel;
      nextChannel := nextChannel + 1;
      if id >= MAX_CHANNELS {
        nextChannel := nextChannel - 1;
        return None;
      }
      active := active[id := true];
      owner := owner[id := who];
      return Some(id);
    }

    /** True exactly for an active channel with room; then the message is behind that
        channel's others, and every other channel holds what it held. */
    method Send(id: nat, msg: T) returns (ok: bool)
      requires Valid()
      modifies rings, Buffers()
      ensures Valid() && Buffers() == old(Buffers())
      ensures ok <==> id < MAX_CHANNELS && active[id] && |old(Queues())[id]| < RING_SIZE - 1
      ensures Queues() == if ok then old(Queues())[id := old(Queues())[id] + [msg]] else old(Queues())
    {
      if id >= MAX_CHANNELS {
        return false;
      }
      if !active[id] {
        return false;
      }
      ok := rings[id].Push(msg);
    }

    /** The oldest message of an active channel, if it holds one; no other channel changes. */
    method Recv(id: nat) returns (r: Option<T>)
      requires Valid()
      modifies rings
      ensures Valid()
      ensures r.Some? <==> id < MAX_CHANNELS && active[id] && old(Queues())[id] != []
      ensures r.Some? ==> old(Queues())[id] == [r.value] + Queues()[id]
      ensures forall j :: 0 <= j < MAX_CHANNELS && (j != id || r.None?) ==> Queues()[j] == old(Queues())[j]
    {
      if id >= MAX_CHANNELS {
        return None;
      }
      if !active[id] {
        return None;
      }
      r := rings[id].Pop();
    }

    /** The length of any channel's queue, active or not. */
    method Pending(id: nat) returns (n: nat)
      requires Valid()
      ensures n == if id < MAX_CHANNELS then |Queues()[id]| else 0
    {
      if id >= MAX_CHANNELS {
        return 0;
      }
      n := rings[id].Len();
    }

    /** A channel that was given out refuses from now on, because its id is not given out
        again; what it still holds stays behind. */
    method DestroyChannel(id: nat)
      requires Valid()
      modifies this`active
      ensures Valid() && Queues() == old(Queues())
      ensures active == if id < MAX_CHANNELS then old(active)[id := false] else old(active)
    {
      if id >= MAX_CHANNELS {
        return;
      }
      active := active[id := false];
    }
  }

  // ---------------------------------------------------------------- concurrent creators

  const TWO_32: nat := 0x1_0000_0000

  /** One call of `create_channel`: before its `fetch_add`; refused, before its `fetch_sub`;
      returned. Any number of calls interleave. */
  datatype Call = Calling | Refused | Returned(result: Option<nat>)

  datatype Counter = Counter(next: nat, calls: seq<Call>)

  /** One atomic step of call i on the 32-bit counter. */
  ghost predicate CallStep(s: Counter, i: nat, s': Counter) {
    && i < |s.calls|
    && match s.calls[i]
       case Calling =>
         s' == Counter((s.next + 1) % TWO_32,
             s.calls[i := if s.next < MAX_CHANNELS then Returned(Some(s.next)) else Refused])
       case Refused => s' == Counter((s.next + TWO_32 - 1) % TWO_32, s.calls[i := Returned(None)])
       case Returned(_) => false
  }

  predicate GotId(c: Call) {
    c.Returned? && c.result.Some?
  }

  /** Calls among the first k that got an id, and that have still to take back their add. */
  ghost function Given(calls: seq<Call>, k: nat): nat
    requires k <= |calls|
  {
    if k == 0 then 0 else Given(calls, k - 1) + (if GotId(calls[k - 1]) then 1 else 0)
  }

  ghost function Owed(calls: seq<Call>, k: nat): nat
    requires k <= |calls|
  {
    if k == 0 then 0 else Owed(calls, k - 1) + (if calls[k - 1].Refused? then 1 else 0)
  }

  lemma {:induction false} CountsAfter(calls: seq<Call>, i: nat, c: Call, k: nat)
    requires i < |calls| && k <= |calls|
    ensures Given(calls[i := c], k) == Given(calls, k)
              + (if i < k && GotId(c) then 1 else 0) - (if i < k && GotId(calls[i]) then 1 else 0)
    ensures Owed(calls[i := c], k) == Owed(calls, k)
              + (if i < k && c.Refused? then 1 else 0) - (if i < k && calls[i].Refused? then 1 else 0)
  {
    if k == 0 {
    } else {
      CountsAfter(calls, i, c, k - 1);
    }
  }

  lemma {:induction false} CountsBound(calls: seq<Call>, k: nat)
    requires k <= |calls|
    ensures Given(calls, k) + Owed(calls, k) <= k
    ensures (exists i: nat :: i < k && calls[i].Refused?) ==> Owed(calls, k) > 0
  {
    if k == 0 {
    } else {
      CountsBound(calls, k - 1);
    }
  }

  /** The counter is the ids given out and the adds to be taken back; an id is given to one
      call only, and a call is refused only when all ids are gone. */
  ghost predicate CounterInv(s: Counter) {
    var n := |s.calls|;
    && n < TWO_32
    && s.next == Given(s.calls, n) + Owed(s.calls, n) && Given(s.calls, n) <= MAX_CHANNELS
    && (forall i: nat :: i < n && GotId(s.calls[i]) ==> s.calls[i].result.value < Given(s.calls, n))
    && (forall i: nat, j: nat :: i < j < n && GotId(s.calls[i]) && GotId(s.calls[j]) ==>
        s.calls[i].result != s.calls[j].result)
    && (forall i: nat :: i < n && (s.calls[i].Refused? || s.calls[i] == Returned(None)) ==>
        Given(s.calls, n) == MAX_CHANNELS)
    && (Owed(s.calls, n) > 0 ==> Given(s.calls, n) == MAX_CHANNELS)
  }

  lemma CallKeepsInv(s: Counter, i: nat, s': Counter)
    requires CounterInv(s) && CallStep(s, i, s')
    ensures CounterInv(s') && Given(s'.calls, |s'.calls|) >= Given(s.calls, |s.calls|)
  {
    hide Given, Owed;
    var n := |s.calls|;
    CountsAfter(s.calls, i, s'.calls[i], n);
    CountsBound(s.calls, n);
    CountsBound(s'.calls, n);
  }

  ghost predicate IsCounterRun(run: seq<Counter>, who: seq<nat>) {
    && |run| == |who| + 1
    && run[0].next == 0 && |run[0].calls| < TWO_32 &&
        (forall i :: 0 <= i < |run[0].calls| ==> run[0].calls[i] == Calling)
    && forall k :: 0 <= k < |who| ==> CallStep(run[k], who[k], run[k + 1])
  }

  lemma {:induction false} NoneCounted(calls: seq<Call>, k: nat)
    requires k <= |calls| && forall i :: 0 <= i < |calls| ==> calls[i] == Calling
    ensures Given(calls, k) == 0 && Owed(calls, k) == 0
  {
    if k == 0 {
    } else {
      NoneCounted(calls, k - 1);
    }
  }

  /** Under any interleaving of calls: no id is given out twice, ids are below 32, and a call
      returns None only when all 32 ids are given out. */
  lemma {:induction false} IdsGivenOnce(run: seq<Counter>, who: seq<nat>, k: nat)
    requires IsCounterRun(run, who) && k <= |who|
    ensures CounterInv(run[k])
  {
    if k == 0 {
      NoneCounted(run[0].calls, |run[0].calls|);
    } else {
      IdsGivenOnce(run, who, k - 1);
      CallKeepsInv(run[k - 1], who[k - 1], run[k]);
    }
  }
}
