/** The start-up barrier of src/kern/arch/x86_64/smp.rs: any number of CPUs, each atomic load,
    store or add one step, the steps interleaved freely. */
module Barrier {
  const MAX_CPUS: nat := 64
  const TWO_32: nat := 0x1_0000_0000

  /** What `init` is given: the boot processor's lapic id, and the ids of all listed CPUs. */
  datatype Machine = Machine(bsp: nat, ids: seq<nat>)

  /** The CPU count is an `as u32` cast in the source. */
  ghost predicate Sane(c: Machine) {
    |c.ids| < TWO_32
  }

  /** `init` on the boot processor: mark itself, write the goto addresses one by one, poll
      the counter, set the flag, return. */
  datatype BspPc = Boot | Launching(next: nat) | Polling | Releasing | Returned

  /** `ap_entry` on the CPU with this index: not started, started, marked online, counted
      (spinning on the flag), and past the spin. */
  datatype ApPc = Parked | Entered | Marked | Spinning | Halted

  datatype State = State(pc: BspPc, aps: seq<ApPc>, online: seq<bool>, ready: nat, go: bool)

  datatype Step = MarkBsp | Launch | Poll | Release | MarkAp(i: nat) | CountAp(i: nat) | SpinAp(i: nat)

  function Slot(id: nat): (s: nat)
    ensures s < MAX_CPUS
  {
    id % MAX_CPUS
  }

  /** `cpus.len() as u32 - 1`; without overflow checks it wraps for no CPUs at all. */
  function Threshold(c: Machine): nat {
    (|c.ids| + TWO_32 - 1) % TWO_32
  }

  ghost predicate Shape(c: Machine, s: State) {
    && |s.aps| == |c.ids| && |s.online| == MAX_CPUS
    && (s.pc.Launching? ==> s.pc.next <= |c.ids|)
  }

  ghost predicate Init(c: Machine, s: State) {
    && s.pc == Boot && s.aps == seq(|c.ids|, i => Parked)
    && s.online == seq(MAX_CPUS, i => false) && s.ready == 0 && !s.go
  }

  ghost predicate BspNext(c: Machine, s: State, e: Step, s': State)
    requires Shape(c, s)
  {
    match e
    case MarkBsp => s.pc == Boot && s' == s.(pc := Launching(0), online := s.online[Slot(c.bsp) := true])
    case Launch =>
      && s.pc.Launching?
      && if s.pc.next == |c.ids| then s' == s.(pc := Polling)
         else if c.ids[s.pc.next] == c.bsp then s' == s.(pc := Launching(s.pc.next + 1))
         else s' == s.(pc := Launching(s.pc.next + 1), aps := s.aps[s.pc.next := Entered])
    case Poll => s.pc == Polling && s' == if s.ready < Threshold(c) then s else s.(pc := Releasing)
    case Release => s.pc == Releasing && s' == s.(pc := Returned, go := true)
    case _ => false
  }

  ghost predicate ApNext(c: Machine, s: State, e: Step, s': State)
    requires Shape(c, s)
  {
    match e
    case MarkAp(i) =>
      i < |s.aps| && s.aps[i] == Entered &&
          s' == s.(aps := s.aps[i := Marked], online := s.online[Slot(c.ids[i]) := true])
    case CountAp(i) =>
      i < |s.aps| && s.aps[i] == Marked && s' == s.(aps := s.aps[i := Spinning], ready := (s.ready + 1) % TWO_32)
    case SpinAp(i) =>
      i < |s.aps| && s.aps[i] == Spinning && s' == if s.go then s.(aps := s.aps[i := Halted]) else s
    case _ => false
  }

  ghost predicate Next(c: Machine, s: State, e: Step, s': State) {
    Shape(c, s) && (BspNext(c, s, e, s') || ApNext(c, s, e, s'))
  }

  // ---------------------------------------------------------------- counting

  predicate IsAp(c: Machine, i: nat) {
    i < |c.ids| && c.ids[i] != c.bsp
  }

  predicate PastCount(p: ApPc) {
    p == Spinning || p == Halted
  }

  /** How many of the first k listed CPUs are application processors. */
  ghost function Aps(c: Machine, k: nat): nat
    requires k <= |c.ids|
  {
    if k == 0 then 0 else Aps(c, k - 1) + (if IsAp(c, k - 1) then 1 else 0)
  }

  /** How many of the first k CPUs have been counted. */
  ghost function Counted(aps: seq<ApPc>, k: nat): nat
    requires k <= |aps|
  {
    if k == 0 then 0 else Counted(aps, k - 1) + (if PastCount(aps[k - 1]) then 1 else 0)
  }

  lemma {:induction false} CountedAfter(aps: seq<ApPc>, i: nat, p: ApPc, k: nat)
    requires i < |aps| && k <= |aps|
    ensures Counted(aps[i := p], k) == Counted(aps, k)
              + (if i < k && PastCount(p) then 1 else 0) - (if i < k && PastCount(aps[i]) then 1 else 0)
  {
    if k == 0 {
    } else {
      CountedAfter(aps, i, p, k - 1);
    }
  }

  ghost predicate OnlyApsRun(c: Machine, aps: seq<ApPc>) {
    |aps| == |c.ids| && forall i: nat :: i < |aps| && aps[i] != Parked ==> IsAp(c, i)
  }

  /** The count cannot pass the number of application processors, and reaches it only when
      every one of them is counted. */
  lemma {:induction false} CountedBound(c: Machine, aps: seq<ApPc>, k: nat)
    requires OnlyApsRun(c, aps) && k <= |aps|
    ensures Counted(aps, k) <= Aps(c, k) <= k
    ensures Counted(aps, k) == Aps(c, k) <==> forall i: nat :: i < k && IsAp(c, i) ==> PastCount(aps[i])
  {
    if k == 0 {
    } else {
      CountedBound(c, aps, k - 1);
      assert Counted(aps, k) == Aps(c, k) ==> IsAp(c, k - 1) ==> PastCount(aps[k - 1]);
    }
  }

  // ---------------------------------------------------------------- the invariant

  /** Marked CPUs have their slot set, and only slots of the boot processor or of a marked
      CPU are set. */
  ghost predicate OnlineIsMarked(c: Machine, s: State)
    requires Shape(c, s)
  {
    && (s.pc != Boot ==> s.online[Slot(c.bsp)])
    && (forall i: nat :: i < |s.aps| && s.aps[i] !in {Parked, Entered} ==> s.online[Slot(c.ids[i])])
    && (forall k: nat :: k < MAX_CPUS && s.online[k] ==>
          Slot(c.bsp) == k || exists i: nat :: i < |s.aps| && Slot(c.ids[i]) == k && s.aps[i] !in {Parked, Entered})
  }

  /** The CPUs whose goto address has been written are the APs before the launch index. */
  ghost predicate LaunchedSoFar(c: Machine, s: State)
    requires Shape(c, s)
  {
    forall i: nat :: i < |s.aps| ==>
      (s.aps[i] != Parked <==> IsAp(c, i) && s.pc != Boot && (s.pc.Launching? ==> i < s.pc.next))
  }

  ghost predicate Inv(c: Machine, s: State) {
    && Sane(c) && Shape(c, s)
    && LaunchedSoFar(c, s) && OnlineIsMarked(c, s)
    && s.ready == Counted(s.aps, |s.aps|)
    && (s.pc in {Releasing, Returned} ==> s.ready >= Threshold(c))
    && (s.go <==> s.pc == Returned)
    && (forall i: nat :: i < |s.aps| && s.aps[i] == Halted ==> s.go)
  }

  lemma InitInv(c: Machine, s: State)
    requires Sane(c) && Init(c, s)
    ensures Inv(c, s)
  {
    CountedBound(c, s.aps, |s.aps|);
    NoneCounted(s.aps, |s.aps|);
  }

  lemma {:induction false} NoneCounted(aps: seq<ApPc>, k: nat)
    requires k <= |aps| && forall i :: 0 <= i < k ==> !PastCount(aps[i])
    ensures Counted(aps, k) == 0
  {
    if k == 0 {
    } else {
      NoneCounted(aps, k - 1);
    }
  }

  /** A CPU that has set its slot has it set from then on. */
  lemma StaysMarked(c: Machine, s: State, e: Step, s': State, i: nat)
    requires Inv(c, s) && Next(c, s, e, s') && i < |s.aps| && s.aps[i] !in {Parked, Entered}
    ensures |s'.aps| == |s.aps| && s'.aps[i] !in {Parked, Entered}
  {
    hide OnlineIsMarked, Counted;
  }

  lemma OnlineKept(c: Machine, s: State, e: Step, s': State)
    requires Inv(c, s) && Next(c, s, e, s')
    ensures Shape(c, s') && OnlineIsMarked(c, s')
  {
    forall k: nat | k < MAX_CPUS && s'.online[k]
      ensures Slot(c.bsp) == k || exists i: nat ::
          i < |s'.aps| && Slot(c.ids[i]) == k && s'.aps[i] !in {Parked, Entered}
    {
      if s.online[k] && Slot(c.bsp) != k {
        var i: nat :| i < |s.aps| && Slot(c.ids[i]) == k && s.aps[i] !in {Parked, Entered};
        StaysMarked(c, s, e, s', i);
      } else if e.MarkAp? && Slot(c.bsp) != k {
        assert s'.aps[e.i] == Marked && Slot(c.ids[e.i]) == k;
      }
    }
  }

  lemma LaunchKept(c: Machine, s: State, e: Step, s': State)
    requires Inv(c, s) && Next(c, s, e, s')
    ensures Shape(c, s') && LaunchedSoFar(c, s')
  {
  }

  /** The counter keeps showing the number of counted CPUs: it never wraps. */
  lemma CountKept(c: Machine, s: State, e: Step, s': State)
    requires Inv(c, s) && Next(c, s, e, s')
    ensures s'.ready == Counted(s'.aps, |s'.aps|) >= s.ready
  {
    LaunchKept(c, s, e, s');
    var n := |s.aps|;
    CountedBound(c, s'.aps, n);
    match e {
      case Launch =>
        if s.pc.next < n {
          CountedAfter(s.aps, s.pc.next, Entered, n);
        }
      case MarkAp(i) => CountedAfter(s.aps, i, Marked, n);
      case CountAp(i) => CountedAfter(s.aps, i, Spinning, n);
      case SpinAp(i) => CountedAfter(s.aps, i, Halted, n);
      case _ =>
    }
  }

  lemma StepInv(c: Machine, s: State, e: Step, s': State)
    requires Inv(c, s) && Next(c, s, e, s')
    ensures Inv(c, s')
  {
    OnlineKept(c, s, e, s');
    LaunchKept(c, s, e, s');
    CountKept(c, s, e, s');
  }

  ghost predicate IsRun(c: Machine, run: seq<State>, es: seq<Step>) {
    && Sane(c) && |run| == |es| + 1 && Init(c, run[0])
    && forall i :: 0 <= i < |es| ==> Next(c, run[i], es[i], run[i + 1])
  }

  lemma {:induction false} RunInv(c: Machine, run: seq<State>, es: seq<Step>, k: nat)
    requires IsRun(c, run, es) && k <= |es|
    ensures Inv(c, run[k])
  {
    if k == 0 {
      InitInv(c, run[0]);
    } else {
      RunInv(c, run, es, k - 1);
      StepInv(c, run[k - 1], es[k - 1], run[k]);
    }
  }

  ghost predicate Reachable(c: Machine, s: State) {
    exists run: seq<State>, es: seq<Step> :: IsRun(c, run, es) && run[|es|] == s
  }

  lemma ReachableInv(c: Machine, s: State)
    requires Reachable(c, s)
    ensures Inv(c, s)
  {
    var run: seq<State>, es: seq<Step> :| IsRun(c, run, es) && run[|es|] == s;
    RunInv(c, run, es, |es|);
  }

  lemma Extend(c: Machine, s: State, e: Step, s': State)
    requires Reachable(c, s) && Next(c, s, e, s')
    ensures Reachable(c, s')
  {
    var run: seq<State>, es: seq<Step> :| IsRun(c, run, es) && run[|es|] == s;
    assert IsRun(c, run + [s'], es + [e]);
    assert (run + [s'])[|es + [e]|] == s';
  }

  // ---------------------------------------------------------------- safety

  /** Every application processor has marked itself online and been counted. */
  ghost predicate AllCounted(c: Machine, s: State) {
    && Shape(c, s)
    && forall i: nat :: IsAp(c, i) ==> PastCount(s.aps[i]) && s.online[Slot(c.ids[i])]
  }

  ghost predicate SomeoneReleased(s: State) {
    s.go || exists i :: 0 <= i < |s.aps| && s.aps[i] == Halted
  }

  /** How often the boot processor's id is in the list. */
  ghost function BspListed(c: Machine): nat {
    CountedBound(c, seq(|c.ids|, i => Parked), |c.ids|);
    |c.ids| - Aps(c, |c.ids|)
  }

  /** If the boot processor is in its own list, nobody is let go too early. */
  lemma NobodyLeavesEarly(c: Machine, s: State)
    requires Reachable(c, s) && SomeoneReleased(s) && BspListed(c) >= 1
    ensures AllCounted(c, s)
  {
    ReachableInv(c, s);
    CountedBound(c, s.aps, |s.aps|);
    assert s.go && s.ready >= Threshold(c) == |c.ids| - 1;
  }

  // ---------------------------------------------------------------- progress

  ghost predicate Final(c: Machine, s: State) {
    Shape(c, s) && s.pc == Returned && forall i: nat :: IsAp(c, i) ==> s.aps[i] == Halted
  }

  function BspWork(c: Machine, s: State): int {
    match s.pc
    case Boot => |c.ids| + 4
    case Launching(k) => |c.ids| - k + 3
    case Polling => 2
    case Releasing => 1
    case Returned => 0
  }

  function ApWork(p: ApPc): nat {
    match p
    case Parked => 4
    case Entered => 3
    case Marked => 2
    case Spinning => 1
    case Halted => 0
  }

  ghost function ApsWork(aps: seq<ApPc>, k: nat): nat
    requires k <= |aps|
  {
    if k == 0 then 0 else ApsWork(aps, k - 1) + ApWork(aps[k - 1])
  }

  ghost function Work(c: Machine, s: State): int {
    BspWork(c, s) + ApsWork(s.aps, |s.aps|)
  }

  lemma {:induction false} ApsWorkAfter(aps: seq<ApPc>, i: nat, p: ApPc, k: nat)
    requires i < |aps| && k <= |aps|
    ensures ApsWork(aps[i := p], k) == ApsWork(aps, k) + (if i < k then ApWork(p) - ApWork(aps[i]) else 0)
  {
    if k == 0 {
    } else {
      ApsWorkAfter(aps, i, p, k - 1);
    }
  }

  /** Every step that changes the state leaves less to do: no run goes on for ever except by
      spinning. */
  lemma StepsShrinkWork(c: Machine, s: State, e: Step, s': State)
    requires Inv(c, s) && Next(c, s, e, s') && s' != s
    ensures 0 <= Work(c, s') < Work(c, s)
  {
    match e {
      case Launch =>
        if s.pc.next < |s.aps| {
          ApsWorkAfter(s.aps, s.pc.next, Entered, |s.aps|);
        }
      case MarkAp(i) => ApsWorkAfter(s.aps, i, Marked, |s.aps|);
      case CountAp(i) => ApsWorkAfter(s.aps, i, Spinning, |s.aps|);
      case SpinAp(i) => ApsWorkAfter(s.aps, i, Halted, |s.aps|);
      case _ =>
    }
  }

  /** Nobody can move although somebody is not done. */
  ghost predicate Stuck(c: Machine, s: State) {
    !Final(c, s) && forall e: Step, s' :: Next(c, s, e, s') ==> s' == s
  }

  lemma BspMoves(c: Machine, s: State) returns (e: Step, s': State)
    requires Inv(c, s) && s.pc != Returned && (s.pc == Polling ==> s.ready >= Threshold(c))
    ensures Next(c, s, e, s') && s' != s
  {
    match s.pc {
      case Boot => e, s' := MarkBsp, s.(pc := Launching(0), online := s.online[Slot(c.bsp) := true]);
      case Launching(k) =>
        e := Launch;
        s' := if k == |c.ids| then s.(pc := Polling)
              else if c.ids[k] == c.bsp then s.(pc := Launching(k + 1))
              else s.(pc := Launching(k + 1), aps := s.aps[k := Entered]);
      case Polling => e, s' := Poll, s.(pc := Releasing);
      case Releasing => e, s' := Release, s.(pc := Returned, go := true);
    }
  }

  lemma ApMoves(c: Machine, s: State, i: nat) returns (e: Step, s': State)
    requires Inv(c, s) && i < |s.aps| && (s.aps[i] in {Entered, Marked} || (s.aps[i] == Spinning && s.go))
    ensures Next(c, s, e, s') && s' != s
  {
    match s.aps[i] {
      case Entered => e, s' := MarkAp(i), s.(aps := s.aps[i := Marked], online := s.online[Slot(c.ids[i]) := true]);
      case Marked => e, s' := CountAp(i), s.(aps := s.aps[i := Spinning], ready := (s.ready + 1) % TWO_32);
      case Spinning => e, s' := SpinAp(i), s.(aps := s.aps[i := Halted]);
    }
    assert s'.aps[i] != s.aps[i];
  }

  /** Some CPU can move on from any unfinished state, when the boot processor is listed at
      most once and the list is not empty. */
  lemma SomebodyMoves(c: Machine, s: State) returns (e: Step, s': State)
    requires Reachable(c, s) && !Final(c, s) && |c.ids| > 0 && BspListed(c) <= 1
    ensures Next(c, s, e, s') && s' != s
  {
    ReachableInv(c, s);
    CountedBound(c, s.aps, |s.aps|);
    if i: nat :| IsAp(c, i) && s.aps[i] in {Entered, Marked} {
      e, s' := ApMoves(c, s, i);
    } else if s.pc != Returned {
      e, s' := BspMoves(c, s);
    } else {
      var i: nat :| IsAp(c, i) && s.aps[i] != Halted;
      e, s' := ApMoves(c, s, i);
    }
  }

  // ---------------------------------------------------------------- exactly when

  /** The state in which all goto addresses are written and the first k CPUs have been
      counted, the rest not having run at all. */
  ghost predicate CountedUpTo(c: Machine, s: State, k: nat) {
    && Shape(c, s) && s.pc == Polling
    && (forall i: nat :: IsAp(c, i) ==> s.aps[i] == if i < k then Spinning else Entered)
  }

  lemma {:induction false} ReachLaunch(c: Machine, k: nat) returns (s: State)
    requires Sane(c) && k <= |c.ids|
    ensures Reachable(c, s) && Shape(c, s) && s.pc == Launching(k)
    ensures forall i: nat :: IsAp(c, i) && i < k ==> s.aps[i] == Entered
  {
    var prev: State, e: Step;
    if k == 0 {
      prev, e := State(Boot, seq(|c.ids|, i => Parked), seq(MAX_CPUS, i => false), 0, false), MarkBsp;
      var es: seq<Step> := [];
      assert IsRun(c, [prev], es) && [prev][|es|] == prev;
      s := prev.(pc := Launching(0), online := prev.online[Slot(c.bsp) := true]);
    } else {
      prev := ReachLaunch(c, k - 1);
      e := Launch;
      s := if c.ids[k - 1] == c.bsp then prev.(pc := Launching(k))
          else prev.(pc := Launching(k), aps := prev.aps[k - 1 := Entered]);
    }
    Extend(c, prev, e, s);
  }

  lemma {:induction false} ReachCounted(c: Machine, k: nat) returns (s: State)
    requires Sane(c) && k <= |c.ids|
    ensures Reachable(c, s) && CountedUpTo(c, s, k)
  {
    if k == 0 {
      var prev := ReachLaunch(c, |c.ids|);
      s := prev.(pc := Polling);
      Extend(c, prev, Launch, s);
    } else {
      var prev := ReachCounted(c, k - 1);
      s := prev;
      if IsAp(c, k - 1) {
        var mid := prev.(aps := prev.aps[k - 1 := Marked], online := prev.online[Slot(c.ids[k - 1]) := true]);
        Extend(c, prev, MarkAp(k - 1), mid);
        s := mid.(aps := mid.aps[k - 1 := Spinning], ready := (mid.ready + 1) % TWO_32);
        Extend(c, mid, CountAp(k - 1), s);
      }
    }
  }

  /** The first k CPUs counted and no other: the counter shows the APs among them. */
  lemma {:induction false} CountOfFirst(c: Machine, aps: seq<ApPc>, m: nat, k: nat)
    requires OnlyApsRun(c, aps) && m <= |aps| && k <= |aps|
    requires forall i: nat :: IsAp(c, i) ==> aps[i] == if i < k then Spinning else Entered
    ensures Counted(aps, m) == if m < k then Aps(c, m) else Aps(c, k)
    decreases m
  {
    if m == 0 {
    } else {
      CountOfFirst(c, aps, m - 1, k);
    }
  }

  /** Without the boot processor in the list the barrier opens one AP early: all but the last
      are counted, the boot processor sees its threshold, and sets the flag. */
  lemma UnsafeWhenUnlisted(c: Machine) returns (s: State)
    requires Sane(c) && BspListed(c) == 0 && |c.ids| > 0
    ensures Reachable(c, s) && SomeoneReleased(s) && !AllCounted(c, s)
  {
    var n := |c.ids|;
    LastIsAp(c);
    var early := ReachCounted(c, n - 1);
    ReachableInv(c, early);
    CountOfFirst(c, early.aps, n, n - 1);
    var seen := early.(pc := Releasing);
    Extend(c, early, Poll, seen);
    s := seen.(pc := Returned, go := true);
    Extend(c, seen, Release, s);
  }

  lemma LastIsAp(c: Machine)
    requires Sane(c) && BspListed(c) == 0 && |c.ids| > 0
    ensures IsAp(c, |c.ids| - 1) && Aps(c, |c.ids| - 1) == |c.ids| - 1
  {
    CountedBound(c, seq(|c.ids|, i => Parked), |c.ids|);
    CountedBound(c, seq(|c.ids|, i => Parked), |c.ids| - 1);
  }

  lemma NobodyListed(c: Machine, s: State)
    requires Reachable(c, s) && |c.ids| == 0
    ensures !SomeoneReleased(s)
  {
    ReachableInv(c, s);
  }

  /** The barrier holds on every run exactly when the boot processor is in the list, or the
      list is empty. */
  lemma SafeExactlyWhen(c: Machine)
    requires Sane(c)
    ensures (forall s :: Reachable(c, s) && SomeoneReleased(s) ==> AllCounted(c, s)) <==>
        BspListed(c) >= 1 || |c.ids| == 0
  {
    hide Reachable, AllCounted, SomeoneReleased;
    if BspListed(c) >= 1 {
      forall s | Reachable(c, s) && SomeoneReleased(s) ensures AllCounted(c, s) {
        NobodyLeavesEarly(c, s);
      }
    } else if |c.ids| > 0 {
      var s := UnsafeWhenUnlisted(c);
    } else {
      forall s | Reachable(c, s) ensures !SomeoneReleased(s) {
        NobodyListed(c, s);
      }
    }
  }

  /** No reachable state is stuck exactly when the boot processor is listed at most once and
      somebody is listed. */
  lemma LiveExactlyWhen(c: Machine)
    requires Sane(c)
    ensures (forall s :: Reachable(c, s) ==> !Stuck(c, s)) <==> |c.ids| > 0 && BspListed(c) <= 1
  {
    if |c.ids| > 0 && BspListed(c) <= 1 {
      forall s | Reachable(c, s) ensures !Stuck(c, s) {
        if !Final(c, s) {
          var e, s' := SomebodyMoves(c, s);
        }
      }
    } else {
      var n := |c.ids|;
      var s := ReachCounted(c, n);
      ReachableInv(c, s);
      CountOfFirst(c, s.aps, n, n);
      assert s.ready == Aps(c, n) < Threshold(c);
      assert Stuck(c, s);
    }
  }

  // ---------------------------------------------------------------- online_count

  ghost function Slots(ids: seq<nat>): set<nat> {
    set i | 0 <= i < |ids| :: ids[i] % 64
  }

  ghost function SetSlots(online: seq<bool>, k: nat): set<nat>
    requires k <= |online|
  {
    set i: nat | i < k && online[i]
  }

  /** `online_count`, the loads one after the other with nobody writing in between. */
  method OnlineCount(online: array<bool>) returns (count: nat)
    requires online.Length == MAX_CPUS
    ensures count == |SetSlots(online[..], MAX_CPUS)|
  {
    count := 0;
    for i := 0 to MAX_CPUS
      invariant count == |SetSlots(online[..], i)|
    {
      assert SetSlots(online[..], i + 1) == SetSlots(online[..], i) + if online[i] then {i} else {};
      if online[i] {
        count := count + 1;
      }
    }
  }

  /** Once anybody is released, the slots that are set are the lapic ids modulo 64: what
      `online_count` counts is the number of distinct ones. */
  lemma OnlineAfterRelease(c: Machine, s: State)
    requires Reachable(c, s) && SomeoneReleased(s) && BspListed(c) >= 1
    ensures Shape(c, s) && SetSlots(s.online, MAX_CPUS) == Slots(c.ids)
  {
    ReachableInv(c, s);
    NobodyLeavesEarly(c, s);
    CountedBound(c, seq(|c.ids|, i => Parked), |c.ids|);
    var b := BspIndex(c, |c.ids|);
    assert Slot(c.ids[b]) == Slot(c.bsp);
    forall k: nat | k < MAX_CPUS ensures s.online[k] <==> k in Slots(c.ids) {
      if k in Slots(c.ids) {
        var i: nat :| i < |c.ids| && Slot(c.ids[i]) == k;
        assert IsAp(c, i) || c.ids[i] == c.bsp;
      }
    }
  }

  lemma {:induction false} BspIndex(c: Machine, k: nat) returns (b: nat)
    requires k <= |c.ids| && Aps(c, k) < k
    ensures b < k && c.ids[b] == c.bsp
  {
    if IsAp(c, k - 1) {
      b := BspIndex(c, k - 1);
    } else {
      b := k - 1;
    }
  }
}
