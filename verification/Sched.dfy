/** The round-robin scheduler of src/kern/sched.rs. The state is a value with one function a
    step; class Scheduler runs the source's loops in place and is proved to take the same
    steps. Runs of steps carry the safety, register and waiting properties. */
module Sched {
  import opened Prelude

  const MAX_TASKS: nat := 16
  const TASK_STACK_SIZE: nat := 0x4000
  const TWO_32: nat := 0x1_0000_0000

  datatype TaskState = Empty | Ready | Running | Exited

  datatype Task = Task(
    rip: nat, rsp: nat, rflags: nat,
    rax: nat, rbx: nat, rcx: nat, rdx: nat,
    rsi: nat, rdi: nat, rbp: nat,
    r8: nat, r9: nat, r10: nat, r11: nat,
    r12: nat, r13: nat, r14: nat, r15: nat,
    state: TaskState, id: nat, stackBase: nat, stackSize: nat, name: seq<nat>)

  /** The interrupt frame: the same registers, and the two selectors. */
  datatype Context = Context(
    rip: nat, rsp: nat, rflags: nat,
    rax: nat, rbx: nat, rcx: nat, rdx: nat,
    rsi: nat, rdi: nat, rbp: nat,
    r8: nat, r9: nat, r10: nat, r11: nat,
    r12: nat, r13: nat, r14: nat, r15: nat,
    cs: nat, ss: nat)

  /** The eighteen registers, in one order for both. */
  ghost function TaskRegs(t: Task): seq<nat> {
    [t.rip, t.rsp, t.rflags, t.rax, t.rbx, t.rcx, t.rdx, t.rsi, t.rdi, t.rbp,
     t.r8, t.r9, t.r10, t.r11, t.r12, t.r13, t.r14, t.r15]
  }

  ghost function ContextRegs(c: Context): seq<nat> {
    [c.rip, c.rsp, c.rflags, c.rax, c.rbx, c.rcx, c.rdx, c.rsi, c.rdi, c.rbp,
     c.r8, c.r9, c.r10, c.r11, c.r12, c.r13, c.r14, c.r15]
  }

  function EmptyTask(): Task {
    Task(0, 0, 0, 0, 0, 0, 0, 0, 0, 0, 0, 0, 0, 0, 0, 0, 0, 0, Empty, 0, 0, 0, seq(16, i => 0))
  }

  /** `save_ctx`. */
  function SaveCtx(t: Task, c: Context): Task {
    t.(rip := c.rip, rsp := c.rsp, rflags := c.rflags,
       rax := c.rax, rbx := c.rbx, rcx := c.rcx, rdx := c.rdx,
       rsi := c.rsi, rdi := c.rdi, rbp := c.rbp,
       r8 := c.r8, r9 := c.r9, r10 := c.r10, r11 := c.r11,
       r12 := c.r12, r13 := c.r13, r14 := c.r14, r15 := c.r15)
  }

  /** `load_ctx`: the registers, and the kernel selectors. */
  function LoadCtx(t: Task): Context {
    Context(t.rip, t.rsp, t.rflags, t.rax, t.rbx, t.rcx, t.rdx, t.rsi, t.rdi, t.rbp,
            t.r8, t.r9, t.r10, t.r11, t.r12, t.r13, t.r14, t.r15, 0x08, 0x10)
  }

  // ---------------------------------------------------------------- the steps

  datatype State = State(tasks: seq<Task>, current: nat, active: bool, ticks: nat, preempt: nat, kernelStack: nat)

  ghost predicate Shape(s: State) {
    |s.tasks| == MAX_TASKS && s.current < MAX_TASKS
  }

  /** The next slot round the circle. */
  function Succ(i: nat): (j: nat)
    requires i < MAX_TASKS
    ensures j == (i + 1) % MAX_TASKS
  {
    if i + 1 == MAX_TASKS then 0 else i + 1
  }

  /** Walking at most left slots on from slot at: the first one that is Ready, or the last. */
  function Pick(tasks: seq<Task>, at: nat, left: nat): (next: nat)
    requires |tasks| == MAX_TASKS && at < MAX_TASKS && left >= 1
    ensures next < MAX_TASKS
    decreases left
  {
    var i := Succ(at);
    if left == 1 || tasks[i].state == Ready then i else Pick(tasks, i, left - 1)
  }

  predicate Effective(s: State) {
    s.active && s.preempt == 0
  }

  /** The table after the interrupted task's registers are saved. */
  function Saved(s: State, ctx: Context): (tasks: seq<Task>)
    requires |s.tasks| == MAX_TASKS && s.current < MAX_TASKS
    ensures |tasks| == MAX_TASKS
  {
    var t := SaveCtx(s.tasks[s.current], ctx);
    s.tasks[s.current := if t.state == Running then t.(state := Ready) else t]
  }

  /** The second half of `timer_tick`, from the search on. */
  ghost function Dispatch(s: State, ctx: Context): (r: (State, Context))
    requires Shape(s)
  {
    var pick := Pick(s.tasks, s.current, MAX_TASKS);
    var next := if s.tasks[pick].state == Ready then pick else 0;
    if s.tasks[pick].state != Ready && s.tasks[0].state == Exited then (s, ctx)
    else
      (s.(tasks := s.tasks[next := s.tasks[next].(state := Running)], current := next,
          kernelStack := s.tasks[next].stackBase + s.tasks[next].stackSize),
       LoadCtx(s.tasks[next]))
  }

  /** `timer_tick`, with the context it leaves behind. */
  ghost function Tick(s: State, ctx: Context): (r: (State, Context))
    requires Shape(s)
  {
    var s1 := s.(ticks := (s.ticks + 1) % TWO_64);
    if !Effective(s) then (s1, ctx) else Dispatch(s1.(tasks := Saved(s, ctx)), ctx)
  }

  /** slot is the lowest one, above 0, that can be given to a new task. */
  ghost predicate IsFreeSlot(tasks: seq<Task>, slot: nat)
    requires |tasks| == MAX_TASKS
  {
    && 1 <= slot < MAX_TASKS && tasks[slot].state in {Empty, Exited}
    && forall i :: 1 <= i < slot ==> tasks[i].state in {Ready, Running}
  }

  ghost predicate NoFreeSlot(tasks: seq<Task>)
    requires |tasks| == MAX_TASKS
  {
    forall i :: 1 <= i < MAX_TASKS ==> tasks[i].state in {Ready, Running}
  }

  /** The record `spawn` writes: the trampoline will call entry(api) on the new stack. */
  function SpawnTask(slot: nat, trampoline: nat, entry: nat, api: nat, name: seq<nat>, stack: nat): Task {
    var n := if |name| < 15 then |name| else 15;
    EmptyTask().(id := slot, state := Ready, stackBase := stack, stackSize := TASK_STACK_SIZE,
                 name := name[..n] + seq(16 - n, i => 0),
                 rip := trampoline, rsp := stack + TASK_STACK_SIZE - 8, rflags := 0x202, rdi := entry, rsi := api)
  }

  /** The name field: at most 15 bytes of the name, then zeros. */
  ghost predicate IsNameField(field: seq<nat>, name: seq<nat>) {
    && |field| == 16
    && forall i :: 0 <= i < 16 ==> field[i] == if i < 15 && i < |name| then name[i] else 0
  }

  /** A task that is ready to start on a stack of its own. */
  ghost predicate IsNewTask(t: Task, slot: nat, name: seq<nat>, stack: nat) {
    t.state == Ready && t.id == slot && t.stackBase == stack && t.stackSize == 0x4000 && IsNameField(t.name, name)
  }

  /** `spawn` gave its result: nothing when there is no slot or no stack. */
  ghost predicate Spawned(s: State, s': State, trampoline: nat, entry: nat, api: nat, name: seq<nat>,
      stack: Option<nat>, r: Option<nat>)
    requires Shape(s)
  {
    match r
    case None => s' == s && (NoFreeSlot(s.tasks) || stack.None?)
    case Some(slot) =>
      && stack.Some? && IsFreeSlot(s.tasks, slot)
      && s' == s.(tasks := s.tasks[slot := SpawnTask(slot, trampoline, entry, api, name, stack.value)])
  }

  // ---------------------------------------------------------------- the code, in place

  class Scheduler {
    var tasks: array<Task>
    var current: nat
    var active: bool
    var tickCount: nat
    var preemptCount: nat
    var kernelStack: nat   // what `tss::set_kernel_stack` was last told

    ghost predicate Valid()
      reads this
    {
      tasks.Length == MAX_TASKS && current < MAX_TASKS
    }

    ghost function Abs(): State
      reads this, tasks
    {
      State(tasks[..], current, active, tickCount, preemptCount, kernelStack)
    }

    /** The static initialisers, and then `init`: slot 0 is the running idle task. */
    constructor (idleName: seq<nat>)
      requires |idleName| == 4
      ensures Valid() && fresh(tasks) && Inv(Abs()) && current == 0 && !active && preemptCount == 0
      ensures tasks[0].state == Running && forall i :: 1 <= i < MAX_TASKS ==> tasks[i].state == Empty
    {
      tasks := new Task[MAX_TASKS](i => EmptyTask());
      current, active, tickCount, preemptCount, kernelStack := 0, false, 0, 0, 0;
      new;
      tasks[0] := tasks[0].(state := Running, id := 0, name := idleName + tasks[0].name[4..]);
    }

    /** The search loop of `timer_tick`. */
    method FindNext() returns (next: nat)
      requires Valid()
      ensures next == Pick(tasks[..], current, MAX_TASKS)
    {
      next := current;
      for n := 0 to MAX_TASKS
        invariant next < MAX_TASKS
        invariant Pick(tasks[..], current, MAX_TASKS) == if n < MAX_TASKS then Pick(tasks[..], next, MAX_TASKS - n)
            else next
      {
        next := (next + 1) % MAX_TASKS;
        if tasks[next].state == Ready {
          break;
        }
      }
    }

    /** The interrupted task's registers are kept, and it is Ready again if it was Running. */
    method SaveCurrent(ctx: Context)
      requires Valid()
      modifies tasks
      ensures tasks[..] == Saved(old(Abs()), ctx)
    {
      var cur := current;
      tasks[cur] := SaveCtx(tasks[cur], ctx);
      if tasks[cur].state == Running {
        tasks[cur] := tasks[cur].(state := Ready);
      }
    }

    method TimerTick(ctx: Context) returns (out: Context)
      requires Valid()
      modifies this, tasks
      ensures Valid() && tasks == old(tasks)
      ensures (Abs(), out) == Tick(old(Abs()), ctx)
    {
      ghost var s := Abs();
      tickCount := (tickCount + 1) % TWO_64;
      out := ctx;
      if !active || preemptCount > 0 {
        return;
      }
      assert Saved(Abs(), ctx) == Saved(s, ctx);
      SaveCurrent(ctx);
      assert Abs() == s.(ticks := (s.ticks + 1) % TWO_64, tasks := Saved(s, ctx));
      out := Switch(ctx);
    }

    /** The second half of `timer_tick`. */
    method Switch(ctx: Context) returns (out: Context)
      requires Valid()
      modifies this, tasks
      ensures Valid() && tasks == old(tasks)
      ensures (Abs(), out) == Dispatch(old(Abs()), ctx)
    {
      out := ctx;
      var next := FindNext();
      if tasks[next].state != Ready {
        next := 0;
        if tasks[0].state == Exited {
          return;
        }
      }
      Resume(next);
      out := LoadCtx(tasks[next]);
    }

    /** The last part of `timer_tick`, up to the registers. */
    method Resume(next: nat)
      requires Valid() && next < MAX_TASKS
      modifies this`current, this`kernelStack, tasks
      ensures tasks[..] == old(tasks[..])[next := old(tasks[next]).(state := Running)]
      ensures current == next && kernelStack == old(tasks[next].stackBase + tasks[next].stackSize)
    {
      tasks[next] := tasks[next].(state := Running);
      current := next;
      kernelStack := tasks[next].stackBase + tasks[next].stackSize;
    }

    /** stack is what `alloc_pages` returns, trampoline the address of `task_trampoline`. */
    method Spawn(trampoline: nat, entry: nat, api: nat, name: seq<nat>, stack: Option<nat>) returns (r: Option<nat>)
      requires Valid()
      modifies tasks
      ensures Valid() && Spawned(old(Abs()), Abs(), trampoline, entry, api, name, stack, r)
      ensures r.Some? ==> stack.Some? && r.value < MAX_TASKS && IsNewTask(tasks[r.value], r.value, name, stack.value)
    {
      var slot: Option<nat> := None;
      for i := 1 to MAX_TASKS
        invariant slot == None && forall j :: 1 <= j < i ==> tasks[j].state in {Ready, Running}
      {
        if tasks[i].state == Empty || tasks[i].state == Exited {
          slot := Some(i);
          break;
        }
      }
      if slot.None? || stack.None? {
        return None;
      }
      var i := slot.value;
      var copyLen := if |name| < 15 then |name| else 15;
      tasks[i] := EmptyTask();
      tasks[i] := tasks[i].(id := i, state := Ready, stackBase := stack.value, stackSize := TASK_STACK_SIZE);
      tasks[i] := tasks[i].(name := name[..copyLen] + tasks[i].name[copyLen..]);
      tasks[i] := tasks[i].(rip := trampoline, rsp := stack.value + TASK_STACK_SIZE - 8, rflags := 0x202, rdi := entry,
          rsi := api);
      assert EmptyTask().name[copyLen..] == seq(16 - copyLen, j => 0);
      return Some(i);
    }

    method TaskExit()
      requires Valid()
      modifies tasks
      ensures Valid() && Abs() == Step(old(Abs()), Exit)
    {
      tasks[current] := tasks[current].(state := Exited);
    }

    method Start()
      requires Valid()
      modifies this`active
      ensures Valid() && Abs() == Step(old(Abs()), Activate)
    {
      active := true;
    }

    method PreemptDisable()
      requires Valid()
      modifies this`preemptCount
      ensures Valid() && Abs() == Step(old(Abs()), Disable)
    {
      preemptCount := (preemptCount + 1) % TWO_32;
    }

    method PreemptEnable()
      requires Valid()
      modifies this`preemptCount
      ensures Valid() && Abs() == Step(old(Abs()), Enable)
    {
      if preemptCount > 0 {
        preemptCount := preemptCount - 1;
      }
    }
  }

  // ---------------------------------------------------------------- runs

  /** What can happen: a timer interrupt at any time; the rest is done by the running task. */
  datatype Event =
    | Timer(ctx: Context)
    | Spawn(trampoline: nat, entry: nat, api: nat, name: seq<nat>, stack: Option<nat>, result: Option<nat>)
    | Exit | Disable | Enable | Activate

  ghost function Step(s: State, e: Event): State
    requires Shape(s) && !e.Spawn?
  {
    match e
    case Timer(ctx) => Tick(s, ctx).0
    case Exit => s.(tasks := s.tasks[s.current := s.tasks[s.current].(state := Exited)])
    case Disable => s.(preempt := (s.preempt + 1) % TWO_32)
    case Enable => s.(preempt := if s.preempt > 0 then s.preempt - 1 else s.preempt)
    case Activate => s.(active := true)
  }

  /** A legal step: only the running task acts, and the idle task never exits. */
  ghost predicate Next(s: State, e: Event, s': State) {
    && Shape(s)
    && (e.Timer? || s.tasks[s.current].state == Running)
    && (e.Exit? ==> s.current != 0)
    && if e.Spawn? then Spawned(s, s', e.trampoline, e.entry, e.api, e.name, e.stack, e.result) else s' == Step(s, e)
  }

  /** Only the current slot can be Running, it is never Ready, and the idle task is alive. */
  ghost predicate Inv(s: State) {
    && Shape(s)
    && (forall i :: 0 <= i < MAX_TASKS && s.tasks[i].state == Running ==> i == s.current)
    && s.tasks[s.current].state in {Running, Exited}
    && s.tasks[0].state in {Ready, Running}
  }

  /** Cyclic distance from slot a to slot b, 1 to 16. */
  function Dist(a: nat, b: nat): (d: nat)
    requires a < MAX_TASKS && b < MAX_TASKS
    ensures 1 <= d <= MAX_TASKS && (a + d) % MAX_TASKS == b
  {
    if a < b then b - a else b + MAX_TASKS - a
  }

  /** Pick finds the Ready slot at the least distance, if there is one within reach. */
  lemma {:induction false} PickIsNearest(tasks: seq<Task>, at: nat, left: nat, t: nat)
    requires |tasks| == MAX_TASKS && at < MAX_TASKS && 1 <= left <= MAX_TASKS && t < MAX_TASKS
    requires tasks[t].state == Ready && Dist(at, t) <= left
    ensures var n := Pick(tasks, at, left);
            tasks[n].state == Ready && Dist(at, n) <= Dist(at, t)
    decreases left
  {
    var i := Succ(at);
    if i != t && tasks[i].state != Ready {
      PickIsNearest(tasks, i, left - 1, t);
    }
  }

  /** An effective tick resumes a Ready task, so the fallback to slot 0 is never taken. */
  lemma TickPicks(s: State, ctx: Context)
    requires Inv(s) && Effective(s)
    ensures var tasks, s' := Saved(s, ctx), Tick(s, ctx).0;
            && tasks[s'.current].state == Ready && s'.current == Pick(tasks, s.current, MAX_TASKS)
            && s'.tasks == tasks[s'.current := tasks[s'.current].(state := Running)]
            && Tick(s, ctx).1 == LoadCtx(tasks[s'.current])
    ensures forall t :: 0 <= t < MAX_TASKS && s.tasks[t].state == Ready ==>
        Dist(s.current, Tick(s, ctx).0.current) <= Dist(s.current, t)
  {
    var tasks := Saved(s, ctx);
    assert tasks[0].state == Ready;
    PickIsNearest(tasks, s.current, MAX_TASKS, 0);
    forall t | 0 <= t < MAX_TASKS && s.tasks[t].state == Ready
      ensures Dist(s.current, Pick(tasks, s.current, MAX_TASKS)) <= Dist(s.current, t)
    {
      PickIsNearest(tasks, s.current, MAX_TASKS, t);
    }
  }

  lemma NextInv(s: State, e: Event, s': State)
    requires Inv(s) && Next(s, e, s')
    ensures Inv(s')
  {
    if e.Timer? && Effective(s) {
      TickPicks(s, e.ctx);
    }
  }

  ghost predicate IsRun(run: seq<State>, es: seq<Event>) {
    && |run| == |es| + 1 && Inv(run[0])
    && forall i :: 0 <= i < |es| ==> Next(run[i], es[i], run[i + 1])
  }

  lemma {:induction false} RunInv(run: seq<State>, es: seq<Event>, k: nat)
    requires IsRun(run, es) && k <= |es|
    ensures Inv(run[k])
  {
    if k == 0 {
    } else {
      RunInv(run, es, k - 1);
      NextInv(run[k - 1], es[k - 1], run[k]);
    }
  }

  // ---------------------------------------------------------------- registers

  /** An event that changes what slot i must be resumed with: an effective tick that
      interrupts it, or the spawn that fills it. */
  ghost function Refill(s: State, e: Event, i: nat): Option<seq<nat>> {
    if e.Timer? && Effective(s) && s.current == i then Some(ContextRegs(e.ctx))
    else if e.Spawn? && e.result == Some(i)
        then Some(TaskRegs(SpawnTask(i, e.trampoline, e.entry, e.api, e.name, e.stack.GetOr(0))))
    else None
  }

  /** What slot i must be resumed with after the first k events of a run, read off the events
      alone: its registers at the last effective tick that interrupted it, or the frame of
      the spawn that last filled the slot; before that, what it started with. */
  ghost function Frame(run: seq<State>, es: seq<Event>, k: nat, i: nat): seq<nat>
    requires IsRun(run, es) && k <= |es| && i < MAX_TASKS
  {
    if k == 0 then TaskRegs(run[0].tasks[i])
    else
      match Refill(run[k - 1], es[k - 1], i)
      case Some(frame) => frame
      case None => Frame(run, es, k - 1, i)
  }

  lemma StepFrame(s: State, e: Event, s': State, i: nat)
    requires Inv(s) && Next(s, e, s') && i < MAX_TASKS
    ensures |s'.tasks| == MAX_TASKS
    ensures TaskRegs(s'.tasks[i]) == Refill(s, e, i).GetOr(TaskRegs(s.tasks[i]))
  {
    if e.Timer? && Effective(s) {
      TickPicks(s, e.ctx);
    }
  }

  lemma RunFrame(run: seq<State>, es: seq<Event>, k: nat, i: nat)
    requires IsRun(run, es) && k < |es| && i < MAX_TASKS
    ensures |run[k].tasks| == |run[k + 1].tasks| == MAX_TASKS
    ensures TaskRegs(run[k + 1].tasks[i]) == Refill(run[k], es[k], i).GetOr(TaskRegs(run[k].tasks[i]))
  {
    RunInv(run, es, k);
    StepFrame(run[k], es[k], run[k + 1], i);
  }

  lemma {:induction false} FrameIsKept(run: seq<State>, es: seq<Event>, k: nat, i: nat)
    requires IsRun(run, es) && k <= |es| && i < MAX_TASKS
    ensures |run[k].tasks| == MAX_TASKS && TaskRegs(run[k].tasks[i]) == Frame(run, es, k, i)
  {
    hide TaskRegs, Refill, Next;
    if k == 0 {
    } else {
      FrameIsKept(run, es, k - 1, i);
      RunFrame(run, es, k - 1, i);
    }
  }

  /** A task resumed by a tick gets exactly the eighteen registers it was interrupted with
      last, or those of its spawn frame. */
  lemma ResumedExactly(run: seq<State>, es: seq<Event>, k: nat)
    requires IsRun(run, es) && k < |es| && es[k].Timer? && Effective(run[k])
    ensures run[k + 1].current < MAX_TASKS && Shape(run[k])
    ensures ContextRegs(Tick(run[k], es[k].ctx).1) == Frame(run, es, k + 1, run[k + 1].current)
  {
    RunInv(run, es, k);
    RunInv(run, es, k + 1);
    TickPicks(run[k], es[k].ctx);
    FrameIsKept(run, es, k + 1, run[k + 1].current);
  }

  /** A tick, in full. Without effect it only counts. Otherwise it resumes a Ready task with
      that task's registers, the kernel selectors, and the top of its stack as the kernel
      stack; the task interrupted keeps its registers, and is Ready again if it was Running. */
  lemma TickExactly(s: State, ctx: Context)
    requires Inv(s)
    ensures var (s', out) := Tick(s, ctx);
            && |s'.tasks| == MAX_TASKS && s'.current < MAX_TASKS
            && s'.ticks == (s.ticks + 1) % TWO_64 && s'.active == s.active && s'.preempt == s.preempt
            && (s.active && s.preempt == 0 ==> Switched(s, ctx, s', out))
            && (!s.active || s.preempt > 0 ==> out == ctx && s' == s.(ticks := s'.ticks))
  {
    if Effective(s) {
      TickPicks(s, ctx);
    }
  }

  ghost predicate Switched(s: State, ctx: Context, s': State, out: Context)
    requires Shape(s) && Shape(s')
  {
    var c, n := s.current, s'.current;
    && out.cs == 0x08 && out.ss == 0x10 && ContextRegs(out) == TaskRegs(s'.tasks[n])
    && s'.kernelStack == s'.tasks[n].stackBase + s'.tasks[n].stackSize && s'.tasks[n].state == Running
    && (n != c ==> s.tasks[n].state == Ready && s'.tasks[n] == s.tasks[n].(state := Running))
    && TaskRegs(s'.tasks[c]) == ContextRegs(ctx)
    && (n != c ==> s'.tasks[c].state == if s.tasks[c].state == Running then Ready else s.tasks[c].state)
    && (s'.tasks[c].id, s'.tasks[c].stackBase, s'.tasks[c].stackSize, s'.tasks[c].name)
       == (s.tasks[c].id, s.tasks[c].stackBase, s.tasks[c].stackSize, s.tasks[c].name)
    && forall t :: 0 <= t < MAX_TASKS && t != c && t != n ==> s'.tasks[t] == s.tasks[t]
  }

  lemma StepKeepsReady(s: State, e: Event, s': State, i: nat)
    requires Inv(s) && Next(s, e, s') && i < MAX_TASKS && s.current != i && s.tasks[i].state == Ready
    ensures |s'.tasks| == MAX_TASKS && (s'.current != i ==> s'.tasks[i] == s.tasks[i])
    ensures s'.current == i ==> e.Timer? && Effective(s) && s'.tasks[i] == s.tasks[i].(state := Running)
  {
    if e.Timer? {
      TickExactly(s, e.ctx);
    }
  }

  /** The slot filled by the spawn at event j holds its record until a tick resumes it. */
  lemma {:induction false} SpawnIsKept(run: seq<State>, es: seq<Event>, j: nat, k: nat, i: nat)
    requires IsRun(run, es) && j < k <= |es| && i < MAX_TASKS
    requires es[j].Spawn? && es[j].result == Some(i) && es[j].stack.Some?
    requires forall m :: j < m <= k ==> run[m].current != i
    ensures var e := es[j];
            |run[k].tasks| == MAX_TASKS &&
            run[k].tasks[i] == SpawnTask(i, e.trampoline, e.entry, e.api, e.name, e.stack.value)
    decreases k
  {
    hide SpawnTask;
    RunInv(run, es, k - 1);
    if k == j + 1 {
      assert Next(run[j], es[j], run[k]);
    } else {
      SpawnIsKept(run, es, j, k - 1, i);
      NewTaskIsReady(i, es[j]);
      StepKeepsReady(run[k - 1], es[k - 1], run[k], i);
    }
  }

  lemma NewTaskIsReady(i: nat, e: Event)
    requires e.Spawn? && e.stack.Some?
    ensures SpawnTask(i, e.trampoline, e.entry, e.api, e.name, e.stack.value).state == Ready
  {
  }

  /** A spawned task starts in the trampoline, which finds the entry point and the API table
      as its two arguments, at the top of the task's own stack, with interrupts on. */
  lemma FirstResume(run: seq<State>, es: seq<Event>, j: nat, k: nat, i: nat)
    requires IsRun(run, es) && j < k < |es| && i < MAX_TASKS
    requires es[j].Spawn? && es[j].result == Some(i)
    requires forall m :: j < m <= k ==> run[m].current != i
    requires es[k].Timer? && Effective(run[k]) && run[k + 1].current == i
    ensures es[j].stack.Some? && Shape(run[k])
    ensures var e, stack, out := es[j], es[j].stack.value, Tick(run[k], es[k].ctx).1;
            && out.rip == e.trampoline && out.rdi == e.entry && out.rsi == e.api
            && out.rsp == stack + 0x4000 - 8 && out.rflags == 0x202 && out.cs == 0x08 && out.ss == 0x10
            && out.rax == out.rbx == out.rcx == out.rdx == out.rbp == 0
            && out.r8 == out.r9 == out.r10 == out.r11 == out.r12 == out.r13 == out.r14 == out.r15 == 0
            && run[k + 1].kernelStack == stack + 0x4000
  {
    RunInv(run, es, k);
    assert Next(run[j], es[j], run[j + 1]) && Next(run[k], es[k], run[k + 1]);
    SpawnIsKept(run, es, j, k, i);
    StartsAs(run[k], es[k].ctx, i, es[j]);
  }

  lemma StartsAs(s: State, ctx: Context, i: nat, e: Event)
    requires Inv(s) && Effective(s) && s.current != i && Tick(s, ctx).0.current == i < MAX_TASKS
    requires e.Spawn? && e.stack.Some?
    requires s.tasks[i] == SpawnTask(i, e.trampoline, e.entry, e.api, e.name, e.stack.value)
    ensures var (s', out) := Tick(s, ctx);
            && out == LoadCtx(s.tasks[i]) && s'.kernelStack == s.tasks[i].stackBase + s.tasks[i].stackSize
  {
    TickPicks(s, ctx);
  }

  /** The running task is gone once it exits. */
  lemma StepKeepsExited(s: State, e: Event, s': State, i: nat)
    requires Inv(s) && Next(s, e, s') && i < MAX_TASKS
    ensures |s'.tasks| == MAX_TASKS && (e == Exit ==> s'.tasks[s.current].state == Exited)
    ensures s.tasks[i].state == Exited && !(e.Spawn? && e.result == Some(i)) ==> s'.tasks[i].state == Exited
    ensures s.tasks[i].state == Exited && e.Timer? && Effective(s) ==> s'.current != i
  {
    if e.Timer? {
      TickExactly(s, e.ctx);
    }
  }

  /** A task that has exited is never resumed; only a spawn gives its slot to a new one. */
  lemma {:induction false} ExitedIsGone(run: seq<State>, es: seq<Event>, k: nat, m: nat, i: nat)
    requires IsRun(run, es) && k < m <= |es| && i < MAX_TASKS && Shape(run[k])
    requires es[k] == Exit && run[k].current == i
    requires forall j :: k <= j < m ==> !(es[j].Spawn? && es[j].result == Some(i))
    ensures Shape(run[m]) && run[m].tasks[i].state == Exited
    ensures forall j :: k < j < m && es[j].Timer? && Effective(run[j]) ==> run[j + 1].current != i
    decreases m
  {
    hide Next, Effective;
    RunInv(run, es, m - 1);
    RunInv(run, es, m);
    assert Next(run[m - 1], es[m - 1], run[m]);
    StepKeepsExited(run[m - 1], es[m - 1], run[m], i);
    if k + 1 == m {
    } else {
      ExitedIsGone(run, es, k, m - 1, i);
    }
  }

  // ---------------------------------------------------------------- critical sections

  /** How many more disables than enables there were from event k up to event m. */
  ghost function Depth(es: seq<Event>, k: nat, m: nat): int
    requires k <= m <= |es|
    decreases m - k
  {
    if k == m then 0
    else Depth(es, k, m - 1) + Change(es[m - 1])
  }

  /** The change of the nesting counter that an event makes. */
  ghost function Change(e: Event): int {
    match e case Disable => 1 case Enable => -1 case _ => 0
  }

  lemma StepInside(s: State, e: Event, s': State)
    requires Next(s, e, s') && 1 <= s.preempt + Change(e) < TWO_32
    ensures s'.preempt == s.preempt + Change(e) && s'.current == s.current
  {
  }

  /** From a disable up to the enable that matches it no other task is resumed, however deep
      further pairs nest in between, as long as the counter does not wrap. */
  lemma {:induction false} NoSwitchInside(run: seq<State>, es: seq<Event>, k: nat, m: nat)
    requires IsRun(run, es) && k <= m <= |es| && run[k].preempt < TWO_32
    requires forall j :: k < j <= m ==> 1 <= Depth(es, k, j) && run[k].preempt + Depth(es, k, j) < TWO_32
    ensures run[m].preempt == run[k].preempt + Depth(es, k, m) && run[m].current == run[k].current
    decreases m - k
  {
    hide Next, Inv;
    if k == m {
    } else {
      NoSwitchInside(run, es, k, m - 1);
      RunInv(run, es, m - 1);
      assert Next(run[m - 1], es[m - 1], run[m]);
      assert 1 <= Depth(es, k, m) == Depth(es, k, m - 1) + Change(es[m - 1]);
      StepInside(run[m - 1], es[m - 1], run[m]);
    }
  }

  // ---------------------------------------------------------------- waiting

  ghost function EffectiveTicks(run: seq<State>, es: seq<Event>, k: nat, m: nat): nat
    requires k <= m <= |es| <= |run|
    decreases m - k
  {
    if k == m then 0
    else EffectiveTicks(run, es, k, m - 1) + (if es[m - 1].Timer? && Effective(run[m - 1]) then 1 else 0)
  }

  /** One step: a Ready task is chosen, or stays Ready, and then an effective tick brings the
      current slot at least one place closer to it. */
  lemma StepCloser(s: State, e: Event, s': State, t: nat)
    requires Inv(s) && Next(s, e, s') && Inv(s') && t < MAX_TASKS && s.tasks[t].state == Ready
    ensures s'.current != t ==> s'.tasks[t].state == Ready
    ensures s'.current != t ==> (if e.Timer? && Effective(s) then 1 else 0) + Dist(s'.current, t) <= Dist(s.current, t)
  {
    if e.Timer? && Effective(s) {
      TickPicks(s, e.ctx);
    }
  }

  /** While a Ready task is not chosen, each effective tick brings the current slot at least
      one place closer to it. */
  lemma {:induction false} Closer(run: seq<State>, es: seq<Event>, k: nat, m: nat, t: nat)
    requires IsRun(run, es) && k <= m <= |es| && t < MAX_TASKS
    requires Inv(run[k]) && run[k].tasks[t].state == Ready
    requires forall j :: k < j <= m ==> run[j].current != t
    ensures Inv(run[m]) && run[m].tasks[t].state == Ready
    ensures EffectiveTicks(run, es, k, m) + Dist(run[m].current, t) <= Dist(run[k].current, t)
    decreases m - k
  {
    hide Inv, Next, Dist;
    RunInv(run, es, m);
    if k == m {
    } else {
      Closer(run, es, k, m - 1, t);
      StepCloser(run[m - 1], es[m - 1], run[m], t);
    }
  }

  /** Bounded waiting: a Ready task is chosen within fifteen effective ticks. */
  lemma ChosenInTime(run: seq<State>, es: seq<Event>, k: nat, m: nat, t: nat)
    requires IsRun(run, es) && k <= m <= |es| && t < MAX_TASKS
    requires |run[k].tasks| == MAX_TASKS && run[k].tasks[t].state == Ready
    requires EffectiveTicks(run, es, k, m) >= MAX_TASKS - 1
    ensures exists j :: k < j <= m && run[j].current == t
  {
    RunInv(run, es, k);
    if forall j :: k < j <= m ==> run[j].current != t {
      Closer(run, es, k, m, t);
      assert false;
    }
  }
}
