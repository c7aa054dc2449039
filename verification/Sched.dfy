/** The scheduler's run queue as a state machine on values: what schedule, task_run and
    exit_point do (kernel/sched.c, lines 42-150), and what every run of them keeps.
    The module Kernel shows that the code on linked structures takes these steps. */
module Sched {
  import opened List
  import opened Machine

  const TASK_RUNNING := 0
  const TASK_SLEEPING := 1
  const TASK_ZOMBIE := 2

  // STACK_SIZE / sizeof(uint32_t)
  const STACK_WORDS: nat := 1024

  /** struct task_struct. Its stack is the words [base, limit) of the memory. */
  class Task {
    const next: ListHead
    const base: nat
    const limit: nat
    const entry: Word
    var sp: nat
    var state: int
    var ret: Word

    // A static task: all fields that have no initializer are zero.
    constructor (base: nat, limit: nat, entry: Word)
      ensures this.base == base && this.limit == limit && this.entry == entry
      ensures state == TASK_RUNNING && fresh(next)
    {
      this.base, this.limit, this.entry := base, limit, entry;
      this.sp, this.state, this.ret := 0, TASK_RUNNING, 0;
      this.next := new ListHead();
    }
  }

  /** The fixed part of a system: its tasks, the first of which runs main. */
  datatype Config = Config(tasks: set<Task>, init: Task, exitPoint: Word, memSize: nat) {

    ghost predicate Valid() {
      && init in tasks
      && (forall t :: t in tasks ==> t.base + STACK_WORDS <= t.limit <= memSize)
      && (forall t, u :: t in tasks && u in tasks && t != u ==> t.limit <= u.base || u.limit <= t.base)
    }
  }

  datatype Sys = Sys(
    current: Task,
    queue: seq<Task>,
    zombies: set<Task>,
    unstarted: set<Task>,
    cpu: Cpu,
    mem: seq<Word>,
    sp: map<Task, nat>)

  /** What is true between any two steps. */
  ghost predicate Inv(c: Config, s: Sys) {
    && c.Valid() && |s.mem| == c.memSize && (forall t :: t in c.tasks ==> t in s.sp)
    // {current, queue, zombies, unstarted} is a partition of the tasks
    && Distinct(s.queue) && s.current !in s.queue
    && s.current !in s.zombies && s.current !in s.unstarted && s.zombies !! s.unstarted
    && (forall t :: t in s.queue ==> t in c.tasks && t !in s.zombies && t !in s.unstarted)
    && s.current in c.tasks && s.zombies <= c.tasks && s.unstarted <= c.tasks
    && (forall t :: t in c.tasks ==> t == s.current || t in s.queue || t in s.zombies || t in s.unstarted)
    // init never exits
    && (c.init == s.current || c.init in s.queue)
    // a sleeping task has its context on its own stack
    && (forall t :: t in s.queue ==> t.base <= s.sp[t] && s.sp[t] + FRAME <= t.limit)
  }

  /** A step: either code of the running task outside the scheduler, which changes the
      cpu and the memory, or one of the scheduler's three entry points. */
  datatype Step = Compute(cpu: Cpu, mem: seq<Word>) | Yield | Spawn(task: Task) | Exit

  // Room for switch_to's return address, which is at esp, and its seven pushes.
  ghost predicate CanSwitch(s: Sys) {
    s.current.base + 7 <= s.cpu.esp < s.current.limit
  }

  ghost predicate Enabled(c: Config, s: Sys, step: Step) {
    match step
    case Compute(cpu, mem) =>
      // a task writes only its own stack
      && |mem| == |s.mem|
      && forall a :: 0 <= a < |mem| && !(s.current.base <= a < s.current.limit) ==> mem[a] == s.mem[a]
    case Yield => CanSwitch(s)
    case Spawn(t) => CanSwitch(s) && (t in s.zombies || t in s.unstarted)
    case Exit => CanSwitch(s) && s.current != c.init
  }

  // What schedule puts at the end of the queue: the running task, unless it has exited.
  ghost function Back(t: Task, state: int): seq<Task> {
    if state == TASK_ZOMBIE then [] else [t]
  }

  ghost function Exited(t: Task, state: int): set<Task> {
    if state == TASK_ZOMBIE then {t} else {}
  }

  /** schedule() when the running task is to be left in the given state. */
  ghost function Scheduled(s: Sys, state: int): Sys
    requires |s.queue| > 0 ==> CanSwitch(s) && s.current.limit <= |s.mem|
    requires |s.queue| > 0 ==> s.queue[0] in s.sp && s.sp[s.queue[0]] + FRAME <= |s.mem|
  {
    if s.queue == [] then s else
      var next := s.queue[0];
      var mem := Pushed(s.mem, s.cpu);
      s.(current := next,
         queue := s.queue[1..] + Back(s.current, state),
         zombies := s.zombies + Exited(s.current, state),
         cpu := Popped(mem, s.sp[next]),
         mem := mem,
         sp := s.sp[s.current := s.cpu.esp - 7])
  }

  /** task_init: t's stack is prepared and t becomes the first of the queue. */
  ghost function Started(c: Config, s: Sys, t: Task): Sys
    requires t.limit <= |s.mem| && t.limit >= 9
  {
    s.(queue := [t] + s.queue,
       zombies := s.zombies - {t},
       unstarted := s.unstarted - {t},
       mem := Prepared(s.mem, t.limit, t.entry, c.exitPoint),
       sp := s.sp[t := t.limit - 9])
  }

  lemma StartedKeeps(c: Config, s: Sys, t: Task)
    requires Inv(c, s) && (t in s.zombies || t in s.unstarted)
    ensures Inv(c, Started(c, s, t))
  {
    var s' := Started(c, s, t);
    assert [t] + s.queue == InsertAt(s.queue, 0, t);
    InsertDistinct(s.queue, 0, t);
    assert forall u :: u in s'.queue <==> u == t || u in s.queue;
  }

  lemma ScheduledKeeps(c: Config, s: Sys, state: int)
    requires Inv(c, s) && CanSwitch(s)
    requires state == TASK_ZOMBIE ==> s.current != c.init
    ensures Inv(c, Scheduled(s, state))
  {
    if s.queue != [] {
      var s' := Scheduled(s, state);
      assert s.queue == [s.queue[0]] + s.queue[1..];
      DistinctSplit([s.queue[0]], s.queue[1..]);
      assert s.queue[0] in [s.queue[0]];
      DistinctJoin(s.queue[1..], Back(s.current, state));
      assert forall u :: u in s.queue <==> u == s.queue[0] || u in s.queue[1..];
      assert forall u :: u in s'.queue <==> u in s.queue[1..] || (state != TASK_ZOMBIE && u == s.current);
    }
  }

  /** One step. Every step keeps the invariant. */
  ghost function Next(c: Config, s: Sys, step: Step): (s': Sys)
    requires Inv(c, s) && Enabled(c, s, step)
    ensures Inv(c, s')
  {
    match step
    case Compute(cpu, mem) => s.(cpu := cpu, mem := mem)
    case Yield =>
      ScheduledKeeps(c, s, TASK_RUNNING);
      Scheduled(s, TASK_RUNNING)
    case Spawn(t) =>
      StartedKeeps(c, s, t);
      ScheduledKeeps(c, Started(c, s, t), TASK_RUNNING);
      Scheduled(Started(c, s, t), TASK_RUNNING)
    case Exit =>
      ScheduledKeeps(c, s, TASK_ZOMBIE);
      Scheduled(s, TASK_ZOMBIE)
  }

  /** A task that yields alone goes on as it was: the state, cpu and memory included, stays
      the same, and that is so only for the yield of a task that is alone. */
  lemma YieldAlone(c: Config, s: Sys)
    requires Inv(c, s) && Enabled(c, s, Yield)
    ensures Next(c, s, Yield) == s <==> s.queue == []
  {
    if s.queue != [] {
      assert s.queue[0] in s.queue && Next(c, s, Yield).current == s.queue[0];
    }
  }

  // ---------- the round-robin law ----------

  // The running task, then the tasks that wait, in the order in which they will run.
  ghost function Order(s: Sys): seq<Task> {
    [s.current] + s.queue
  }

  lemma OrderOfScheduled(s: Sys, state: int)
    requires s.queue != [] && CanSwitch(s) && s.current.limit <= |s.mem|
    requires s.queue[0] in s.sp && s.sp[s.queue[0]] + FRAME <= |s.mem|
    ensures Order(Scheduled(s, state)) == s.queue + Back(s.current, state)
  {
  }

  /** What each step does to the order of execution. */
  lemma RoundRobin(c: Config, s: Sys, step: Step)
    requires Inv(c, s) && Enabled(c, s, step)
    ensures var order := Order(Next(c, s, step));
      match step
      case Compute(_, _) => order == Order(s)
      case Yield => order == RotatedLeft(Order(s))
      case Spawn(t) => order == [t] + s.queue + [s.current]
      case Exit => order == s.queue && s.queue != []
  {
    match step
    case Compute(_, _) =>
    case Yield =>
      if s.queue != [] {
        OrderOfScheduled(s, TASK_RUNNING);
        assert Order(s)[1..] == s.queue;
      }
    case Spawn(t) =>
      assert t.limit >= 9 && t.limit <= |s.mem| && s.current.limit <= |s.mem|;
      OrderOfScheduled(Started(c, s, t), TASK_RUNNING);
    case Exit =>
      OrderOfScheduled(s, TASK_ZOMBIE);
  }

  // ---------- runs ----------

  ghost predicate Feasible(c: Config, s: Sys, steps: seq<Step>)
    requires Inv(c, s)
    decreases |steps|
  {
    steps == [] || (Enabled(c, s, steps[0]) && Feasible(c, Next(c, s, steps[0]), steps[1..]))
  }

  /** The state after a run. Every reachable state satisfies the invariant. */
  ghost function Run(c: Config, s: Sys, steps: seq<Step>): (s': Sys)
    requires Inv(c, s) && Feasible(c, s, steps)
    ensures Inv(c, s')
    decreases |steps|
  {
    if steps == [] then s else Run(c, Next(c, s, steps[0]), steps[1..])
  }

  /** t runs after the last of the steps and after none of those before it. */
  ghost predicate FirstRunsAtEnd(c: Config, s: Sys, steps: seq<Step>, t: Task)
    requires Inv(c, s) && Feasible(c, s, steps)
    decreases |steps|
  {
    && steps != []
    && var s' := Next(c, s, steps[0]);
       if |steps| == 1 then s'.current == t
       else s'.current != t && FirstRunsAtEnd(c, s', steps[1..], t)
  }

  lemma {:induction false} RunsAtEnd(c: Config, s: Sys, steps: seq<Step>, t: Task)
    requires Inv(c, s) && Feasible(c, s, steps) && FirstRunsAtEnd(c, s, steps, t)
    ensures Run(c, s, steps).current == t
    decreases |steps|
  {
    hide Inv, Enabled, Next;
    var s' := Next(c, s, steps[0]);
    if |steps| > 1 {
      RunsAtEnd(c, s', steps[1..], t);
    } else {
      assert Run(c, s, steps) == Run(c, s', steps[1..]) == s';
    }
  }

  // ---------- contexts survive any run ----------

  /** m agrees with the memory of s on t's stack from sp up. */
  ghost predicate StackIs(s: Sys, t: Task, sp: nat, m: seq<Word>) {
    && t.limit <= |m| && t.limit <= |s.mem|
    && forall a {:trigger s.mem[a]} {:trigger m[a]} :: sp <= a < t.limit ==> s.mem[a] == m[a]
  }

  ghost predicate Sleeps(s: Sys, t: Task, sp: nat, m: seq<Word>) {
    t in s.queue && t in s.sp && s.sp[t] == sp && StackIs(s, t, sp, m)
  }

  lemma ScheduledSpares(c: Config, s: Sys, state: int, t: Task, sp: nat, m: seq<Word>)
    requires Inv(c, s) && CanSwitch(s) && Sleeps(s, t, sp, m)
    ensures var s' := Scheduled(s, state);
      if s.queue[0] == t
      then s'.current == t && s'.cpu == Popped(s'.mem, sp) && StackIs(s', t, sp, m)
      else s'.current != t && Sleeps(s', t, sp, m)
  {
    var s' := Scheduled(s, state);
    assert t != s.current && t in c.tasks;
    forall a | t.base <= a < t.limit
      ensures s'.mem[a] == s.mem[a]
    {
    }
  }

  lemma StartedSpares(c: Config, s: Sys, u: Task, t: Task, sp: nat, m: seq<Word>)
    requires Inv(c, s) && (u in s.zombies || u in s.unstarted) && Sleeps(s, t, sp, m)
    ensures Sleeps(Started(c, s, u), t, sp, m)
  {
    assert t != u && t in c.tasks;
  }

  lemma {:induction false} StepSpares(c: Config, s: Sys, step: Step, t: Task, sp: nat, m: seq<Word>)
    requires Inv(c, s) && Enabled(c, s, step) && Sleeps(s, t, sp, m)
    ensures var s' := Next(c, s, step);
      if s'.current == t
      then s'.cpu == Popped(s'.mem, sp) && StackIs(s', t, sp, m)
      else Sleeps(s', t, sp, m)
  {
    match step
    case Compute(_, mem) =>
      assert t != s.current && t in c.tasks;
    case Yield => ScheduledSpares(c, s, TASK_RUNNING, t, sp, m);
    case Spawn(u) =>
      StartedSpares(c, s, u, t, sp, m);
      StartedKeeps(c, s, u);
      ScheduledSpares(c, Started(c, s, u), TASK_RUNNING, t, sp, m);
    case Exit => ScheduledSpares(c, s, TASK_ZOMBIE, t, sp, m);
  }

  lemma {:induction false} RunSpares(c: Config, s: Sys, steps: seq<Step>, t: Task, sp: nat, m: seq<Word>)
    requires Inv(c, s) && Feasible(c, s, steps) && FirstRunsAtEnd(c, s, steps, t) && Sleeps(s, t, sp, m)
    ensures var s' := Run(c, s, steps); s'.cpu == Popped(s'.mem, sp) && StackIs(s', t, sp, m)
    decreases |steps|
  {
    StepSpares(c, s, steps[0], t, sp, m);
    if |steps| > 1 {
      RunSpares(c, Next(c, s, steps[0]), steps[1..], t, sp, m);
    }
  }

  lemma ScheduledSaves(c: Config, s: Sys)
    requires Inv(c, s) && CanSwitch(s) && s.queue != []
    ensures Sleeps(Scheduled(s, TASK_RUNNING), s.current, s.cpu.esp - 7, Pushed(s.mem, s.cpu))
  {
    var s' := Scheduled(s, TASK_RUNNING);
    assert s'.queue[|s'.queue| - 1] == s.current;
  }

  lemma SwitchSaves(c: Config, s: Sys, out: Step)
    requires Inv(c, s) && Enabled(c, s, out) && ((out.Yield? && s.queue != []) || out.Spawn?)
    ensures Sleeps(Next(c, s, out), s.current, s.cpu.esp - 7, Pushed(s.mem, s.cpu))
  {
    if out.Yield? {
      ScheduledSaves(c, s);
    } else {
      var s0 := Started(c, s, out.task);
      StartedKeeps(c, s, out.task);
      ScheduledSaves(c, s0);
      assert out.task != s.current && out.task in c.tasks && s.current in c.tasks;
      PreparedThenPushed(s.mem, s.cpu, s.current.base, s.current.limit, out.task.limit, out.task.entry, c.exitPoint);
      var s', sp := Next(c, s, out), s.cpu.esp - 7;
      assert Sleeps(s', s.current, sp, Pushed(s0.mem, s0.cpu));
      hide Inv, Scheduled, Pushed, Prepared, Started, Next;
      assert Sleeps(s', s.current, sp, Pushed(s.mem, s.cpu));
    }
  }

  /** The context switch. A task that leaves the processor by yielding or by starting
      another task gets it back, after any run of other tasks, with the seven registers
      it had, at the address after its call, with the stack pointer and the stack it had. */
  lemma {:induction false} ContextSwitch(c: Config, s: Sys, out: Step, steps: seq<Step>)
    requires Inv(c, s) && Enabled(c, s, out) && ((out.Yield? && s.queue != []) || out.Spawn?)
    requires Feasible(c, Next(c, s, out), steps)
    requires FirstRunsAtEnd(c, Next(c, s, out), steps, s.current)
    ensures var s' := Run(c, Next(c, s, out), steps);
      && s'.cpu == Cpu(s.cpu.regs, s.cpu.esp + 1, s.mem[s.cpu.esp])
      && forall a :: s.cpu.esp <= a < s.current.limit ==> s'.mem[a] == s.mem[a]
  {
    var m := Pushed(s.mem, s.cpu);
    SwitchSaves(c, s, out);
    RunSpares(c, Next(c, s, out), steps, s.current, s.cpu.esp - 7, m);
    var s' := Run(c, Next(c, s, out), steps);
    hide Next, Run, FirstRunsAtEnd, Feasible;
    RestoresContext(s.mem, s.cpu, s'.mem, s.current.limit);
  }

  /** A task that is started enters its function at once, with all registers zero and
      exit_point as the address that function returns to. */
  lemma SpawnEntersTask(c: Config, s: Sys, t: Task)
    requires Inv(c, s) && Enabled(c, s, Spawn(t))
    ensures var s' := Next(c, s, Spawn(t));
      s'.current == t && s'.cpu == Cpu(ZERO_REGS, t.limit - 1, t.entry) && s'.mem[t.limit - 1] == c.exitPoint
  {
    var s' := Next(c, s, Spawn(t));
    assert t in c.tasks && t != s.current;
    PreparedThenPushed(s.mem, s.cpu, s.current.base, s.current.limit, t.limit, t.entry, c.exitPoint);
    FirstDispatch(s.mem, t.limit, t.entry, c.exitPoint, s'.mem);
  }

  // ---------- waiting ----------

  /** The steps that take the next task from the front of the queue. */
  predicate IsTurn(step: Step) {
    step.Yield? || step.Exit?
  }

  function Turns(steps: seq<Step>): nat {
    if steps == [] then 0 else (if IsTurn(steps[0]) then 1 else 0) + Turns(steps[1..])
  }

  lemma {:induction false} TurnsOfLast(steps: seq<Step>)
    requires steps != []
    ensures Turns(steps) == Turns(steps[..|steps| - 1]) + (if IsTurn(steps[|steps| - 1]) then 1 else 0)
  {
    if |steps| > 1 {
      TurnsOfLast(steps[1..]);
      assert steps[1..][..|steps| - 2] == steps[..|steps| - 1][1..];
    }
  }

  lemma StepMoves(c: Config, s: Sys, step: Step, k: nat)
    requires Inv(c, s) && Enabled(c, s, step) && k < |s.queue|
    ensures var s' := Next(c, s, step);
      if !IsTurn(step) then k < |s'.queue| && s'.queue[k] == s.queue[k] && s'.current != s.queue[k]
      else if k == 0 then s'.current == s.queue[0]
      else k - 1 < |s'.queue| && s'.queue[k - 1] == s.queue[k] && s'.current != s.queue[k]
  {
    var order := Order(Next(c, s, step));
    RoundRobin(c, s, step);
    assert Order(s)[1..] == s.queue;
    assert At(s.queue, 0) && At(s.queue, k);
    assert order[0] == Next(c, s, step).current && order[1..] == Next(c, s, step).queue;
  }

  /** Bounded waiting. The task at position k of the queue runs for the first time with
      the (k + 1)-st yield or exit, and not before; starting tasks and computing in
      between does not move it. */
  lemma {:induction false} BoundedWaiting(c: Config, s: Sys, steps: seq<Step>, k: nat)
    requires Inv(c, s) && Feasible(c, s, steps) && k < |s.queue|
    ensures FirstRunsAtEnd(c, s, steps, s.queue[k])
       <==> steps != [] && IsTurn(steps[|steps| - 1]) && Turns(steps) == k + 1
    ensures Turns(steps) <= k ==>
      var s' := Run(c, s, steps); k - Turns(steps) < |s'.queue| && s'.queue[k - Turns(steps)] == s.queue[k]
    decreases |steps|
  {
    hide Inv, Enabled, Next, Order;
    if steps != [] {
      var s1, rest := Next(c, s, steps[0]), steps[1..];
      StepMoves(c, s, steps[0], k);
      TurnsOfLast(steps);
      if |steps| > 1 {
        assert rest[|rest| - 1] == steps[|steps| - 1];
      }
      if !IsTurn(steps[0]) {
        BoundedWaiting(c, s1, rest, k);
      } else if k > 0 {
        BoundedWaiting(c, s1, rest, k - 1);
      } else if |steps| > 1 && IsTurn(steps[|steps| - 1]) {
        assert steps[..|steps| - 1][0] == steps[0];
      }
    }
  }

  /** The tasks that yields and exits bring to the processor, in order. */
  ghost function Dispatched(c: Config, s: Sys, steps: seq<Step>): seq<Task>
    requires Inv(c, s) && Feasible(c, s, steps)
    decreases |steps|
  {
    if steps == [] then [] else
      var s' := Next(c, s, steps[0]);
      (if IsTurn(steps[0]) then [s'.current] else []) + Dispatched(c, s', steps[1..])
  }

  /** First come, first served: over any run, yields and exits bring the waiting tasks
      to the processor in the order of the queue, each of them once. */
  lemma {:induction false} FirstComeFirstServed(c: Config, s: Sys, steps: seq<Step>, j: nat)
    requires Inv(c, s) && Feasible(c, s, steps)
    requires j < Turns(steps) && j < |s.queue|
    ensures |Dispatched(c, s, steps)| == Turns(steps)
    ensures Dispatched(c, s, steps)[j] == s.queue[j]
    decreases |steps|
  {
    hide Inv, Enabled, Next, Order;
    DispatchedLength(c, s, steps);
    var s1 := Next(c, s, steps[0]);
    StepMoves(c, s, steps[0], j);
    if !IsTurn(steps[0]) {
      FirstComeFirstServed(c, s1, steps[1..], j);
    } else if j > 0 {
      FirstComeFirstServed(c, s1, steps[1..], j - 1);
    }
  }

  lemma {:induction false} DispatchedLength(c: Config, s: Sys, steps: seq<Step>)
    requires Inv(c, s) && Feasible(c, s, steps)
    ensures |Dispatched(c, s, steps)| == Turns(steps)
    decreases |steps|
  {
    if steps != [] {
      DispatchedLength(c, Next(c, s, steps[0]), steps[1..]);
    }
  }

  /** Without starts and exits, n yields rotate the order of execution n times. */
  lemma {:induction false} YieldsRotate(c: Config, s: Sys, steps: seq<Step>)
    requires Inv(c, s) && Feasible(c, s, steps)
    requires forall step :: step in steps ==> step.Compute? || step.Yield?
    ensures Order(Run(c, s, steps)) == RotatedLeftTimes(Order(s), Turns(steps))
    decreases |steps|
  {
    hide Inv, Enabled, Next, Order, RotatedLeft;
    if steps != [] {
      assert steps[0] in steps;
      RoundRobin(c, s, steps[0]);
      YieldsRotate(c, Next(c, s, steps[0]), steps[1..]);
    }
  }

  // The task that the j-th of n yields dispatches.
  lemma {:induction false} YieldDispatches(c: Config, s: Sys, steps: seq<Step>, j: nat)
    requires Inv(c, s) && Feasible(c, s, steps)
    requires forall step :: step in steps ==> step.Compute? || step.Yield?
    requires j < Turns(steps)
    ensures |Dispatched(c, s, steps)| == Turns(steps)
    ensures RotatedLeftTimes(Order(s), j + 1) != []
    ensures Dispatched(c, s, steps)[j] == RotatedLeftTimes(Order(s), j + 1)[0]
    decreases |steps|
  {
    hide Inv, Enabled, Next, RotatedLeft;
    DispatchedLength(c, s, steps);
    var s1, rest := Next(c, s, steps[0]), steps[1..];
    assert steps[0] in steps;
    RoundRobin(c, s, steps[0]);
    if !IsTurn(steps[0]) {
      YieldDispatches(c, s1, rest, j);
    } else if j > 0 {
      YieldDispatches(c, s1, rest, j - 1);
    } else {
      assert RotatedLeftTimes(Order(s), 1) == RotatedLeftTimes(RotatedLeft(Order(s)), 0) == Order(s1);
    }
  }

  /** As many yields as there are started tasks bring back the order of execution they
      started from, and dispatch every task once: first those that waited, in their order,
      and last the one that ran. */
  lemma FullRound(c: Config, s: Sys, steps: seq<Step>)
    requires Inv(c, s) && Feasible(c, s, steps)
    requires forall step :: step in steps ==> step.Compute? || step.Yield?
    requires Turns(steps) == |Order(s)|
    ensures Order(Run(c, s, steps)) == Order(s)
    ensures Dispatched(c, s, steps) == s.queue + [s.current]
  {
    YieldsRotate(c, s, steps);
    var n, order := |Order(s)|, Order(s);
    RotateLeftTimes(order, n);
    DispatchedLength(c, s, steps);
    forall j | 0 <= j < n
      ensures Dispatched(c, s, steps)[j] == (s.queue + [s.current])[j]
    {
      YieldDispatches(c, s, steps, j);
      RotateLeftTimes(order, j + 1);
    }
    hide Dispatched, Run, Feasible, Inv;
  }

  // ---------- exits ----------

  /** An exit always passes the processor to a sleeping task: schedule does not return
      to exit_point. The exited task does not run again unless it is started anew. */
  lemma {:induction false} ExitIsFinal(c: Config, s: Sys, steps: seq<Step>)
    requires Inv(c, s) && Enabled(c, s, Exit) && Feasible(c, Next(c, s, Exit), steps)
    requires Spawn(s.current) !in steps
    ensures s.queue != [] && Next(c, s, Exit).current == s.queue[0] != s.current
    ensures s.current in Run(c, Next(c, s, Exit), steps).zombies
    ensures Run(c, Next(c, s, Exit), steps).current != s.current
  {
    RoundRobin(c, s, Exit);
    ZombieStays(c, Next(c, s, Exit), steps, s.current);
  }

  lemma {:induction false} ZombieStays(c: Config, s: Sys, steps: seq<Step>, t: Task)
    requires Inv(c, s) && Feasible(c, s, steps) && t in s.zombies && Spawn(t) !in steps
    ensures t in Run(c, s, steps).zombies
    decreases |steps|
  {
    if steps != [] {
      ZombieStays(c, Next(c, s, steps[0]), steps[1..], t);
    }
  }
}
