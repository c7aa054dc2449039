/** The scheduler as it is written (kernel/sched.c), on the linked run queue and the
    memory, proved to take exactly the steps of module Sched. */
module Kernel {
  import opened List
  import opened Machine
  import opened Sched

  ghost function Links(q: seq<Task>): (s: seq<ListHead>)
    ensures |s| == |q|
  {
    seq(|q|, i requires 0 <= i < |q| => q[i].next)
  }

  /** The states that schedule expects of the tasks. A static task that is not started
      yet has state 0, which is TASK_RUNNING. */
  ghost predicate StatesAre(m: map<Task, int>, s: Sys, state: int) {
    && s.current in m && m[s.current] == state
    && (forall t :: t in s.queue ==> t in m && m[t] == TASK_SLEEPING)
    && (forall t :: t in s.zombies ==> t in m && m[t] == TASK_ZOMBIE)
    && (forall t :: t in s.unstarted ==> t in m && m[t] == TASK_RUNNING)
  }

  // The state of a task after schedule has taken it off the processor.
  function StateOff(state: int): int {
    if state == TASK_RUNNING then TASK_SLEEPING else state
  }

  ghost function StatesAfter(m: map<Task, int>, s: Sys, state: int): map<Task, int>
  {
    if s.queue == [] then m else WithState(WithState(m, s.current, StateOff(state)), s.queue[0], TASK_RUNNING)
  }

  lemma StatesScheduled(c: Config, m: map<Task, int>, s: Sys, state: int)
    requires Inv(c, s) && CanSwitch(s) && StatesAre(m, s, state) && s.queue != []
    requires state == TASK_RUNNING || (state == TASK_ZOMBIE && s.current != c.init)
    ensures s.queue[0] in m && m[s.queue[0]] == TASK_SLEEPING && s.queue[0] != s.current
    ensures StatesAre(StatesAfter(m, s, state), Scheduled(s, state), TASK_RUNNING)
  {
    QueueTail(s.queue);
    assert s.current !in s.queue && s.queue[0] in s.queue;
    assert forall t :: t in s.zombies || t in s.unstarted ==> t != s.current && t !in s.queue;
    hide Inv, CanSwitch, Distinct, Pushed, Popped;
    var s' := Scheduled(s, state);
    assert forall t :: t in s'.queue ==> t in s.queue[1..] || (t == s.current && state == TASK_RUNNING);
    hide Scheduled, Back;
  }

  lemma QueueTail(q: seq<Task>)
    requires Distinct(q) && q != []
    ensures forall t :: t in q[1..] ==> t in q && t != q[0]
  {
    assert q == [q[0]] + q[1..];
    DistinctSplit([q[0]], q[1..]);
    assert q[0] in [q[0]];
  }

  lemma MapsScheduled(c: Config, m: map<Task, int>, s: Sys, state: int)
    requires Inv(c, s) && CanSwitch(s) && s.queue != []
    ensures var m' := StatesAfter(m, s, state);
      && s.queue[0] in m' && m'[s.queue[0]] == TASK_RUNNING
      && s.current in m' && (s.current != s.queue[0] ==> m'[s.current] == StateOff(state))
      && forall t :: t in m && t != s.current && t != s.queue[0] ==> t in m' && m'[t] == m[t]
    ensures var sp := Scheduled(s, state).sp;
      && s.current in sp && sp[s.current] == s.cpu.esp - 7
      && forall t :: t in s.sp && t != s.current ==> t in sp && sp[t] == s.sp[t]
    ensures var s' := Scheduled(s, state);
      && s'.current == s.queue[0] && s'.queue == s.queue[1..] + Back(s.current, state)
      && s'.mem == Pushed(s.mem, s.cpu) && s'.cpu == Popped(s'.mem, s.sp[s.queue[0]])
  {
  }

  lemma MapsStarted(c: Config, s: Sys, t: Task)
    requires Inv(c, s) && t in c.tasks
    ensures var s' := Started(c, s, t);
      && t in s'.sp && s'.sp[t] == t.limit - 9
      && (forall u :: u in s.sp && u != t ==> u in s'.sp && s'.sp[u] == s.sp[u])
      && s'.queue == [t] + s.queue && s'.current == s.current && s'.cpu == s.cpu
      && s'.mem == Prepared(s.mem, t.limit, t.entry, c.exitPoint)
  {
  }

  ghost function WithState(m: map<Task, int>, t: Task, state: int): (m': map<Task, int>)
    ensures t in m' && m'[t] == state && forall u :: u in m && u != t ==> u in m' && m'[u] == m[u]
  {
    m[t := state]
  }

  lemma NextIsSpawn(c: Config, s: Sys, t: Task)
    requires Inv(c, s) && Enabled(c, s, Spawn(t))
    ensures var s' := Started(c, s, t);
      Inv(c, s') && CanSwitch(s') && s'.current == s.current && Next(c, s, Spawn(t)) == Scheduled(s', TASK_RUNNING)
  {
    StartedKeeps(c, s, t);
  }

  lemma StatesStarted(c: Config, m: map<Task, int>, s: Sys, t: Task)
    requires Inv(c, s) && StatesAre(m, s, TASK_RUNNING) && (t in s.zombies || t in s.unstarted)
    ensures StatesAre(WithState(m, t, TASK_SLEEPING), Started(c, s, t), TASK_RUNNING)
  {
  }

  ghost function BootSys(c: Config, cpu: Cpu, mem: seq<Word>): (s: Sys)
    requires c.Valid() && |mem| == c.memSize
    reads c.tasks`sp
    ensures Inv(c, s)
    ensures s.current == c.init && s.queue == [] && s.zombies == {} && s.unstarted == c.tasks - {c.init}
    ensures s.cpu == cpu && s.mem == mem
  {
    Sys(c.init, [], {}, c.tasks - {c.init}, cpu, mem, map t | t in c.tasks :: t.sp)
  }

  ghost function BootStates(c: Config): map<Task, int> {
    map t | t in c.tasks :: TASK_RUNNING
  }

  ghost function Linked(c: Config, list: ListHead): set<ListHead> {
    {list} + set t | t in c.tasks :: t.next
  }

  lemma BootFacts(c: Config, s: Sys, m: map<Task, int>)
    requires c.Valid() && |s.mem| == c.memSize
    requires s.current == c.init && s.queue == [] && s.zombies == {} && s.unstarted == c.tasks - {c.init}
    requires forall t :: t in c.tasks ==> t in s.sp && t in m && m[t] == TASK_RUNNING
    ensures Inv(c, s) && StatesAre(m, s, TASK_RUNNING)
  {
  }

  lemma SysFacts(c: Config, s: Sys)
    requires Inv(c, s)
    ensures s.current in c.tasks && s.current !in s.queue && s.current.limit <= |s.mem|
    ensures forall t :: t in s.queue ==> t in c.tasks && t != s.current
    ensures s.queue != [] ==> s.queue[0] in s.queue && s.sp[s.queue[0]] + FRAME <= |s.mem|
    ensures s.current != c.init ==> s.queue != []
  {
    assert s.queue != [] ==> s.queue[0] in s.queue;
  }

  // What the code for each step asks for.
  lemma StepFacts(c: Config, s: Sys, step: Step)
    requires Inv(c, s) && Enabled(c, s, step)
    ensures s.current in c.tasks
    ensures !step.Compute? ==> CanSwitch(s)
    ensures step.Yield? ==> Next(c, s, step) == Scheduled(s, TASK_RUNNING)
    ensures step.Spawn? ==> step.task in s.zombies || step.task in s.unstarted
    ensures step.Exit? ==> s.current != c.init
  {
  }

  // The queue that schedule takes its first task from.
  lemma QueueBehind(q: seq<Task>, t: Task, state: int)
    requires q != []
    ensures var r := q + Back(t, state); r != [] && r[0] == q[0] && r[1..] == q[1..] + Back(t, state)
    ensures forall u :: u in q + Back(t, state) ==> u in q || u == t
  {
  }

  class Kernel {
    const taskList: ListHead
    const mem: array<Word>
    const exitPoint: Word
    // container_of(link, struct task_struct, next)
    const containerOf: map<ListHead, Task>
    ghost const config: Config
    // task_list and the links embedded in the tasks
    ghost const nodes: set<ListHead>

    var current: Task
    // The registers as they are when switch_to is entered.
    var cpu: Cpu

    // The state of this kernel, and the states of its tasks, as values.
    ghost var sys: Sys
    ghost var states: map<Task, int>

    ghost predicate Layout() {
      && config.Valid() && mem.Length == config.memSize && exitPoint == config.exitPoint
      && taskList !in containerOf
      && taskList in nodes
      && forall t :: t in config.tasks ==> t.next in containerOf && containerOf[t.next] == t && t.next in nodes
    }

    /** task_list is a ring through the tasks of q. */
    ghost predicate Queued(q: seq<Task>)
      reads taskList, Links(q)
    {
      Ring([taskList] + Links(q))
    }

    /** The tasks' sp and state fields are those of the maps. */
    ghost predicate FieldsAre(sp: map<Task, nat>, states: map<Task, int>)
      reads config.tasks
    {
      forall t :: t in config.tasks ==> t in sp && t.sp == sp[t] && t in states && t.state == states[t]
    }

    /** The kernel is consistent, and the running task is in the given state. */
    ghost predicate ValidIn(state: int)
      reads this, mem, config.tasks, taskList, Links(sys.queue)
    {
      && Layout() && Inv(config, sys) && StatesAre(states, sys, state)
      && current == sys.current && cpu == sys.cpu && mem[..] == sys.mem
      && FieldsAre(sys.sp, states) && Queued(sys.queue)
    }

    ghost predicate Valid()
      reads this, mem, config.tasks, taskList, Links(sys.queue)
    {
      ValidIn(TASK_RUNNING)
    }

    /** The kernel as it boots: an empty task_list, init_task running, the static
        tasks not started. */
    constructor (ghost config: Config, containerOf: map<ListHead, Task>, mem: array<Word>, exitPoint: Word,
                 init: Task, cpu: Cpu)
      requires config.Valid() && init == config.init && mem.Length == config.memSize && exitPoint == config.exitPoint
      requires forall t :: t in config.tasks ==> t.next in containerOf && containerOf[t.next] == t
      requires forall t :: t in config.tasks ==> t.state == TASK_RUNNING
      ensures Valid() && fresh(taskList) && this.config == config && this.mem == mem
      ensures sys == BootSys(config, cpu, mem[..])
      // the links that this kernel works on
      ensures nodes == Linked(config, taskList)
    {
      this.config, this.containerOf, this.mem, this.exitPoint := config, containerOf, mem, exitPoint;
      this.current, this.cpu := init, cpu;
      this.sys, this.states := BootSys(config, cpu, mem[..]), BootStates(config);
      var list := new ListHead();
      this.taskList, this.nodes := list, Linked(config, list);
      new;
      hide BootSys, BootStates, Linked, Config.Valid;
      assert AtBoot();
      hide *;
      ClearTaskList();
      BootIsValid();
    }

    // What the constructor has assigned.
    ghost predicate AtBoot()
      reads this, mem, config.tasks
    {
      && config.Valid() && current == config.init && mem.Length == config.memSize && exitPoint == config.exitPoint
      && taskList !in containerOf && nodes == Linked(config, taskList)
      && (forall t :: t in config.tasks ==> t.next in containerOf && containerOf[t.next] == t)
      && (forall t :: t in config.tasks ==> t.state == TASK_RUNNING)
      && sys == BootSys(config, cpu, mem[..]) && states == BootStates(config)
    }

    // LIST_HEAD(task_list)
    method ClearTaskList()
      requires AtBoot()
      modifies taskList`next, taskList`prev
      ensures AtBoot() && Queued([])
    {
      NotLinked(this, []);
      NotLinked(mem, []);
      assert [taskList] + Links([]) == [taskList];
      hide Ring, Links;
      InitListHead(taskList);
    }

    lemma BootIsValid()
      requires AtBoot() && Queued([])
      ensures Valid()
    {
      BootFacts(config, sys, states);
      hide Inv, StatesAre, Queued;
    }

    // ---------- switch_to ----------

    method Push(w: Word)
      requires 0 < cpu.esp <= mem.Length
      modifies this`cpu, mem
      ensures cpu == old(cpu).(esp := old(cpu.esp) - 1)
      ensures mem[..] == old(mem[..])[cpu.esp := w]
    {
      cpu := cpu.(esp := cpu.esp - 1);
      mem[cpu.esp] := w;
    }

    method Pop() returns (w: Word)
      requires cpu.esp < mem.Length
      modifies this`cpu
      ensures w == mem[old(cpu.esp)] && cpu == old(cpu).(esp := old(cpu.esp) + 1)
    {
      w := mem[cpu.esp];
      cpu := cpu.(esp := cpu.esp + 1);
    }

    method PushRegisters()
      requires 7 <= cpu.esp <= mem.Length
      modifies this`cpu, mem
      ensures mem[..] == Pushed(old(mem[..]), old(cpu)) && cpu == old(cpu).(esp := old(cpu.esp) - 7)
    {
      Push(cpu.regs.eax);
      Push(cpu.regs.ecx);
      Push(cpu.regs.edx);
      Push(cpu.regs.ebx);
      Push(cpu.regs.ebp);
      Push(cpu.regs.esi);
      Push(cpu.regs.edi);
    }

    method PopRegistersAndReturn()
      requires cpu.esp + FRAME <= mem.Length
      modifies this`cpu
      ensures cpu == Popped(mem[..], old(cpu.esp))
    {
      var edi := Pop();
      var esi := Pop();
      var ebp := Pop();
      var ebx := Pop();
      var edx := Pop();
      var ecx := Pop();
      var eax := Pop();
      var eip := Pop();
      cpu := Cpu(Regs(eax, ecx, edx, ebx, ebp, esi, edi), cpu.esp, eip);
    }

    /** switch_to(new_stack, &prev->sp) */
    method SwitchTo(newStack: nat, prev: Task, ghost q: seq<Task>)
      requires 7 <= cpu.esp <= mem.Length && newStack + FRAME <= mem.Length && Queued(q)
      modifies this`cpu, mem, prev`sp
      ensures mem[..] == Pushed(old(mem[..]), old(cpu))
      ensures prev.sp == old(cpu.esp) - 7
      ensures cpu == Popped(mem[..], newStack)
      // none of this touches the run queue
      ensures Queued(q)
    {
      NotLinked(this, q);
      NotLinked(prev, q);
      NotLinked(mem, q);
      hide *;
      PushRegisters();
      prev.sp := cpu.esp;
      cpu := cpu.(esp := newStack);
      PopRegistersAndReturn();
    }

    /** *(--task->sp) = w, where the words ws have been pushed already. */
    method PushOn(task: Task, w: Word, ghost m: seq<Word>, ghost ws: seq<Word>)
      requires 0 < task.sp && task.sp + |ws| <= |m| && mem[..] == Stacked(m, task.sp + |ws|, ws)
      modifies mem, task`sp
      ensures task.sp == old(task.sp) - 1
      ensures mem[..] == Stacked(m, old(task.sp) + |ws|, [w] + ws)
    {
      task.sp := task.sp - 1;
      mem[task.sp] := w;
    }

    /** stack_init, after task_init has set sp to the end of the stack. */
    method StackInit(task: Task)
      requires 9 <= task.sp <= mem.Length
      modifies mem, task`sp
      ensures mem[..] == Prepared(old(mem[..]), old(task.sp), task.entry, exitPoint)
      ensures task.sp == old(task.sp) - 9
    {
      ghost var m, zero := mem[..], [0];
      ghost var ws := [task.entry] + [exitPoint];
      ghost var zs := zero + (zero + (zero + (zero + (zero + (zero + (zero + ws))))));
      assert mem[..] == Stacked(m, task.sp, []);
      assert [exitPoint] + [] == [exitPoint] && zs == FirstFrame(task.entry, exitPoint);
      hide Stacked, FirstFrame;
      PushOn(task, exitPoint, m, []);
      PushOn(task, task.entry, m, [exitPoint]);
      PushOn(task, 0, m, ws);
      PushOn(task, 0, m, zero + ws);
      PushOn(task, 0, m, zero + (zero + ws));
      PushOn(task, 0, m, zero + (zero + (zero + ws)));
      PushOn(task, 0, m, zero + (zero + (zero + (zero + ws))));
      PushOn(task, 0, m, zero + (zero + (zero + (zero + (zero + ws)))));
      PushOn(task, 0, m, zero + (zero + (zero + (zero + (zero + (zero + ws))))));
    }

    // ---------- the run queue ----------

    lemma LinkNotQueued(t: Task, q: seq<Task>)
      requires Layout() && t in config.tasks && t !in q && forall u :: u in q ==> u in config.tasks
      ensures t.next !in [taskList] + Links(q)
    {
      forall i | 0 <= i < |q|
        ensures Links(q)[i] != t.next
      {
        assert q[i] in q;
      }
    }

    lemma LinksOfFirst(t: Task, q: seq<Task>)
      ensures InsertAt([taskList] + Links(q), 1, t.next) == [taskList] + Links([t] + q)
    {
      assert Links([t] + q) == [t.next] + Links(q);
      assert ([taskList] + Links(q))[1..] == Links(q);
    }

    // The links next to task_list and to the first task of the queue.
    lemma NodesOf(q: seq<Task>)
      requires Layout() && Queued(q) && forall u :: u in q ==> u in config.tasks
      ensures taskList.next in nodes && taskList.prev in nodes
      ensures q != [] ==> q[0].next.next in nodes && q[0].next.prev in nodes
    {
      ghost var s := [taskList] + Links(q);
      forall i | 0 <= i < |q|
        ensures Links(q)[i] in nodes
      {
        assert q[i] in q;
      }
      assert forall x :: x in s ==> x in nodes;
      Neighbours(s, 0);
      if q != [] {
        Neighbours(s, 1);
      }
    }

    /** list_first_entry_or_null(&task_list, struct task_struct, next) */
    function FirstEntryOrNull(ghost q: seq<Task>): (next: Task?)
      requires Layout() && Queued(q) && forall t :: t in q ==> t in config.tasks
      reads this, taskList, Links(q)
      ensures next == if q == [] then null else q[0]
    {
      HeadLinks(taskList, Links(q));
      assert q != [] ==> q[0] in config.tasks && Links(q)[0] == q[0].next;
      var pos := taskList.next;
      if pos != taskList then containerOf[pos] else null
    }

    // list_add_tail(&t->next, &task_list)
    method LinkTail(t: Task, ghost q: seq<Task>)
      requires Layout() && Queued(q) && t in config.tasks && t !in q
      requires forall u :: u in q ==> u in config.tasks
      modifies t.next`next, t.next`prev, taskList`prev, Maybe(taskList.prev)`next
      ensures Queued(q + [t])
    {
      ghost var s := [taskList] + Links(q);
      LinkNotQueued(t, q);
      assert InsertAt(s, |s|, t.next) == [taskList] + Links(q + [t]);
      hide Ring, Distinct, InsertAt, Links;
      ListAddTail(t.next, taskList, s, 0);
    }

    // list_add(&t->next, &task_list)
    method LinkHead(t: Task, ghost q: seq<Task>)
      requires Layout() && Queued(q) && t in config.tasks && t !in q
      requires forall u :: u in q ==> u in config.tasks
      modifies t.next`next, t.next`prev, taskList`next, Maybe(taskList.next)`prev
      ensures Queued([t] + q)
    {
      ghost var s := [taskList] + Links(q);
      LinkNotQueued(t, q);
      LinksOfFirst(t, q);
      hide Ring, Distinct, InsertAt, Links;
      ListAdd(t.next, taskList, s, 0);
    }

    // list_del_init(&t->next)
    method UnlinkFirst(t: Task, ghost q: seq<Task>)
      requires Layout() && Queued(q) && q != [] && t == q[0]
      requires forall u :: u in q ==> u in config.tasks
      modifies t.next`next, t.next`prev, Maybe(t.next.prev)`next, Maybe(t.next.next)`prev
      ensures Queued(q[1..]) && Ring([t.next])
    {
      ghost var s := [taskList] + Links(q);
      assert s[1] == t.next && Without(s, 1) == [taskList] + Links(q[1..]);
      hide Ring, Distinct, Without, Links;
      ListDelInit(t.next, s, 1);
    }

    // ---------- schedule, task_run, exit_point ----------

    // Objects of other classes are not links of the queue.
    lemma NotLinked(o: object, q: seq<Task>)
      requires !(o is ListHead)
      ensures (taskList as object) != o && forall i :: 0 <= i < |q| ==> (Links(q)[i] as object) != o
    {
    }

    // task->state = state; the queue does not depend on it.
    method SetState(task: Task, state: int, ghost q: seq<Task>)
      requires Queued(q)
      modifies task`state
      ensures task.state == state && Queued(q)
    {
      NotLinked(task, q);
      hide *;
      task.state := state;
    }

    // The first switch of schedule: the state of the task that leaves the processor.
    method LeaveProcessor(prev: Task, ghost q: seq<Task>)
      requires prev == current && (prev.state == TASK_RUNNING || prev.state == TASK_ZOMBIE)
      requires Layout() && Queued(q) && current in config.tasks && current !in q
      requires forall t :: t in q ==> t in config.tasks
      modifies prev`state, nodes`next, nodes`prev
      ensures Queued(q + Back(prev, old(prev.state)))
      ensures prev.state == StateOff(old(prev.state))
    {
      assert q + Back(prev, TASK_RUNNING) == q + [prev] && q + Back(prev, TASK_ZOMBIE) == q;
      hide Queued, Back;
      if prev.state == TASK_RUNNING {
        SetState(current, TASK_SLEEPING, q);
        NodesOf(q);
        LinkTail(current, q);
      } else if prev.state == TASK_ZOMBIE {
      } else {
        assert false;
      }
    }

    // The second switch of schedule: the first of the queue takes the processor.
    method EnterProcessor(next: Task, ghost q: seq<Task>)
      requires Layout() && Queued(q) && q != [] && next == q[0] && next.state == TASK_SLEEPING
      requires forall t :: t in q ==> t in config.tasks
      modifies next`state, this`current, nodes`next, nodes`prev
      ensures Queued(q[1..]) && next.state == TASK_RUNNING && current == next
    {
      NotLinked(this, q[1..]);
      hide *;
      if next.state == TASK_SLEEPING {
        SetState(next, TASK_RUNNING, q);
        NodesOf(q);
        UnlinkFirst(next, q);
        current := next;
      } else {
        assert false;
      }
    }

    // From the switch on prev->state to the end of schedule.
    method SwitchTasks(prev: Task, next: Task, ghost q: seq<Task>)
      requires prev == current && (prev.state == TASK_RUNNING || prev.state == TASK_ZOMBIE)
      requires q != [] && next == q[0] && next.state == TASK_SLEEPING && prev !in q
      requires Layout() && Queued(q) && prev in config.tasks && forall t :: t in q ==> t in config.tasks
      requires 7 <= cpu.esp <= mem.Length && next.sp + FRAME <= mem.Length
      modifies prev`state, prev`sp, next`state, this`current, this`cpu, mem, nodes`next, nodes`prev
      ensures Queued(q[1..] + Back(prev, old(prev.state)))
      ensures current == next && next.state == TASK_RUNNING
      ensures prev.state == StateOff(old(prev.state)) && prev.sp == old(cpu.esp) - 7
      ensures mem[..] == Pushed(old(mem[..]), old(cpu)) && cpu == Popped(mem[..], old(next.sp))
      ensures forall t :: t in config.tasks && t != prev ==>
        t.sp == old(t.sp) && (t != next ==> t.state == old(t.state))
      ensures prev.ret == old(prev.ret)
    {
      ghost var r := q + Back(prev, prev.state);
      QueueBehind(q, prev, prev.state);
      hide *;
      LeaveProcessor(prev, q);
      EnterProcessor(next, r);
      SwitchTo(next.sp, prev, r[1..]);
    }

    // The maps and the fields have changed alike, for one or two tasks.
    lemma FieldsAgree(prev: Task, next: Task, sp: map<Task, nat>, m: map<Task, int>,
                      sp': map<Task, nat>, m': map<Task, int>)
      requires forall t :: t in config.tasks ==> t in sp && t in m
      requires forall t :: t in config.tasks && t != prev ==> t.sp == sp[t] && (t != next ==> t.state == m[t])
      requires forall t :: t in sp && t != prev ==> t in sp' && sp'[t] == sp[t]
      requires forall t :: t in m && t != prev && t != next ==> t in m' && m'[t] == m[t]
      requires prev in sp' && prev.sp == sp'[prev]
      requires prev in m' && prev.state == m'[prev] && next in m' && next.state == m'[next]
      ensures FieldsAre(sp', m')
    {
    }

    // The fields have the values of s and m: from here on these are the kernel's state.
    ghost method Commit(s: Sys, m: map<Task, int>, state: int)
      requires Layout() && Inv(config, s) && StatesAre(m, s, state)
      requires current == s.current && cpu == s.cpu && mem[..] == s.mem
      requires FieldsAre(s.sp, m) && Queued(s.queue)
      modifies this`sys, this`states
      ensures ValidIn(state) && sys == s
    {
      NotLinked(this, s.queue);
      hide Inv, StatesAre, Links, Ring, Layout;
      sys, states := s, m;
    }

    /** The main scheduler function. The branches that the source marks with BUG_ON, and
        the one that reports an invalid state, are never reached. */
    method Schedule(ghost state: int)
      requires state == TASK_RUNNING || (state == TASK_ZOMBIE && current != config.init)
      requires ValidIn(state) && CanSwitch(sys)
      modifies this`current, this`cpu, this`sys, this`states, mem
      modifies config.tasks`state, config.tasks`sp, nodes`next, nodes`prev
      ensures Valid() && sys == Scheduled(old(sys), state)
      ensures old(current).ret == old(current.ret)
      ensures old(sys).queue == [] ==>
        sys == old(sys) && current == old(current) && cpu == old(cpu) && mem[..] == old(mem[..])
    {
      ghost var s, m := sys, states;
      SysFacts(config, s);
      ScheduledKeeps(config, s, state);
      if s.queue != [] {
        StatesScheduled(config, states, s, state);
        MapsScheduled(config, states, s, state);
      }
      ghost var s' := Scheduled(s, state);
      ghost var m' := StatesAfter(m, s, state);
      assert s.queue == [] ==> s' == s && m' == m;
      hide Inv, Pushed, Popped, Queued, Layout, Back, Exited, StateOff, StatesAre, StatesAfter, Scheduled;
      var prev := current;
      var next := FirstEntryOrNull(s.queue);
      if next == null {
        return;
      }
      if next == prev {
        assert false;
      }
      SwitchTasks(prev, next, s.queue);
      FieldsAgree(prev, next, s.sp, m, s'.sp, m');
      Commit(s', m', TASK_RUNNING);
    }

    // current->ret = ret, with the result of the task in eax; current->state = TASK_ZOMBIE
    method MarkExited()
      requires Valid()
      modifies current`ret, current`state, this`sys, this`states
      ensures ValidIn(TASK_ZOMBIE) && sys == old(sys) && current == old(current)
      ensures current.ret == cpu.regs.eax
    {
      ghost var s, m := sys, WithState(states, current, TASK_ZOMBIE);
      SysFacts(config, s);
      NotLinked(current, s.queue);
      assert StatesAre(m, s, TASK_ZOMBIE);
      hide Inv, StatesAre, Links, Ring, Layout, WithState;
      current.ret := cpu.regs.eax;
      current.state := TASK_ZOMBIE;
      FieldsAgree(current, current, s.sp, states, s.sp, m);
      Commit(s, m, TASK_ZOMBIE);
    }

    /** exit_point, which a task's function returns to with its result in eax. The
        processor passes to another task: the call of schedule does not return here. */
    method ExitPoint()
      requires Valid() && CanSwitch(sys) && current != config.init
      modifies this`current, this`cpu, this`sys, this`states, mem
      modifies config.tasks`state, config.tasks`sp, current`ret, nodes`next, nodes`prev
      ensures Valid() && sys == Next(config, old(sys), Exit)
      ensures current != old(current) && old(current).ret == old(cpu.regs.eax)
    {
      RoundRobin(config, sys, Exit);
      SysFacts(config, sys);
      ghost var s := Next(config, sys, Exit);
      assert s == Scheduled(sys, TASK_ZOMBIE) && s.current == sys.queue[0] && s.current != sys.current;
      hide Inv, Next, Scheduled, StatesAre, Layout, Links, Ring;
      MarkExited();
      Schedule(TASK_ZOMBIE);
    }

    // The part of task_init that comes before the queue.
    method PrepareTask(task: Task, ghost q: seq<Task>)
      requires 9 <= task.limit <= mem.Length && Queued(q)
      modifies mem, task`state, task`sp
      ensures mem[..] == Prepared(old(mem[..]), task.limit, task.entry, exitPoint)
      ensures task.state == TASK_SLEEPING && task.sp == task.limit - 9
      // none of this touches the run queue and the other tasks
      ensures Queued(q)
      ensures forall t :: t in config.tasks && t != task ==> t.sp == old(t.sp) && t.state == old(t.state)
    {
      NotLinked(task, q);
      NotLinked(mem, q);
      hide *;
      task.sp := task.limit;
      StackInit(task);
      task.state := TASK_SLEEPING;
    }

    // task_init, on the machine, the task and the links.
    method SetUpTask(task: Task, ghost q: seq<Task>)
      requires 9 <= task.limit <= mem.Length
      requires Layout() && Queued(q) && task in config.tasks && task !in q && forall t :: t in q ==> t in config.tasks
      modifies mem, task`state, task`sp, nodes`next, nodes`prev
      ensures mem[..] == Prepared(old(mem[..]), task.limit, task.entry, exitPoint)
      ensures task.state == TASK_SLEEPING && task.sp == task.limit - 9
      ensures Queued([task] + q)
      ensures forall t :: t in config.tasks && t != task ==> t.sp == old(t.sp) && t.state == old(t.state)
    {
      assert task.next in nodes && taskList in nodes;
      hide *;
      PrepareTask(task, q);
      NodesOf(q);
      LinkHead(task, q);
    }

    /** task_init: the task gets a prepared stack and becomes the first of the queue. */
    method TaskInit(task: Task)
      requires Valid() && (task in sys.zombies || task in sys.unstarted)
      modifies this`sys, this`states, mem, task`state, task`sp, nodes`next, nodes`prev
      ensures Valid() && sys == Started(config, old(sys), task)
    {
      ghost var s := sys;
      ghost var s', m := Started(config, s, task), WithState(states, task, TASK_SLEEPING);
      SysFacts(config, s);
      StartedKeeps(config, s, task);
      StatesStarted(config, states, s, task);
      assert task in config.tasks && task !in s.queue && task.limit <= mem.Length && task != current;
      MapsStarted(config, s, task);
      hide Inv, Started, StatesAre, Links, Ring, Prepared, WithState;
      SetUpTask(task, s.queue);
      FieldsAgree(task, task, s.sp, states, s'.sp, m);
      Commit(s', m, TASK_RUNNING);
    }

    /** task_run, for a task that is not yet started or has exited. */
    method TaskRun(task: Task) returns (ret: int)
      requires Valid() && CanSwitch(sys) && (task in sys.zombies || task in sys.unstarted)
      modifies this`current, this`cpu, this`sys, this`states, mem
      modifies config.tasks`state, config.tasks`sp, nodes`next, nodes`prev
      ensures Valid() && sys == Next(config, old(sys), Spawn(task))
      ensures ret == 0
    {
      NextIsSpawn(config, sys, task);
      hide Inv, Next, Started, Scheduled, Links, Ring, Layout, StatesAre;
      TaskInit(task);
      Schedule(TASK_RUNNING);
      ret := 0;
    }

    // ---------- runs ----------

    /** Code of the running task between two calls of the scheduler: it leaves the registers
        as newCpu and the memory as newMem, which differs on its own stack only. */
    method RunTask(newCpu: Cpu, newMem: seq<Word>)
      requires Valid() && Enabled(config, sys, Compute(newCpu, newMem))
      modifies this`cpu, this`sys, this`states, mem
      ensures Valid() && sys == Next(config, old(sys), Compute(newCpu, newMem))
    {
      ghost var s := Next(config, sys, Compute(newCpu, newMem));
      ghost var m := states;
      assert |newMem| == mem.Length && s == sys.(cpu := newCpu, mem := newMem);
      assert StatesAre(m, s, TASK_RUNNING);
      NotLinked(this, sys.queue);
      NotLinked(mem, sys.queue);
      hide Inv, Next, StatesAre, Links, Ring, Layout;
      forall a | 0 <= a < mem.Length {
        mem[a] := newMem[a];
      }
      cpu := newCpu;
      Commit(s, m, TASK_RUNNING);
    }

    /** One step of any kind, by the code that takes it. */
    method Take(step: Step)
      requires Valid() && Enabled(config, sys, step)
      modifies this`current, this`cpu, this`sys, this`states, mem
      modifies config.tasks`state, config.tasks`sp, config.tasks`ret, nodes`next, nodes`prev
      ensures Valid() && sys == Next(config, old(sys), step)
    {
      StepFacts(config, sys, step);
      hide Inv, Next, Enabled, Scheduled, StatesAre, Layout, Links, Ring;
      match step
      case Compute(newCpu, newMem) => RunTask(newCpu, newMem);
      case Yield => Schedule(TASK_RUNNING);
      case Spawn(t) => var ret := TaskRun(t);
      case Exit => ExitPoint();
    }

    /** A whole run: the code reaches exactly the state that the machine on values reaches,
        with the ring, the states and the stack pointers in place. */
    method Execute(steps: seq<Step>)
      requires Valid() && Feasible(config, sys, steps)
      modifies this`current, this`cpu, this`sys, this`states, mem
      modifies config.tasks`state, config.tasks`sp, config.tasks`ret, nodes`next, nodes`prev
      ensures Valid() && sys == Run(config, old(sys), steps)
      decreases |steps|
    {
      if steps != [] {
        Take(steps[0]);
        Execute(steps[1..]);
      }
    }

    /** The context switch of the code. A task that yields to another one or starts one gets
        the processor back, after any run of other tasks, with its registers, its stack
        pointer, the address after its call and its stack. */
    method SwitchAwayAndBack(out: Step, steps: seq<Step>)
      requires Valid() && Enabled(config, sys, out) && ((out.Yield? && sys.queue != []) || out.Spawn?)
      requires Feasible(config, Next(config, sys, out), steps)
      requires FirstRunsAtEnd(config, Next(config, sys, out), steps, sys.current)
      modifies this`current, this`cpu, this`sys, this`states, mem
      modifies config.tasks`state, config.tasks`sp, config.tasks`ret, nodes`next, nodes`prev
      ensures Valid() && current == old(current)
      ensures old(cpu.esp) < mem.Length
      ensures cpu == Cpu(old(cpu.regs), old(cpu.esp) + 1, old(mem[cpu.esp]))
      ensures current.limit <= mem.Length
      ensures mem[old(cpu.esp)..current.limit] == old(mem[cpu.esp..current.limit])
    {
      ghost var s, s' := sys, Run(config, Next(config, sys, out), steps);
      ghost var sp, limit := s.cpu.esp, s.current.limit;
      ValidFacts();
      ComesBack(config, s, out, steps);
      hide *;
      assert old(mem[..][sp..limit]) == old(mem[sp..limit]);
      Take(out);
      Execute(steps);
      assert sys == s';
      ValidFacts();
      assert mem[..] == s'.mem && cpu == s'.cpu && current == s'.current;
      assert mem[..][sp..limit] == mem[sp..limit];
    }

    lemma ValidFacts()
      requires Valid()
      ensures current == sys.current && cpu == sys.cpu && mem[..] == sys.mem && Inv(config, sys)
      ensures mem.Length == |sys.mem|
    {
    }
  }

  lemma ComesBack(c: Config, s: Sys, out: Step, steps: seq<Step>)
    requires Inv(c, s) && Enabled(c, s, out) && ((out.Yield? && s.queue != []) || out.Spawn?)
    requires Feasible(c, Next(c, s, out), steps) && FirstRunsAtEnd(c, Next(c, s, out), steps, s.current)
    ensures var s', sp, limit := Run(c, Next(c, s, out), steps), s.cpu.esp, s.current.limit;
      && s'.current == s.current
      && sp < limit <= |s.mem| == |s'.mem|
      && s'.cpu == Cpu(s.cpu.regs, sp + 1, s.mem[sp])
      && s'.mem[sp..limit] == s.mem[sp..limit]
  {
    hide FirstRunsAtEnd, Feasible;
    StackBounds(c, s, out);
    var s1 := Next(c, s, out);
    var s' := Run(c, s1, steps);
    assert |s'.mem| == c.memSize;
    hide Inv, Next, Run, Enabled;
    ContextSwitch(c, s, out, steps);
    RunsAtEnd(c, s1, steps, s.current);
    SameWords(s'.mem, s.mem, s.cpu.esp, s.current.limit);
  }

  lemma SameWords(m: seq<Word>, n: seq<Word>, i: nat, j: nat)
    requires i <= j <= |m| && j <= |n| && forall a :: i <= a < j ==> m[a] == n[a]
    ensures m[i..j] == n[i..j]
  {
  }

  lemma StackBounds(c: Config, s: Sys, out: Step)
    requires Inv(c, s) && Enabled(c, s, out) && !out.Compute?
    ensures s.cpu.esp < s.current.limit <= |s.mem| == c.memSize
  {
  }

  /** From boot on, the code of the kernel takes any feasible run of its tasks to the state
      that the machine on values reaches. */
  method BootAndRun(ghost config: Config, containerOf: map<ListHead, Task>, mem: array<Word>, exitPoint: Word,
                    init: Task, cpu: Cpu, steps: seq<Step>)
    returns (kernel: Kernel)
    requires config.Valid() && init == config.init && mem.Length == config.memSize && exitPoint == config.exitPoint
    requires forall t :: t in config.tasks ==> t.next in containerOf && containerOf[t.next] == t
    requires forall t :: t in config.tasks ==> t.state == TASK_RUNNING
    requires Feasible(config, BootSys(config, cpu, mem[..]), steps)
    modifies mem, config.tasks`state, config.tasks`sp, config.tasks`ret
    modifies TaskLinks(config)`next, TaskLinks(config)`prev
    ensures kernel.Valid() && kernel.config == config && fresh(kernel)
    ensures kernel.sys == Run(config, old(BootSys(config, cpu, mem[..])), steps)
  {
    hide Inv, Feasible, Run, Config.Valid;
    kernel := new Kernel(config, containerOf, mem, exitPoint, init, cpu);
    hide *;
    OwnLinks(config, kernel.taskList);
    kernel.Execute(steps);
  }

  ghost function TaskLinks(c: Config): set<ListHead> {
    set t | t in c.tasks :: t.next
  }

  lemma OwnLinks(c: Config, list: ListHead)
    ensures Linked(c, list) == {list} + TaskLinks(c)
  {
  }
}
