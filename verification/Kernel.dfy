/** The scheduler as process.c, pit.c and syscall.c implement it: a process table, a ring of run
    queue slots, saved register areas behind pointers, and one interrupt frame, all updated in
    place.  Every method does to its abstract state what the transition system of Scheduler does. */
module Kernel {
  import opened Machine
  import opened Scheduler
  import opened Ownership
  import opened RunQueue
  import opened Heap

  const CONTEXT_SIZE: nat := 208
  const STACK_SIZE: nat := 4096
  const IRQ_NODE_SIZE: nat := 24

  /** process_t: one slot of the process table; `context` is the address of the saved registers. */
  datatype Entry = Entry(pid: u32, timeRemaining: u32, state: ProcessState, totalTicks: u32, context: u64)

  /** Where the k-th creation finds its register area and its stack. */
  function ContextAt(k: nat): nat {
    0x30_0000 + 24 + 4304 * k
  }

  function StackAt(k: nat): nat {
    ContextAt(k) + 208
  }

  /** A slot of the table and the register area it points to show process k. */
  ghost predicate Shows(e: Entry, saved: map<u64, Context>, k: nat, p: Process) {
    && e.pid == k && e.state == p.state && e.timeRemaining == p.timeRemaining
    && e.totalTicks == Wrap32(p.totalTicks)
    && e.context == ContextAt(k)
    && e.context in saved && saved[e.context] == p.context
  }

  /** The creations setup_process performs after the idle process. */
  function UserTasks(userTask: u64, n: nat): seq<Event>
    requires n < MAX_PROCESSES
  {
    if n == 0 then [] else UserTasks(userTask, n - 1) + [Create(userTask, false, StackAt(n))]
  }

  /** The areas of all 128 possible processes: 8-aligned, inside the heap behind the IRQ node, each
      ending before the next begins. */
  lemma AreasFitAndNeverOverlap(j: nat, k: nat)
    requires j < k < MAX_PROCESSES
    ensures HEAP_START + IRQ_NODE_SIZE <= ContextAt(j) && ContextAt(j) % 8 == 0 == StackAt(j) % 8
    ensures ContextAt(j) + CONTEXT_SIZE <= StackAt(j)
    ensures StackAt(j) + STACK_SIZE <= ContextAt(k)
    ensures StackAt(k) + STACK_SIZE <= HEAP_START + HEAP_SIZE
    ensures HEAP_START == 0x30_0000 && HEAP_START + HEAP_SIZE == 0x40_0000
    ensures IRQ_NODE_SIZE == 24 && CONTEXT_SIZE == 26 * 8 && STACK_SIZE == 4096
  {
  }

  /** The state BeginSleep leads to, written out. */
  lemma BeginSleepOpens(s: Sched, ms: u64)
    requires Shaped(s) && Enabled(s, Event.BeginSleep(ms))
    ensures Step(s, Event.BeginSleep(ms))
         == s.(sleeps := s.sleeps[s.current := SleepCall(Wrap64(s.ticks), SleepTicks(ms), ms, s.ticks, false)])
  {
  }

  /** The state EndSleep leads to, written out. */
  lemma EndSleepCloses(s: Sched, start: u64, need: u64)
    requires Shaped(s) && Enabled(s, EndSleep) && s.sleeps[s.current].start == start && s.sleeps[s.current].need == need
    ensures Step(s, EndSleep) == s.(
      frame := s.frame.(rax := Wrap64(10 * Wrap64(Wrap64(s.ticks) - start)), rdi := need),
      sleeps := s.sleeps - {s.current})
  {
  }

  lemma WrapNext(n: nat)
    ensures Wrap32(Wrap32(n) as int + 1) == Wrap32(n + 1)
  {
  }

  class System {
    const table: array<Entry>
    const freeQueue: array<u16>
    const runQueue: Ring
    const heap: Allocator
    var freeHead: nat
    var currentPid: int
    var pitCounter: u64
    var frame: Context
    // the malloc'ed register areas, by address
    var saved: map<u64, Context>

    // the abstract state
    ghost var model: Sched

    ghost predicate Shape()
      reads this, runQueue
    {
      && table.Length == MAX_PROCESSES && freeQueue.Length == MAX_PROCESSES
      && freeQueue != runQueue.slots
      && runQueue.Valid()
    }

    /** The memory holds exactly the abstract state. */
    ghost predicate Linked()
      reads this, table, freeQueue, runQueue, runQueue.slots, heap
    {
      && Shape()
      && |model.procs| <= MAX_PROCESSES
      && (forall k :: 0 <= k < |model.procs| ==> Shows(table[k], saved, k, model.procs[k]))
      && (forall k :: |model.procs| <= k < MAX_PROCESSES ==> table[k].totalTicks == table[k].timeRemaining == 0)
      && (forall k :: 0 <= k < MAX_PROCESSES ==> freeQueue[k] == k)
      && freeHead == |model.procs| % 128
      && heap.Valid() && heap.heap == ContextAt(|model.procs|)
      && heap.heap + heap.heapSize == HEAP_START + HEAP_SIZE
      && runQueue.Contents() == model.queue
      && currentPid == model.current
      && pitCounter == Wrap64(model.ticks)
      && frame == model.frame
    }

    /** The invariant between interrupts and system calls. */
    ghost predicate Valid()
      reads this, table, freeQueue, runQueue, runQueue.slots, heap
    {
      Linked() && Inv(model)
    }

    /** The kernel's zeroed globals, with the heap as setup_pit leaves it: one IRQ node allocated. */
    constructor (boot: Context)
      ensures Linked() && model == Sched([], [], -1, boot, 0, map[])
      ensures fresh(table) && fresh(freeQueue) && fresh(runQueue) && fresh(runQueue.slots) && fresh(heap)
    {
      table := new Entry[MAX_PROCESSES](_ => Entry(0, 0, Running, 0, 0));
      freeQueue := new u16[MAX_PROCESSES](k => if 0 <= k < MAX_PROCESSES then k else 0);
      runQueue := new Ring();
      var allocator := new Allocator();
      var node := allocator.Malloc(IRQ_NODE_SIZE);
      heap := allocator;
      freeHead, currentPid, pitCounter, frame, saved := 0, -1, 0, boot, map[];
      model := Sched([], [], -1, boot, 0, map[]);
    }

    // --- process.c ---

    /** The 128th entry would make the queue read as empty; QueueFits says it never comes. */
    method AddToRunQueue(pid: nat)
      requires Linked() && pid < |model.procs|
      modifies this`model, runQueue, runQueue.slots
      ensures Linked()
      ensures model == old(model).(
        queue := if |old(model.queue)| < MAX_PROCESSES - 1 then old(model.queue) + [pid] else [])
    {
      runQueue.Add(pid);
      model := model.(queue := if |model.queue| < MAX_PROCESSES - 1 then model.queue + [pid] else []);
    }

    method GetNextPid() returns (pid: nat)
      requires Linked()
      modifies this`model, runQueue
      ensures Linked()
      ensures old(model.queue) == [] ==> pid == 0 && model == old(model)
      ensures old(model.queue) != [] ==>
        pid == old(model.queue)[0] && model == old(model).(queue := old(model.queue)[1..])
    {
      pid := runQueue.Next();
      model := if model.queue == [] then model else model.(queue := model.queue[1..]);
    }

    /** A register area and a stack from the heap, the area holding the initial registers. */
    method InitContext(pid: nat, entry: u64, kernelTask: bool) returns (context: u64)
      requires pid < MAX_PROCESSES && heap.Valid() && heap.heap == ContextAt(pid)
      requires heap.heap + heap.heapSize == HEAP_START + HEAP_SIZE
      modifies this`saved, heap
      ensures heap.Valid() && heap.heap == ContextAt(pid + 1)
      ensures heap.heap + heap.heapSize == HEAP_START + HEAP_SIZE
      ensures context == ContextAt(pid)
      ensures saved == old(saved)[context := InitialContext(pid, entry, kernelTask, StackAt(pid))]
    {
      context := heap.Malloc(CONTEXT_SIZE);
      saved := saved[context := ZERO_CONTEXT.(rip := entry)];
      if kernelTask {
        saved := saved[context := saved[context].(cs := KERNEL_CODE_SEGMENT, ss := KERNEL_DATA_SEGMENT)];
      } else {
        saved := saved[context := saved[context].(cs := USER_CODE_SEGMENT + 3, ss := USER_DATA_SEGMENT + 3)];
      }
      var stack := heap.Malloc(STACK_SIZE);
      saved := saved[context := saved[context].(rflags := 0x202, rsp := Wrap64(stack as int + 4096), rdi := pid)];
    }

    /** The next slot of the table, with a register area and a stack of its own. */
    method FillEntry(entry: u64, kernelTask: bool) returns (pid: u32)
      requires Linked() && |model.procs| < MAX_PROCESSES
      modifies this, table, heap
      ensures Linked() && pid == |old(model.procs)|
      ensures model == old(model).(procs :=
        old(model.procs) + [Process(Ready, 0, 0, InitialContext(pid, entry, kernelTask, StackAt(pid)))])
    {
      pid := freeQueue[freeHead];
      freeHead := (freeHead + 1) % 128;
      var context := InitContext(pid, entry, kernelTask);
      table[pid] := table[pid].(pid := pid, state := Ready, context := context);
      model := model.(procs := model.procs + [Process(Ready, 0, 0, saved[context])]);
    }

    /** The new process is set up and goes to the back of the queue. */
    method ProcessCreate(entry: u64, kernelTask: bool) returns (pid: u32)
      requires Linked() && |model.procs| < MAX_PROCESSES && |model.queue| < MAX_PROCESSES - 1
      modifies this, table, runQueue, runQueue.slots, heap
      ensures Linked() && pid == |old(model.procs)|
      ensures old(Inv(model)) ==> Valid()
      ensures model == CreateProcess(old(model), entry, kernelTask, StackAt(pid))
    {
      pid := FillEntry(entry, kernelTask);
      AddToRunQueue(pid);
      if old(Inv(model)) {
        CreateKeepsInv(old(model), entry, kernelTask, StackAt(pid));
      }
    }

    /** Saves the frame to the current process, if there is one, and loads the frame of pid. */
    method StartProcess(pid: nat)
      requires Linked() && Shaped(model) && pid < |model.procs|
      modifies this, table
      ensures Linked() && model == Scheduler.StartProcess(old(model), pid)
    {
      if currentPid != -1 {
        saved := saved[table[currentPid].context := frame];
      }
      frame := saved[table[pid].context];
      table[pid] := table[pid].(state := Running, timeRemaining := 100);
      currentPid := pid;
      model := Scheduler.StartProcess(model, pid);
    }

    method StartNextProcess()
      requires Linked() && Shaped(model)
      modifies this, table, runQueue
      ensures Linked() && model == StartNext(old(model))
    {
      var next := GetNextPid();
      StartProcess(next);
    }

    method ChargeCurrent()
      requires Linked() && Shaped(model)
      modifies this`model, table
      ensures Linked() && model == Charge(old(model))
    {
      if currentPid != -1 {
        WrapNext(model.procs[currentPid].totalTicks);
        table[currentPid] := table[currentPid].(totalTicks := Wrap32(table[currentPid].totalTicks as int + 1));
      }
      model := Charge(model);
    }

    /** state = READY and add_to_run_queue(current_pid). */
    method RequeueCurrent()
      requires Linked() && Shaped(model) && 0 <= model.current && |model.queue| < MAX_PROCESSES - 1
      modifies this`model, table, runQueue, runQueue.slots
      ensures Linked() && model == Requeue(old(model))
    {
      table[currentPid] := table[currentPid].(state := Ready);
      model := model.(procs := model.procs[model.current := model.procs[model.current].(state := Ready)]);
      assert Linked();
      AddToRunQueue(currentPid);
    }

    /** time_remaining--. */
    method DecrementSlice()
      requires Linked() && Shaped(model) && 0 <= model.current
      modifies this`model, table
      ensures Linked() && model == Decrement(old(model))
    {
      table[currentPid] := table[currentPid].(timeRemaining := Wrap32(table[currentPid].timeRemaining as int - 1));
      model := Decrement(model);
    }

    method CountdownCurrent()
      requires Linked() && Shaped(model) && 0 <= model.current && |model.queue| < MAX_PROCESSES - 1
      modifies this, table, runQueue, runQueue.slots
      ensures Linked() && model == Countdown(old(model))
    {
      DecrementSlice();
      if table[currentPid].timeRemaining == 0 {
        RequeueCurrent();
        StartNextProcess();
      }
    }

    /** One scheduling decision, at every timer interrupt. */
    method ScheduleProcess()
      requires Linked() && Shaped(model) && Owned(model)
      modifies this, table, runQueue, runQueue.slots
      ensures Linked() && model == Schedule(old(model))
    {
      QueueFits(model);
      ChargeCurrent();
      if currentPid == -1 {
        StartProcess(0);
      } else if currentPid == 0 {
        if runQueue.head != runQueue.tail {
          StartNextProcess();
        }
      } else if table[currentPid].state == Running {
        CountdownCurrent();
      } else {
        StartNextProcess();
      }
    }

    /** The idle process, taken off the queue again, and four user tasks. */
    method SetupProcess(init: u64, userTask: u64)
      requires Linked() && model == Sched([], [], -1, model.frame, 0, map[])
      modifies this, table, runQueue, runQueue.slots, heap, freeQueue
      ensures Valid()
      ensures CanRun(Boot(old(model.frame), init, StackAt(0)), UserTasks(userTask, 4))
      ensures model == Run(Boot(old(model.frame), init, StackAt(0)), UserTasks(userTask, 4))
    {
      BootInv(model.frame, init, StackAt(0));
      FillFreeQueue();
      var pid := ProcessCreate(init, true);
      pid := GetNextPid();
      CreateUserTasks(userTask, Boot(old(model.frame), init, StackAt(0)));
    }

    /** free_queue[i] = i. */
    method FillFreeQueue()
      requires Linked()
      modifies freeQueue
      ensures Linked() && model == old(model)
    {
      for i := 0 to MAX_PROCESSES
        invariant Linked() && model == old(model)
      {
        freeQueue[i] := i;
      }
    }

    /** The four user tasks, each behind the ones before. */
    method CreateUserTasks(userTask: u64, ghost start: Sched)
      requires Linked() && model == start && Inv(start) && |start.procs| == 1 && start.queue == []
      modifies this, table, runQueue, runQueue.slots, heap
      ensures Valid() && CanRun(start, UserTasks(userTask, 4)) && model == Run(start, UserTasks(userTask, 4))
    {
      for i := 0 to 4
        invariant Valid() && |model.procs| == i + 1 && |model.queue| == i
        invariant CanRun(start, UserTasks(userTask, i)) && model == Run(start, UserTasks(userTask, i))
      {
        CreateUserTask(userTask, start, i);
      }
    }

    method CreateUserTask(userTask: u64, ghost start: Sched, ghost i: nat)
      requires Valid() && i < 4 && |model.procs| == i + 1 && |model.queue| == i
      requires CanRun(start, UserTasks(userTask, i)) && model == Run(start, UserTasks(userTask, i))
      modifies this, table, runQueue, runQueue.slots, heap
      ensures Valid() && |model.procs| == i + 2 && |model.queue| == i + 1
      ensures CanRun(start, UserTasks(userTask, i + 1)) && model == Run(start, UserTasks(userTask, i + 1))
    {
      RunSnoc(start, UserTasks(userTask, i), Create(userTask, false, StackAt(i + 1)));
      var pid := ProcessCreate(userTask, false);
    }

    /** The interrupted code computes: the next interrupt finds other registers in the frame. */
    method Compute(regs: Context)
      requires Valid()
      modifies this`frame, this`model
      ensures Valid() && model == Step(old(model), Event.Compute(regs))
    {
      StepKeepsInv(model, Event.Compute(regs));
      frame := regs;
      model := Step(model, Event.Compute(regs));
    }

    // --- pit.c ---

    /** The timer interrupt. */
    method PitHandler()
      requires Valid()
      modifies this, table, runQueue, runQueue.slots
      ensures Valid() && model == Step(old(model), Tick)
    {
      AdvanceClock();
      ScheduleProcess();
      TickKeepsInv(old(model));
    }

    /** ++pit_counter. */
    method AdvanceClock()
      requires Linked() && Shaped(model) && Owned(model)
      modifies this`pitCounter, this`model
      ensures Linked() && Shaped(model) && Owned(model)
      ensures model == old(model).(ticks := old(model).ticks + 1)
    {
      ClockKeepsOwned(model, model.ticks + 1);
      pitCounter := Wrap64(pitCounter as int + 1);
      model := model.(ticks := model.ticks + 1);
    }

    // --- syscall.c: SYSCALL_SLEEP in the pieces between which the kernel can be interrupted, and yield ---

    /** On entry: the clock is read and the milliseconds become ticks. */
    method BeginSleep(ms: u64) returns (start: u64, need: u64)
      requires Valid() && Enabled(model, Event.BeginSleep(ms))
      modifies this`model
      ensures Valid() && model == Step(old(model), Event.BeginSleep(ms))
      ensures model.sleeps[currentPid].start == start && model.sleeps[currentPid].need == need
    {
      StepKeepsInv(model, Event.BeginSleep(ms));
      start := pitCounter;
      need := SleepTicks(ms);
      BeginSleepOpens(model, ms);
      model := model.(sleeps := model.sleeps[model.current := SleepCall(start, need, ms, model.ticks, false)]);
    }

    /** The loop test.  If it fails the call is about to return. */
    method TestSleep(start: u64, need: u64) returns (again: bool)
      requires Valid() && CurrentRuns(model) && currentPid in model.sleeps && !model.sleeps[currentPid].again
      requires model.sleeps[currentPid].start == start && model.sleeps[currentPid].need == need
      modifies this`model
      ensures Valid()
      ensures again <==> Enabled(old(model), Event.TestSleep)
      ensures again ==> model == Step(old(model), Event.TestSleep)
      ensures !again ==> model == old(model) && Enabled(model, EndSleep)
    {
      again := TimeRemains(start, need);
      if again {
        StepKeepsInv(model, Event.TestSleep);
        model := Noted(model, true);
      }
    }

    method TimeRemains(start: u64, need: u64) returns (again: bool)
      requires Valid() && CurrentRuns(model) && currentPid in model.sleeps && !model.sleeps[currentPid].again
      requires model.sleeps[currentPid].start == start && model.sleeps[currentPid].need == need
      ensures again <==> Enabled(model, Event.TestSleep)
      ensures again <==> !Enabled(model, EndSleep)
    {
      again := Wrap64(pitCounter as int - start) < need;
    }

    /** The loop body up to the halt, with interrupts disabled. */
    method PollSleep()
      requires Valid() && Enabled(model, Event.PollSleep)
      modifies this`model, table, runQueue, runQueue.slots
      ensures Valid() && model == Step(old(model), Event.PollSleep)
    {
      QuietStepKeepsInv(model, Noted(model, false));
      model := Noted(model, false);
      RequeueRunning();
    }

    /** The caller, which runs, goes to the back of the queue. */
    method RequeueRunning()
      requires Valid() && CurrentRuns(model)
      modifies this`model, table, runQueue, runQueue.slots
      ensures Valid() && model == Requeue(old(model))
    {
      RequeueKeepsInv(model);
      QueueFits(model);
      RequeueCurrent();
    }

    /** Behind the loop: the time slept goes to the caller. */
    method FinishSleep(start: u64, need: u64) returns (rax: u64)
      requires Valid() && Enabled(model, EndSleep)
      requires model.sleeps[currentPid].start == start && model.sleeps[currentPid].need == need
      modifies this`model, this`frame
      ensures Valid() && model == Step(old(model), EndSleep) && rax == frame.rax
    {
      StepKeepsInv(model, EndSleep);
      EndSleepCloses(model, start, need);
      rax := Wrap64(10 * Wrap64(pitCounter as int - start));
      frame := frame.(rax := rax, rdi := need);
      model := model.(frame := frame, sleeps := model.sleeps - {model.current});
    }

    /** System call 4, taken as one step by a RUNNING process. */
    method Yield()
      requires Valid() && Enabled(model, Event.Yield)
      modifies this`model, table, runQueue, runQueue.slots
      ensures Valid() && model == Step(old(model), Event.Yield)
    {
      RequeueRunning();
    }
  }
}
