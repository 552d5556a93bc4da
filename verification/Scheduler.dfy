/** The preemptive scheduler as a transition system: timer ticks, register changes by the running
    code, the sleep and yield system calls, and process creation, acting on a process table, a FIFO
    run queue and one interrupt frame.  Class System (Kernel.dfy) refines it with the ring buffer,
    the table and the saved register areas that process.c really uses. */
module Scheduler {
  import opened Arithmetic
  import opened Machine

  const MAX_PROCESSES: nat := 128
  const TIME_SLICE: nat := 100

  /** process_context_t: the registers pushed by the interrupt stub. */
  datatype Context = Context(
    ds: u64, es: u64, fs: u64, gs: u64,
    r15: u64, r14: u64, r13: u64, r12: u64, r11: u64, r10: u64, r9: u64, r8: u64,
    rbp: u64, rdi: u64, rsi: u64, rdx: u64, rcx: u64, rbx: u64, rax: u64,
    unused1: u64, unused2: u64,
    rip: u64, cs: u64, rflags: u64, rsp: u64, ss: u64)

  const ZERO_CONTEXT: Context :=
    Context(0, 0, 0, 0, 0, 0, 0, 0, 0, 0, 0, 0, 0, 0, 0, 0, 0, 0, 0, 0, 0, 0, 0, 0, 0, 0)

  const KERNEL_CODE_SEGMENT: u64 := 0x08
  const KERNEL_DATA_SEGMENT: u64 := 0x10
  const USER_DATA_SEGMENT: u64 := 0x20
  const USER_CODE_SEGMENT: u64 := 0x28

  datatype ProcessState = Running | Sleeping | Waiting | Ready

  /** `totalTicks` counts without bound; the 32-bit counter of the table is its low word. */
  datatype Process = Process(state: ProcessState, timeRemaining: u32, totalTicks: nat, context: Context)

  /** The locals of one SYSCALL_SLEEP: the clock when it began and the ticks it must wait for.
      `again` says that the loop test has come out true and the loop body is still to come; `ms` and
      `called` (the true tick count at the call) are kept to state what is promised. */
  datatype SleepCall = SleepCall(start: u64, need: u64, ms: u64, called: nat, again: bool)

  /** `procs` holds the created processes, pid by pid; `current` is -1 until the first tick. */
  datatype Sched = Sched(
    procs: seq<Process>, queue: seq<nat>, current: int, frame: Context, ticks: nat,
    sleeps: map<int, SleepCall>)

  datatype Event =
    | Tick                                        // one timer interrupt
    | Compute(regs: Context)                      // the running code changes its own registers
    | BeginSleep(ms: u64)                         // SYSCALL_SLEEP is entered
    | TestSleep                                   // its loop test comes out true
    | PollSleep                                   // its loop body runs once: requeue, READY, hlt
    | EndSleep                                    // its loop exits and the call returns
    | Yield                                       // system call 4
    | Create(entry: u64, kernelTask: bool, stack: u64)

  /** The shape every step needs: all pids in play name created processes. */
  predicate Shaped(s: Sched) {
    && 1 <= |s.procs| <= MAX_PROCESSES
    && -1 <= s.current < |s.procs|
    && forall i :: 0 <= i < |s.queue| ==> s.queue[i] < |s.procs|
  }

  // --- process.c ---

  function InitialContext(pid: nat, entry: u64, kernelTask: bool, stack: u64): Context
    requires pid < MAX_PROCESSES
  {
    ZERO_CONTEXT.(
      rip := entry,
      cs := if kernelTask then KERNEL_CODE_SEGMENT else USER_CODE_SEGMENT + 3,
      ss := if kernelTask then KERNEL_DATA_SEGMENT else USER_DATA_SEGMENT + 3,
      rflags := 0x202,
      rsp := Wrap64(stack + 4096),
      rdi := pid)
  }

  function CreateProcess(s: Sched, entry: u64, kernelTask: bool, stack: u64): Sched
    requires |s.procs| < MAX_PROCESSES
  {
    var pid := |s.procs|;
    s.(procs := s.procs + [Process(Ready, 0, 0, InitialContext(pid, entry, kernelTask, stack))],
       queue := s.queue + [pid])
  }

  /** Switching processes creates none and leaves the clock and the sleep calls alone. */
  ghost predicate SameClock(s: Sched, r: Sched) {
    |r.procs| == |s.procs| && r.ticks == s.ticks && r.sleeps == s.sleeps
  }

  /** Switch the interrupt frame to `pid`: save the interrupted registers, load the saved ones. */
  function StartProcess(s: Sched, pid: nat): (r: Sched)
    requires Shaped(s) && pid < |s.procs|
    ensures Shaped(r) && SameClock(s, r) && r.current == pid
  {
    var procs := if s.current == -1 then s.procs
                 else s.procs[s.current := s.procs[s.current].(context := s.frame)];
    s.(procs := procs[pid := procs[pid].(state := Running, timeRemaining := TIME_SLICE)],
       frame := procs[pid].context,
       current := pid)
  }

  /** Take the head of the queue, or the idle process when the queue is empty, and start it. */
  function StartNext(s: Sched): (r: Sched)
    requires Shaped(s)
    ensures Shaped(r) && SameClock(s, r) && r.current >= 0
  {
    if s.queue == [] then StartProcess(s, 0)
    else StartProcess(s.(queue := s.queue[1..]), s.queue[0])
  }

  /** Mark the current process READY and append it to the queue. */
  function Requeue(s: Sched): (r: Sched)
    requires Shaped(s) && 0 <= s.current
    ensures Shaped(r) && SameClock(s, r) && r.current == s.current
  {
    s.(procs := s.procs[s.current := s.procs[s.current].(state := Ready)],
       queue := s.queue + [s.current])
  }

  function Charge(s: Sched): Sched
    requires Shaped(s)
  {
    if s.current == -1 then s
    else
      var p := s.procs[s.current];
      s.(procs := s.procs[s.current := p.(totalTicks := p.totalTicks + 1)])
  }

  function Decrement(s: Sched): (r: Sched)
    requires Shaped(s) && 0 <= s.current
    ensures Shaped(r) && SameClock(s, r) && r.current == s.current
  {
    var p := s.procs[s.current];
    s.(procs := s.procs[s.current := p.(timeRemaining := Wrap32(p.timeRemaining - 1))])
  }

  /** One tick off the slice of the running process; at zero it goes to the back of the queue. */
  function Countdown(s: Sched): (r: Sched)
    requires Shaped(s) && 0 <= s.current
    ensures Shaped(r) && SameClock(s, r) && r.current >= 0
  {
    var d := Decrement(s);
    if d.procs[d.current].timeRemaining == 0 then StartNext(Requeue(d)) else d
  }

  function Dispatch(s: Sched): (r: Sched)
    requires Shaped(s)
    ensures Shaped(r) && SameClock(s, r) && r.current >= 0
  {
    if s.current == -1 then StartProcess(s, 0)
    else if s.current == 0 then if s.queue != [] then StartNext(s) else s
    else if s.procs[s.current].state == Running then Countdown(s)
    else StartNext(s)
  }

  function Schedule(s: Sched): (r: Sched)
    requires Shaped(s)
    ensures Shaped(r) && |r.procs| == |s.procs| && r.current >= 0
    ensures r.ticks == s.ticks && r.sleeps == s.sleeps
  {
    Dispatch(Charge(s))
  }

  // --- syscall.c, SYSCALL_SLEEP ---

  /** The milliseconds rounded up to ticks, in 64-bit arithmetic. */
  function SleepTicks(ms: u64): u64 {
    Wrap64(ms + 9) / 10
  }

  function Pit(s: Sched): u64 {
    Wrap64(s.ticks)
  }

  /** pit_counter - start, in 64-bit arithmetic. */
  function Elapsed(s: Sched, call: SleepCall): u64 {
    Wrap64(Pit(s) - call.start)
  }

  function Reported(s: Sched, call: SleepCall): u64 {
    Wrap64(10 * Elapsed(s, call))
  }

  predicate CurrentRuns(s: Sched) {
    0 < s.current < |s.procs| && s.procs[s.current].state == Running
  }

  /** What can happen next.  The sleep loop halts after requeueing, and only the timer is unmasked
      (idt.c), so a sleeper acts again only when a tick has made it RUNNING.  A process that yields
      goes on READY until the next tick; it may compute, but its further system calls are left out:
      Ownership.DoubleYieldBreaks shows what a second yield does. */
  predicate Enabled(s: Sched, e: Event) {
    match e
    case Tick => true
    case Compute(_) => true
    case BeginSleep(_) => CurrentRuns(s) && s.current !in s.sleeps
    case TestSleep => CurrentRuns(s) && s.current in s.sleeps && !s.sleeps[s.current].again
                      && Elapsed(s, s.sleeps[s.current]) < s.sleeps[s.current].need
    case PollSleep => CurrentRuns(s) && s.current in s.sleeps && s.sleeps[s.current].again
    case EndSleep => CurrentRuns(s) && s.current in s.sleeps && !s.sleeps[s.current].again
                     && !(Elapsed(s, s.sleeps[s.current]) < s.sleeps[s.current].need)
    case Yield => CurrentRuns(s) && s.current !in s.sleeps
    case Create(_, _, _) => |s.procs| < MAX_PROCESSES
  }

  /** The caller of sleep gets into its loop body, or out of it. */
  function Noted(s: Sched, again: bool): (r: Sched)
    requires Shaped(s) && s.current in s.sleeps
    ensures Shaped(r)
  {
    s.(sleeps := s.sleeps[s.current := s.sleeps[s.current].(again := again)])
  }

  function Step(s: Sched, e: Event): Sched
    requires Shaped(s) && Enabled(s, e)
  {
    match e
    case Tick => Schedule(s.(ticks := s.ticks + 1))
    case Compute(regs) => s.(frame := regs)
    case BeginSleep(ms) => s.(sleeps := s.sleeps[s.current := SleepCall(Pit(s), SleepTicks(ms), ms, s.ticks, false)])
    case TestSleep => Noted(s, true)
    case PollSleep => Requeue(Noted(s, false))
    case EndSleep =>
      var call := s.sleeps[s.current];
      s.(frame := s.frame.(rax := Reported(s, call), rdi := call.need), sleeps := s.sleeps - {s.current})
    case Yield => Requeue(s)
    case Create(entry, kernelTask, stack) => CreateProcess(s, entry, kernelTask, stack)
  }

  // --- The invariant of every reachable state ---

  function TotalTicks(procs: seq<Process>): nat {
    if procs == [] then 0 else TotalTicks(procs[..|procs|-1]) + procs[|procs|-1].totalTicks
  }

  /** A process is queued exactly when it is READY; otherwise it is the one that runs. */
  ghost predicate Placed(s: Sched, p: nat)
    requires p < |s.procs|
  {
    && (p in s.queue <==> s.procs[p].state == Ready)
    && (s.procs[p].state != Ready ==>
          p == s.current && s.procs[p].state == Running && 1 <= s.procs[p].timeRemaining <= TIME_SLICE)
  }

  /** Who owns the CPU and who is queued. */
  ghost predicate Owned(s: Sched)
    requires Shaped(s)
  {
    && AllDistinct(s.queue)
    && 0 !in s.queue
    && forall p :: 1 <= p < |s.procs| ==> Placed(s, p)
  }

  ghost predicate ClockKept(s: Sched) {
    && (s.current == -1 <==> s.ticks == 0)
    && TotalTicks(s.procs) == (if s.ticks == 0 then 0 else s.ticks - 1)
  }

  ghost predicate SleepsKept(s: Sched) {
    forall p :: p in s.sleeps ==>
      && 1 <= p < |s.procs|
      && s.sleeps[p].called <= s.ticks
      && s.sleeps[p].start == Wrap64(s.sleeps[p].called)
      && s.sleeps[p].need == SleepTicks(s.sleeps[p].ms)
  }

  ghost predicate Inv(s: Sched) {
    Shaped(s) && Owned(s) && ClockKept(s) && SleepsKept(s)
  }

  // --- Helper lemmas ---

  lemma {:induction false} TotalTicksUpdate(procs: seq<Process>, i: nat, p: Process)
    requires i < |procs|
    ensures TotalTicks(procs[i := p]) == TotalTicks(procs) - procs[i].totalTicks + p.totalTicks
  {
    var last := |procs| - 1;
    if i == last {
      assert procs[i := p][..last] == procs[..last];
    } else {
      TotalTicksUpdate(procs[..last], i, p);
      assert procs[i := p][..last] == procs[..last][i := p];
    }
  }

  lemma ChargeCounts(s: Sched)
    requires Shaped(s) && 0 <= s.current
    ensures TotalTicks(Charge(s).procs) == TotalTicks(s.procs) + 1
  {
    var p := s.procs[s.current];
    TotalTicksUpdate(s.procs, s.current, p.(totalTicks := p.totalTicks + 1));
  }

  /** The steps after charging leave the counters alone. */
  lemma SameCounters(a: seq<Process>, b: seq<Process>)
    requires |a| == |b|
    requires forall i :: 0 <= i < |a| ==> a[i].totalTicks == b[i].totalTicks
    ensures TotalTicks(a) == TotalTicks(b)
  {
    if a != [] {
      SameCounters(a[..|a|-1], b[..|b|-1]);
    }
  }

  lemma TailMembers(q: seq<nat>)
    requires q != [] && AllDistinct(q)
    ensures AllDistinct(q[1..]) && q[0] !in q[1..]
    ensures forall p :: p in q && p != q[0] ==> p in q[1..]
    ensures forall p :: p in q[1..] ==> p in q
  {
    assert q == [q[0]] + q[1..];
  }

  /** The head of the queue gives up its place and takes the CPU. */
  lemma StartNextOwned(s: Sched)
    requires Shaped(s) && AllDistinct(s.queue) && 0 !in s.queue && s.queue != []
    requires forall p :: 1 <= p < |s.procs| ==> p in s.queue && s.procs[p].state == Ready
    ensures Owned(StartNext(s))
    ensures StartNext(s).current == s.queue[0] && StartNext(s).queue == s.queue[1..]
  {
    TailMembers(s.queue);
  }

  lemma RequeueOwned(s: Sched)
    requires Shaped(s) && 0 < s.current && s.current !in s.queue
    requires AllDistinct(s.queue) && 0 !in s.queue
    requires forall p :: 1 <= p < |s.procs| && p != s.current ==> p in s.queue && s.procs[p].state == Ready
    ensures AllDistinct(Requeue(s).queue) && 0 !in Requeue(s).queue
    ensures forall p :: 1 <= p < |s.procs| ==> p in Requeue(s).queue && Requeue(s).procs[p].state == Ready
  {
  }

  /** While a process runs, all the others wait in the queue. */
  lemma RunningAlone(s: Sched)
    requires Shaped(s) && Owned(s)
    ensures CurrentRuns(s) ==> s.current !in s.queue && 1 <= s.procs[s.current].timeRemaining <= TIME_SLICE
    ensures forall p :: 1 <= p < |s.procs| && p != s.current ==> p in s.queue && s.procs[p].state == Ready
    ensures s.current > 0 && !CurrentRuns(s) ==> s.current in s.queue && s.procs[s.current].state == Ready
  {
    if s.current > 0 {
      assert Placed(s, s.current);
    }
    forall p | 1 <= p < |s.procs| && p != s.current
      ensures p in s.queue && s.procs[p].state == Ready
    {
      assert Placed(s, p);
    }
  }

  lemma SliceEndOwned(s: Sched)
    requires Shaped(s) && 0 < s.current && s.current !in s.queue
    requires AllDistinct(s.queue) && 0 !in s.queue
    requires forall p :: 1 <= p < |s.procs| && p != s.current ==> p in s.queue && s.procs[p].state == Ready
    ensures Owned(StartNext(Requeue(s))) && StartNext(Requeue(s)).current > 0
  {
    RequeueOwned(s);
    StartNextOwned(Requeue(s));
  }

  lemma DecrementOwned(s: Sched)
    requires Shaped(s) && Owned(s) && CurrentRuns(s) && s.procs[s.current].timeRemaining > 1
    ensures Owned(Decrement(s))
  {
    forall p | 1 <= p < |s.procs| ensures Placed(Decrement(s), p) {
      assert Placed(s, p);
    }
  }

  lemma CountdownOwned(s: Sched)
    requires Shaped(s) && Owned(s) && CurrentRuns(s)
    ensures Owned(Countdown(s)) && Countdown(s).current > 0
  {
    RunningAlone(s);
    if s.procs[s.current].timeRemaining == 1 {
      SliceEndOwned(Decrement(s));
    } else {
      DecrementOwned(s);
    }
  }

  lemma DispatchOwned(s: Sched)
    requires Shaped(s) && Owned(s)
    ensures Owned(Dispatch(s))
    ensures s.current > 0 ==> Dispatch(s).current > 0
  {
    RunningAlone(s);
    if CurrentRuns(s) {
      CountdownOwned(s);
    } else if s.current > 0 || (s.current == 0 && s.queue != []) {
      StartNextOwned(s);
    }
  }

  lemma ChargeOwned(s: Sched)
    requires Shaped(s) && Owned(s)
    ensures Owned(Charge(s))
  {
    forall p | 1 <= p < |s.procs| ensures Placed(Charge(s), p) {
      assert Placed(s, p);
    }
  }

  lemma ScheduleOwned(s: Sched)
    requires Shaped(s) && Owned(s)
    ensures Owned(Schedule(s))
    ensures s.current > 0 ==> Schedule(s).current > 0
  {
    ChargeOwned(s);
    DispatchOwned(Charge(s));
  }

  // Switching processes leaves every tick counter alone.

  lemma StartProcessCounters(s: Sched, pid: nat)
    requires Shaped(s) && pid < |s.procs|
    ensures TotalTicks(StartProcess(s, pid).procs) == TotalTicks(s.procs)
  {
    SameCounters(StartProcess(s, pid).procs, s.procs);
  }

  lemma StartNextCounters(s: Sched)
    requires Shaped(s)
    ensures TotalTicks(StartNext(s).procs) == TotalTicks(s.procs)
  {
    if s.queue == [] {
      StartProcessCounters(s, 0);
    } else {
      StartProcessCounters(s.(queue := s.queue[1..]), s.queue[0]);
    }
  }

  lemma RequeueCounters(s: Sched)
    requires Shaped(s) && 0 <= s.current
    ensures TotalTicks(Requeue(s).procs) == TotalTicks(s.procs)
  {
    SameCounters(Requeue(s).procs, s.procs);
  }

  lemma CountdownCounters(s: Sched)
    requires Shaped(s) && 0 <= s.current
    ensures TotalTicks(Countdown(s).procs) == TotalTicks(s.procs)
  {
    var d := Decrement(s);
    SameCounters(d.procs, s.procs);
    RequeueCounters(d);
    StartNextCounters(Requeue(d));
  }

  lemma DispatchCounters(s: Sched)
    requires Shaped(s)
    ensures TotalTicks(Dispatch(s).procs) == TotalTicks(s.procs)
  {
    StartProcessCounters(s, 0);
    StartNextCounters(s);
    if s.current >= 0 {
      CountdownCounters(s);
    }
  }

  lemma ScheduleCountsTick(s: Sched)
    requires Shaped(s)
    ensures TotalTicks(Schedule(s).procs) == TotalTicks(s.procs) + if s.current >= 0 then 1 else 0
  {
    DispatchCounters(Charge(s));
    if s.current >= 0 {
      ChargeCounts(s);
    }
  }

  lemma ClockKeepsOwned(s: Sched, ticks: nat)
    requires Shaped(s) && Owned(s)
    ensures Owned(s.(ticks := ticks))
  {
    forall p | 1 <= p < |s.procs| ensures Placed(s.(ticks := ticks), p) {
      assert Placed(s, p);
    }
  }

  lemma TickSchedules(s: Sched)
    requires Shaped(s)
    ensures Step(s, Tick) == Schedule(s.(ticks := s.ticks + 1))
  {
  }

  lemma TickKeepsInv(s: Sched)
    requires Inv(s)
    ensures Inv(Step(s, Tick))
    ensures |Step(s, Tick).procs| == |s.procs|
    ensures s.current > 0 ==> Step(s, Tick).current > 0
  {
    var t := s.(ticks := s.ticks + 1);
    ClockKeepsOwned(s, s.ticks + 1);
    ScheduleOwned(t);
    ScheduleCountsTick(t);
    TickSchedules(s);
  }

  lemma RequeueKeepsInv(s: Sched)
    requires Inv(s) && CurrentRuns(s)
    ensures Inv(Requeue(s))
  {
    RunningAlone(s);
    RequeueOwned(s);
    RequeueCounters(s);
  }

  lemma CreateKeepsInv(s: Sched, entry: u64, kernelTask: bool, stack: u64)
    requires Inv(s) && |s.procs| < MAX_PROCESSES
    ensures Inv(CreateProcess(s, entry, kernelTask, stack))
  {
    var t := CreateProcess(s, entry, kernelTask, stack);
    assert t.procs[..|s.procs|] == s.procs;
    forall p | 1 <= p < |t.procs| ensures Placed(t, p) {
      if p < |s.procs| {
        assert Placed(s, p);
      }
    }
  }

  /** The steps that move no process and change no queue. */
  lemma QuietStepKeepsInv(s: Sched, t: Sched)
    requires Inv(s)
    requires t.procs == s.procs && t.queue == s.queue && t.current == s.current && t.ticks == s.ticks
    requires SleepsKept(t)
    ensures Inv(t)
  {
    forall p | 1 <= p < |t.procs| ensures Placed(t, p) {
      assert Placed(s, p);
    }
  }

  /** Every step of the kernel keeps the invariant. */
  lemma StepKeepsInv(s: Sched, e: Event)
    requires Inv(s) && Enabled(s, e)
    ensures Inv(Step(s, e))
    ensures |s.procs| <= |Step(s, e).procs|
  {
    match e
    case Tick => TickKeepsInv(s);
    case Compute(_) => QuietStepKeepsInv(s, Step(s, e));
    case BeginSleep(_) => QuietStepKeepsInv(s, Step(s, e));
    case EndSleep => QuietStepKeepsInv(s, Step(s, e));
    case TestSleep => QuietStepKeepsInv(s, Noted(s, true));
    case PollSleep =>
      QuietStepKeepsInv(s, Noted(s, false));
      RequeueKeepsInv(Noted(s, false));
    case Yield => RequeueKeepsInv(s);
    case Create(entry, kernelTask, stack) => CreateKeepsInv(s, entry, kernelTask, stack);
  }

  // --- Whole runs ---

  ghost predicate CanRun(s: Sched, es: seq<Event>)
    decreases |es|
  {
    es == [] || (Shaped(s) && Enabled(s, es[0]) && CanRun(Step(s, es[0]), es[1..]))
  }

  ghost function Run(s: Sched, es: seq<Event>): Sched
    requires CanRun(s, es)
    decreases |es|
  {
    if es == [] then s else Run(Step(s, es[0]), es[1..])
  }

  lemma {:induction false} RunKeepsInv(s: Sched, es: seq<Event>)
    requires Inv(s) && CanRun(s, es)
    ensures Inv(Run(s, es))
    ensures |s.procs| <= |Run(s, es).procs|
    decreases |es|
  {
    if es != [] {
      StepKeepsInv(s, es[0]);
      RunKeepsInv(Step(s, es[0]), es[1..]);
    }
  }

  /** A run splits at any point. */
  lemma {:induction false} RunSplit(s: Sched, es: seq<Event>, k: nat)
    requires k <= |es| && CanRun(s, es)
    ensures CanRun(s, es[..k]) && CanRun(Run(s, es[..k]), es[k..])
    ensures Run(Run(s, es[..k]), es[k..]) == Run(s, es)
    decreases k
  {
    if k == 0 {
      assert es[0..] == es;
    } else {
      RunSplit(Step(s, es[0]), es[1..], k - 1);
      assert es[..k][1..] == es[1..][..k - 1];
      assert es[1..][k - 1..] == es[k..];
    }
  }

  /** One more event at the end of a run. */
  lemma {:induction false} RunSnoc(s: Sched, es: seq<Event>, e: Event)
    requires CanRun(s, es) && Shaped(Run(s, es)) && Enabled(Run(s, es), e)
    ensures CanRun(s, es + [e]) && Run(s, es + [e]) == Step(Run(s, es), e)
    decreases |es|
  {
    if es == [] {
      assert CanRun(Step(s, e), []);
      assert (es + [e])[1..] == [];
    } else {
      RunSnoc(Step(s, es[0]), es[1..], e);
      assert (es + [e])[1..] == es[1..] + [e];
    }
  }

  function Ticks(es: seq<Event>): nat {
    if es == [] then 0 else (if es[0].Tick? then 1 else 0) + Ticks(es[1..])
  }

  lemma {:induction false} RunCountsTicks(s: Sched, es: seq<Event>)
    requires Inv(s) && CanRun(s, es)
    ensures Run(s, es).ticks == s.ticks + Ticks(es)
    decreases |es|
  {
    if es != [] {
      StepKeepsInv(s, es[0]);
      RunCountsTicks(Step(s, es[0]), es[1..]);
    }
  }

  // --- Boot ---

  /** setup_process: the idle process is created and taken off the queue. */
  function Boot(boot: Context, entry: u64, stack: u64): Sched {
    Sched([Process(Ready, 0, 0, InitialContext(0, entry, true, stack))], [], -1, boot, 0, map[])
  }

  lemma BootInv(boot: Context, entry: u64, stack: u64)
    ensures Inv(Boot(boot, entry, stack))
  {
    var s := Boot(boot, entry, stack);
    assert s.procs[..0] == [];
    assert TotalTicks(s.procs) == TotalTicks(s.procs[..0]) + s.procs[0].totalTicks;
  }

  ghost predicate Reachable(s: Sched) {
    exists boot, entry, stack, es ::
      CanRun(Boot(boot, entry, stack), es) && Run(Boot(boot, entry, stack), es) == s
  }

  lemma ReachableInv(s: Sched)
    requires Reachable(s)
    ensures Inv(s)
  {
    var boot, entry, stack, es :|
      CanRun(Boot(boot, entry, stack), es) && Run(Boot(boot, entry, stack), es) == s;
    BootInv(boot, entry, stack);
    RunKeepsInv(Boot(boot, entry, stack), es);
  }
}
