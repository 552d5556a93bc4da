/** What the single steps of the scheduler do, said of the states before and after: who owns the CPU,
    who waits, whose counter rises, what a new process starts with, and what a system call leaves. */
module StepLaws {
  import opened Machine
  import opened Scheduler
  import opened Ownership

  // --- Ticks ---

  /** The process on the CPU has just got a whole time slice. */
  ghost predicate Starts(t: Sched, p: int) {
    0 <= p < |t.procs| && t.current == p && t.procs[p].state == Running && t.procs[p].timeRemaining == 100
  }

  /** The head of the queue, if there is one, gets the CPU. */
  ghost predicate HeadStarts(q: seq<nat>, t: Sched) {
    q != [] && Starts(t, q[0]) && t.queue == q[1..]
  }

  ghost predicate IdleStays(s: Sched, t: Sched) {
    && |s.procs| == |t.procs| > 0 && t.current == 0 && t.queue == [] && t.frame == s.frame
    && t.procs[0].state == s.procs[0].state && t.procs[0].timeRemaining == s.procs[0].timeRemaining
  }

  /** The clock goes on, the sleep calls stay, and so do the processes that neither leave nor get the CPU. */
  lemma TickFrames(s: Sched)
    requires Inv(s)
    ensures Step(s, Tick).ticks == s.ticks + 1 && Step(s, Tick).sleeps == s.sleeps
    ensures |Step(s, Tick).procs| == |s.procs|
    ensures forall p :: 0 <= p < |s.procs| && p != s.current && p != Step(s, Tick).current ==>
      Step(s, Tick).procs[p] == s.procs[p]
  {
    TickSchedules(s);
  }

  lemma TickOfNobodyOrIdle(s: Sched)
    requires Inv(s) && s.current <= 0
    ensures var t := Step(s, Tick);
      if s.current == -1 then Starts(t, 0) && t.queue == s.queue
      else if s.queue == [] then IdleStays(s, t) else HeadStarts(s.queue, t)
  {
    TickSchedules(s);
  }

  lemma TickOfReady(s: Sched)
    requires Inv(s) && s.current > 0 && s.procs[s.current].state == Ready
    ensures HeadStarts(s.queue, Step(s, Tick))
  {
    RunningAlone(s);
    TickSchedules(s);
  }

  lemma TickOfRunning(s: Sched)
    requires Inv(s) && CurrentRuns(s)
    ensures var t := Step(s, Tick);
      if s.procs[s.current].timeRemaining == 1 then HeadStarts(s.queue + [s.current], t)
      else t.current == s.current && t.queue == s.queue && t.procs[s.current].state == Running
           && t.procs[s.current].timeRemaining == s.procs[s.current].timeRemaining - 1
  {
    RunningAlone(s);
    TickSchedules(s);
  }

  /** Who owns the CPU after a tick, and who waits. */
  lemma TickDecides(s: Sched)
    requires Inv(s)
    ensures var t := Step(s, Tick);
      if s.current == -1 then Starts(t, 0) && t.queue == s.queue
      else if s.current == 0 then if s.queue == [] then IdleStays(s, t) else HeadStarts(s.queue, t)
      else if s.procs[s.current].state == Running then
        if s.procs[s.current].timeRemaining == 1 then HeadStarts(s.queue + [s.current], t)
        else t.current == s.current && t.queue == s.queue && t.procs[s.current].state == Running
             && t.procs[s.current].timeRemaining == s.procs[s.current].timeRemaining - 1
      else HeadStarts(s.queue, t)
  {
    if s.current <= 0 {
      TickOfNobodyOrIdle(s);
    } else if s.procs[s.current].state == Running {
      TickOfRunning(s);
    } else {
      RunningAlone(s);
      TickOfReady(s);
    }
  }

  /** The counters of all processes go by the ticks that find them on the CPU. */
  lemma TickCharges(s: Sched, p: nat)
    requires Inv(s) && p < |s.procs|
    ensures p < |Step(s, Tick).procs|
    ensures Step(s, Tick).procs[p].totalTicks == s.procs[p].totalTicks + if p == s.current then 1 else 0
  {
    TickSchedules(s);
  }

  lemma OthersDoNotCharge(s: Sched, e: Event, p: nat)
    requires Inv(s) && Enabled(s, e) && !e.Tick? && p < |s.procs|
    ensures p < |Step(s, e).procs| && Step(s, e).procs[p].totalTicks == s.procs[p].totalTicks
  {
  }

  /** The ticks of a run that find p on the CPU. */
  ghost function TicksOn(s: Sched, es: seq<Event>, p: nat): nat
    requires CanRun(s, es)
    decreases |es|
  {
    if es == [] then 0
    else (if es[0].Tick? && s.current == p then 1 else 0) + TicksOn(Step(s, es[0]), es[1..], p)
  }

  /** Over every run, the counter of a process rises by the ticks that found it on the CPU. */
  lemma {:induction false} ChargedToTheOwner(s: Sched, es: seq<Event>, p: nat)
    requires Inv(s) && CanRun(s, es) && p < |s.procs|
    ensures p < |Run(s, es).procs|
    ensures Run(s, es).procs[p].totalTicks == s.procs[p].totalTicks + TicksOn(s, es, p)
    decreases |es|
  {
    if es != [] {
      StepKeepsInv(s, es[0]);
      if es[0].Tick? {
        TickCharges(s, p);
      } else {
        OthersDoNotCharge(s, es[0], p);
      }
      ChargedToTheOwner(Step(s, es[0]), es[1..], p);
    }
  }

  // --- Giving up the CPU ---

  /** The caller is READY at the end of the queue; nobody else has changed. */
  ghost predicate Queued(s: Sched, t: Sched) {
    && 0 < s.current < |s.procs| == |t.procs|
    && t.queue == s.queue + [s.current] && t.current == s.current && t.frame == s.frame && t.ticks == s.ticks
    && t.procs[s.current].state == Ready
    && forall p :: 0 <= p < |s.procs| && p != s.current ==> t.procs[p] == s.procs[p]
  }

  /** The next tick gives the CPU to whoever has waited longest, with a whole slice. */
  lemma ReadyGivesWay(t: Sched)
    requires Inv(t) && t.current > 0 && t.procs[t.current].state == Ready
    ensures HeadStarts(t.queue, Step(t, Tick))
  {
    TickOfReady(t);
  }

  lemma RequeueQueues(s: Sched)
    requires Inv(s) && CurrentRuns(s)
    ensures Queued(s, Requeue(s))
  {
  }

  /** A sleeper whose time has not come goes behind everybody who waits, and the very next tick gives
      the CPU to the first of them, or back to the sleeper if it is alone. */
  lemma SleeperGivesWay(s: Sched)
    requires Inv(s) && Enabled(s, PollSleep)
    ensures Inv(Step(s, PollSleep)) && Queued(s, Step(s, PollSleep))
    ensures Step(s, PollSleep).sleeps == s.sleeps[s.current := s.sleeps[s.current].(again := false)]
    ensures HeadStarts(s.queue + [s.current], Step(Step(s, PollSleep), Tick))
  {
    StepKeepsInv(s, PollSleep);
    ReadyGivesWay(Step(s, PollSleep));
  }

  /** So does a process that yields. */
  lemma YieldGivesWay(s: Sched)
    requires Inv(s) && Enabled(s, Yield)
    ensures Inv(Step(s, Yield)) && Queued(s, Step(s, Yield))
    ensures Step(s, Yield).sleeps == s.sleeps
    ensures HeadStarts(s.queue + [s.current], Step(Step(s, Yield), Tick))
  {
    StepKeepsInv(s, Yield);
    RequeueQueues(s);
    ReadyGivesWay(Step(s, Yield));
  }

  // --- Sleep calls and computing: processes, queue, owner and clock stay ---

  ghost predicate OnlyCalls(s: Sched, t: Sched) {
    t.procs == s.procs && t.queue == s.queue && t.current == s.current && t.ticks == s.ticks
  }

  /** The call notes the clock, the ticks it takes and the request, and nothing else changes. */
  lemma SleepBegins(s: Sched, ms: u64)
    requires Inv(s) && Enabled(s, BeginSleep(ms))
    ensures Step(s, BeginSleep(ms))
         == s.(sleeps := s.sleeps[s.current := SleepCall(Wrap64(s.ticks), SleepTicks(ms), ms, s.ticks, false)])
  {
  }

  /** The call returns its report in rax and the ticks it asked for in rdi, and nothing else changes. */
  lemma SleepReturns(s: Sched)
    requires Inv(s) && Enabled(s, EndSleep)
    ensures var call := s.sleeps[s.current];
      Step(s, EndSleep) == s.(frame := s.frame.(rax := Reported(s, call), rdi := call.need), sleeps := s.sleeps - {s.current})
  {
  }

  lemma WaitedTicks(ticks: int, called: int)
    ensures (ticks % 0x1_0000_0000_0000_0000 - called % 0x1_0000_0000_0000_0000) % 0x1_0000_0000_0000_0000
         == (ticks - called) % 0x1_0000_0000_0000_0000
  {
  }

  /** The numbers in a sleep call: milliseconds to ticks on the way in, ticks to milliseconds on the
      way out, both in 64 bits. */
  lemma SleepArithmetic(s: Sched, call: SleepCall)
    requires call.start == call.called % 0x1_0000_0000_0000_0000
    ensures SleepTicks(call.ms) == (call.ms + 9) % 0x1_0000_0000_0000_0000 / 10
    ensures Reported(s, call)
         == 10 * ((s.ticks - call.called) % 0x1_0000_0000_0000_0000) % 0x1_0000_0000_0000_0000
  {
    WaitedTicks(s.ticks, call.called);
  }

  /** The loop test shows in nothing but the call itself, and computing in nothing but the frame. */
  lemma TestAndComputeTouchLittle(s: Sched, regs: Context)
    requires Inv(s)
    ensures OnlyCalls(s, Step(s, Compute(regs))) && Step(s, Compute(regs)).frame == regs
    ensures Step(s, Compute(regs)).sleeps == s.sleeps
    ensures Enabled(s, TestSleep) ==>
      && OnlyCalls(s, Step(s, TestSleep)) && Step(s, TestSleep).frame == s.frame
      && Step(s, TestSleep).sleeps == s.sleeps[s.current := s.sleeps[s.current].(again := true)]
  {
  }

  // --- New processes ---

  /** The registers a process starts with: all zero but these. */
  lemma InitialRegisters(pid: nat, entry: u64, kernelTask: bool, stack: u64)
    requires pid < 128 && stack < 0x1_0000_0000_0000_0000 - 4096
    ensures var c := InitialContext(pid, entry, kernelTask, stack);
      && c.rip == entry && c.rdi == pid && c.rsp == stack + 4096 && c.rflags == 0x202
      && c.cs == (if kernelTask then 0x08 else 0x2b) && c.ss == (if kernelTask then 0x10 else 0x23)
      && c.ds == 0 && c.es == 0 && c.fs == 0 && c.gs == 0
      && c.rax == 0 && c.rbx == 0 && c.rcx == 0 && c.rdx == 0 && c.rsi == 0 && c.rbp == 0
      && c.r8 == 0 && c.r9 == 0 && c.r10 == 0 && c.r11 == 0 && c.r12 == 0 && c.r13 == 0 && c.r14 == 0 && c.r15 == 0
      && c.unused1 == 0 && c.unused2 == 0
  {
  }

  /** The next pid is READY at the end of the queue, with no tick charged, and nothing else changes. */
  lemma CreationAdds(s: Sched, entry: u64, kernelTask: bool, stack: u64)
    requires Inv(s) && |s.procs| < 128
    ensures var t, n := Step(s, Create(entry, kernelTask, stack)), |s.procs|;
      && |t.procs| == n + 1 && t.procs[..n] == s.procs && t.queue == s.queue + [n]
      && t.procs[n].state == Ready && t.procs[n].totalTicks == 0 && t.procs[n].timeRemaining == 0
      && t.procs[n].context == InitialContext(n, entry, kernelTask, stack)
      && t.current == s.current && t.frame == s.frame && t.ticks == s.ticks && t.sleeps == s.sleeps
  {
  }

  /** After setup_process has taken it off the queue, the idle process alone exists, and nobody runs. */
  lemma BootState(boot: Context, entry: u64, stack: u64)
    ensures var s := Boot(boot, entry, stack);
      && |s.procs| == 1 && s.procs[0].state == Ready && s.procs[0].totalTicks == 0
      && s.procs[0].context == InitialContext(0, entry, true, stack)
      && s.queue == [] && s.current == -1 && s.frame == boot && s.ticks == 0 && s.sleeps == map[]
  {
  }
}
