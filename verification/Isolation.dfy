/** Context isolation: one interrupt frame and the saved register areas together behave like a CPU
    of its own for every process. */
module Isolation {
  import opened Machine
  import opened Scheduler

  /** The registers of process p: in the frame while p owns the CPU, in its saved area otherwise. */
  function Registers(s: Sched, p: nat): Context
    requires p < |s.procs|
  {
    if p == s.current then s.frame else s.procs[p].context
  }

  /** What a process does to its own registers. */
  datatype CpuStep = Write(regs: Context) | Return(rax: u64, rdi: u64)

  function Execute(regs: Context, steps: seq<CpuStep>): Context
    decreases |steps|
  {
    if steps == [] then regs
    else
      match steps[0]
      case Write(r) => Execute(r, steps[1..])
      case Return(rax, rdi) => Execute(regs.(rax := rax, rdi := rdi), steps[1..])
  }

  /** The register steps of event e that belong to process p: only the owner of the CPU has any. */
  function Own(s: Sched, e: Event, p: nat): seq<CpuStep>
    requires Shaped(s) && Enabled(s, e)
  {
    if p != s.current then []
    else if e.Compute? then [Write(e.regs)]
    else if e.EndSleep? then [Return(Reported(s, s.sleeps[p]), s.sleeps[p].need)]
    else []
  }

  ghost function OwnRun(s: Sched, es: seq<Event>, p: nat): seq<CpuStep>
    requires CanRun(s, es)
    decreases |es|
  {
    if es == [] then [] else Own(s, es[0], p) + OwnRun(Step(s, es[0]), es[1..], p)
  }

  lemma StartProcessMovesRegisters(s: Sched, pid: nat, p: nat)
    requires Shaped(s) && pid < |s.procs| && p < |s.procs|
    ensures Registers(StartProcess(s, pid), p) == Registers(s, p)
  {
  }

  lemma StartNextKeepsRegisters(s: Sched, p: nat)
    requires Shaped(s) && p < |s.procs|
    ensures Registers(StartNext(s), p) == Registers(s, p)
  {
    if s.queue == [] {
      StartProcessMovesRegisters(s, 0, p);
    } else {
      StartProcessMovesRegisters(s.(queue := s.queue[1..]), s.queue[0], p);
    }
  }

  lemma DispatchKeepsRegisters(s: Sched, p: nat)
    requires Shaped(s) && p < |s.procs|
    ensures Registers(Dispatch(s), p) == Registers(s, p)
  {
    if s.current == -1 {
      StartProcessMovesRegisters(s, 0, p);
    } else if s.current > 0 && s.procs[s.current].state == Running {
      StartNextKeepsRegisters(Requeue(Decrement(s)), p);
    } else {
      StartNextKeepsRegisters(s, p);
    }
  }

  /** A tick changes nobody's registers, whichever process it switches to, itself included. */
  lemma ScheduleKeepsRegisters(s: Sched, p: nat)
    requires Shaped(s) && p < |s.procs|
    ensures Registers(Schedule(s), p) == Registers(s, p)
  {
    ChargeKeepsRegisters(s, p);
    DispatchKeepsRegisters(Charge(s), p);
  }

  lemma ChargeKeepsRegisters(s: Sched, p: nat)
    requires Shaped(s) && p < |s.procs|
    ensures Registers(Charge(s), p) == Registers(s, p)
  {
  }

  lemma TimedScheduleKeepsRegisters(s: Sched, p: nat)
    requires Shaped(s) && p < |s.procs|
    ensures Registers(Schedule(s.(ticks := s.ticks + 1)), p) == Registers(s, p)
  {
    ScheduleKeepsRegisters(s.(ticks := s.ticks + 1), p);
  }

  lemma StepIsolated(s: Sched, e: Event, p: nat)
    requires Inv(s) && Enabled(s, e) && p < |s.procs|
    ensures p < |Step(s, e).procs|
    ensures Registers(Step(s, e), p) == Execute(Registers(s, p), Own(s, e, p))
  {
    if e.Tick? {
      TimedScheduleKeepsRegisters(s, p);
      TickSchedules(s);
    }
  }

  lemma {:induction false} ExecuteAppend(regs: Context, a: seq<CpuStep>, b: seq<CpuStep>)
    ensures Execute(regs, a + b) == Execute(Execute(regs, a), b)
    decreases |a|
  {
    if a == [] {
      assert a + b == b;
    } else {
      assert (a + b)[1..] == a[1..] + b;
      match a[0]
      case Write(r) => ExecuteAppend(r, a[1..], b);
      case Return(rax, rdi) => ExecuteAppend(regs.(rax := rax, rdi := rdi), a[1..], b);
    }
  }

  /** Over every run, the registers of a process are what its own steps alone make of them. */
  lemma {:induction false} EveryProcessHasItsOwnCpu(s: Sched, es: seq<Event>, p: nat)
    requires Inv(s) && CanRun(s, es) && p < |s.procs|
    ensures p < |Run(s, es).procs|
    ensures Registers(Run(s, es), p) == Execute(Registers(s, p), OwnRun(s, es, p))
    decreases |es|
  {
    if es != [] {
      StepKeepsInv(s, es[0]);
      StepIsolated(s, es[0], p);
      EveryProcessHasItsOwnCpu(Step(s, es[0]), es[1..], p);
      ExecuteAppend(Registers(s, p), Own(s, es[0], p), OwnRun(Step(s, es[0]), es[1..], p));
    }
  }

  /** After its first event, p does not own the CPU until the run is over. */
  ghost predicate AwayDuring(s: Sched, es: seq<Event>, p: nat)
    requires CanRun(s, es)
    decreases |es|
  {
    es == [] || (s.current != p && AwayDuring(Step(s, es[0]), es[1..], p))
  }

  lemma {:induction false} AwayMeansIdleCpu(s: Sched, es: seq<Event>, p: nat)
    requires CanRun(s, es) && AwayDuring(s, es, p)
    ensures OwnRun(s, es, p) == []
    decreases |es|
  {
    if es != [] {
      AwayMeansIdleCpu(Step(s, es[0]), es[1..], p);
    }
  }

  /** A process switched out by a tick finds, when it next owns the CPU, exactly the frame it had. */
  lemma ResumedWithSameFrame(s: Sched, es: seq<Event>, p: nat)
    requires Inv(s) && CanRun(s, es) && s.current == p && p < |s.procs|
    requires es != [] && es[0].Tick? && AwayDuring(Step(s, es[0]), es[1..], p)
    requires Run(s, es).current == p
    ensures Run(s, es).frame == s.frame
  {
    AwayMeansIdleCpu(Step(s, es[0]), es[1..], p);
    EveryProcessHasItsOwnCpu(s, es, p);
    assert OwnRun(s, es, p) == [];
  }
}
