/** The closed form of the schedule when n processes only compute. */
module RoundRobin {
  import opened Arithmetic
  import opened Machine
  import opened Scheduler

  predicate OnlyComputes(es: seq<Event>) {
    forall i :: 0 <= i < |es| ==> es[i].Tick? || es[i].Compute?
  }

  /** The n pids in the order they get the CPU from time slice `slot` on. */
  function Rotation(n: nat, slot: nat): seq<nat>
    requires n >= 1
  {
    seq(n, i => 1 + (slot + i) % n)
  }

  lemma RotationTurns(n: nat, slot: nat)
    requires n >= 1
    ensures Rotation(n, slot + 1) == Rotation(n, slot)[1..] + [Rotation(n, slot)[0]]
  {
    ModPlus(slot, n);
    var a, b := Rotation(n, slot + 1), Rotation(n, slot)[1..] + [Rotation(n, slot)[0]];
    forall i | 0 <= i < n ensures a[i] == b[i] {
      if i < n - 1 {
        assert slot + 1 + i == slot + (i + 1);
      } else {
        assert slot + 1 + i == slot + n;
      }
    }
  }

  /** setup_process with n further kernel or user tasks: nothing has ticked yet. */
  predicate Started(s: Sched, n: nat) {
    && 1 <= n < MAX_PROCESSES && |s.procs| == n + 1
    && s.current == -1 && s.ticks == 0 && s.queue == Rotation(n, 0) && s.sleeps == map[]
  }

  /** Which time slice tick t >= 2 falls into, and how far into it. */
  function Slot(t: nat): nat
    requires t >= 2
  {
    (t - 2) / 100
  }

  function SlotAge(t: nat): nat
    requires t >= 2
  {
    (t - 2) % 100
  }

  /** The state after t ticks. */
  ghost predicate OnSchedule(s: Sched, n: nat)
    requires 1 <= n
  {
    && |s.procs| == n + 1
    && (s.ticks == 0 ==> s.current == -1 && s.queue == Rotation(n, 0))
    && (s.ticks == 1 ==> s.current == 0 && s.queue == Rotation(n, 0))
    && (s.ticks >= 2 ==> InSlot(s, n, Slot(s.ticks), SlotAge(s.ticks)))
  }

  ghost predicate InSlot(s: Sched, n: nat, slot: nat, age: nat)
    requires 1 <= n
  {
    && CurrentRuns(s) && [s.current] + s.queue == Rotation(n, slot)
    && s.procs[s.current].timeRemaining == TIME_SLICE - age
  }

  lemma DispatchHead(s: Sched, n: nat, slot: nat)
    requires 1 <= n && Shaped(s) && |s.procs| == n + 1 && s.queue == Rotation(n, slot)
    ensures InSlot(StartNext(s), n, slot, 0)
  {
    assert s.queue[0] == 1 + slot % n;
    assert [s.queue[0]] + s.queue[1..] == s.queue;
  }

  lemma CountdownInSlot(s: Sched, n: nat, slot: nat, age: nat)
    requires 1 <= n && Shaped(s) && |s.procs| == n + 1 && age < TIME_SLICE && InSlot(s, n, slot, age)
    ensures if age == TIME_SLICE - 1 then InSlot(Countdown(s), n, slot + 1, 0)
            else InSlot(Countdown(s), n, slot, age + 1)
  {
    if s.procs[s.current].timeRemaining == 1 {
      RotationTurns(n, slot);
      assert s.queue == Rotation(n, slot)[1..];
      DispatchHead(Requeue(Decrement(s)), n, slot + 1);
    }
  }

  lemma SlotAdvances(t: nat)
    requires t >= 2
    ensures SlotAge(t) < 100 && Follows(Slot(t), SlotAge(t), Slot(t + 1), SlotAge(t + 1))
  {
  }

  lemma ChargeInSlot(s: Sched, n: nat, slot: nat, age: nat)
    requires 1 <= n && Shaped(s) && InSlot(s, n, slot, age)
    ensures InSlot(Charge(s), n, slot, age)
  {
  }

  lemma ScheduleInSlot(s: Sched, n: nat, slot: nat, age: nat)
    requires 1 <= n && Shaped(s) && |s.procs| == n + 1 && age < TIME_SLICE && InSlot(s, n, slot, age)
    ensures if age == TIME_SLICE - 1 then InSlot(Schedule(s), n, slot + 1, 0)
            else InSlot(Schedule(s), n, slot, age + 1)
  {
    ChargeInSlot(s, n, slot, age);
    CountdownInSlot(Charge(s), n, slot, age);
  }

  lemma FirstDispatch(s: Sched, n: nat)
    requires 1 <= n && Shaped(s) && |s.procs| == n + 1 && s.current == 0 && s.queue == Rotation(n, 0)
    ensures InSlot(Schedule(s), n, 0, 0)
  {
    DispatchHead(Charge(s), n, 0);
  }

  /** One tick later in the slot, or in the next one. */
  predicate Follows(slot: nat, age: nat, nextSlot: nat, nextAge: nat) {
    if age == 99 then nextSlot == slot + 1 && nextAge == 0 else nextSlot == slot && nextAge == age + 1
  }

  lemma LaterTick(s: Sched, n: nat, slot: nat, age: nat, nextSlot: nat, nextAge: nat)
    requires 1 <= n && Shaped(s) && |s.procs| == n + 1 && age < TIME_SLICE
    requires InSlot(s, n, slot, age) && Follows(slot, age, nextSlot, nextAge)
    ensures InSlot(Schedule(s), n, nextSlot, nextAge)
  {
    ScheduleInSlot(s, n, slot, age);
  }

  lemma FirstTick(s: Sched, n: nat)
    requires 1 <= n && Shaped(s) && |s.procs| == n + 1 && s.current == -1
    ensures Schedule(s).current == 0 && Schedule(s).queue == s.queue
  {
  }

  lemma TickOnSchedule(s: Sched, n: nat)
    requires 1 <= n && Shaped(s) && OnSchedule(s, n)
    ensures OnSchedule(Schedule(s.(ticks := s.ticks + 1)), n)
  {
    var t := s.(ticks := s.ticks + 1);
    if s.ticks == 0 {
      FirstTick(t, n);
    } else if s.ticks == 1 {
      FirstDispatch(t, n);
    } else {
      SlotAdvances(s.ticks);
      LaterTick(t, n, Slot(s.ticks), SlotAge(s.ticks), Slot(t.ticks), SlotAge(t.ticks));
    }
  }

  lemma StepOnSchedule(s: Sched, e: Event, n: nat)
    requires 1 <= n && Shaped(s) && OnSchedule(s, n) && (e.Tick? || e.Compute?) && Enabled(s, e)
    ensures OnSchedule(Step(s, e), n)
  {
    if e.Tick? {
      TickSchedules(s);
      TickOnSchedule(s, n);
    }
  }

  lemma {:induction false} RunOnSchedule(s: Sched, es: seq<Event>, n: nat)
    requires 1 <= n && Inv(s) && OnSchedule(s, n) && CanRun(s, es) && OnlyComputes(es)
    ensures OnSchedule(Run(s, es), n)
    decreases |es|
  {
    if es != [] {
      StepKeepsInv(s, es[0]);
      StepOnSchedule(s, es[0], n);
      RunOnSchedule(Step(s, es[0]), es[1..], n);
    }
  }

  /** With n processes that make no system call the owner after t >= 2 ticks is 1 + ((t-2)/100) mod n. */
  lemma ClosedForm(s: Sched, es: seq<Event>, n: nat)
    requires Inv(s) && Started(s, n) && CanRun(s, es) && OnlyComputes(es)
    ensures var t := Ticks(es);
      Run(s, es).current == (if t == 0 then -1 else if t == 1 then 0 else 1 + ((t - 2) / 100) % n)
  {
    RunOnSchedule(s, es, n);
    RunCountsTicks(s, es);
    var r := Run(s, es);
    if r.ticks >= 2 {
      assert ([r.current] + r.queue)[0] == Rotation(n, Slot(r.ticks))[0];
    }
  }

  predicate OnlyCreates(es: seq<Event>) {
    forall i :: 0 <= i < |es| ==> es[i].Create?
  }

  /** Any n creations after boot, as setup_process does with n = 4, lead to a state that starts the
      closed form. */
  lemma SetupStarts(boot: Context, entry: u64, stack: u64, es: seq<Event>)
    requires 1 <= |es| < MAX_PROCESSES && OnlyCreates(es)
    ensures CanRun(Boot(boot, entry, stack), es)
    ensures Inv(Run(Boot(boot, entry, stack), es)) && Started(Run(Boot(boot, entry, stack), es), |es|)
  {
    var s := Boot(boot, entry, stack);
    BootInv(boot, entry, stack);
    CreationsFill(s, 0, es);
    RunKeepsInv(s, es);
    RotationStart(|es|);
  }

  lemma RotationStart(n: nat)
    requires n >= 1
    ensures Rotation(n, 0) == seq(n, i => 1 + i)
  {
    forall i | 0 <= i < n ensures Rotation(n, 0)[i] == 1 + i {
      DivModUnique(i, n, 0, i);
    }
  }

  lemma {:induction false} CreationsFill(s: Sched, k: nat, es: seq<Event>)
    requires k + |es| < MAX_PROCESSES && OnlyCreates(es)
    requires Shaped(s) && |s.procs| == k + 1 && s.queue == seq(k, i => 1 + i)
    ensures CanRun(s, es)
    ensures var r := Run(s, es);
      && |r.procs| == k + |es| + 1 && r.queue == seq(k + |es|, i => 1 + i)
      && r.current == s.current && r.ticks == s.ticks && r.sleeps == s.sleeps
    decreases |es|
  {
    if es != [] {
      var t := Step(s, es[0]);
      assert t.queue == seq(k + 1, i => 1 + i);
      CreationsFill(t, k + 1, es[1..]);
    }
  }
}
