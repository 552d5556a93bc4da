/** Bounded waiting: a queued process is dispatched within 100 ticks for every place in the queue. */
module Waiting {
  import opened Arithmetic
  import opened Scheduler
  import opened Ownership

  function Position(q: seq<nat>, p: nat): nat
    requires p in q
    ensures Position(q, p) < |q| && q[Position(q, p)] == p
  {
    if q[0] == p then 0 else 1 + Position(q[1..], p)
  }

  lemma {:induction false} PositionAppend(q: seq<nat>, r: seq<nat>, p: nat)
    requires p in q
    ensures p in q + r && Position(q + r, p) == Position(q, p)
  {
    if q[0] != p {
      PositionAppend(q[1..], r, p);
      assert (q + r)[1..] == q[1..] + r;
    }
  }

  /** Ticks until the current owner of the CPU gives it up. */
  function TicksLeft(s: Sched): nat {
    if s.current == -1 then 2
    else if CurrentRuns(s) then s.procs[s.current].timeRemaining
    else 1
  }

  function Measure(s: Sched, p: nat): nat
    requires p in s.queue
  {
    TIME_SLICE * Position(s.queue, p) + TicksLeft(s)
  }

  /** p owns the CPU with a whole time slice ahead of it. */
  predicate Dispatched(s: Sched, p: nat) {
    s.current == p && CurrentRuns(s) && s.procs[p].timeRemaining == TIME_SLICE
  }

  /** The ticks p still waits: 0 when it has just been dispatched, -1 when it is not waiting at all. */
  function Remaining(s: Sched, p: nat): int {
    if p in s.queue then Measure(s, p) else if Dispatched(s, p) then 0 else -1
  }

  lemma MeasureBound(s: Sched, p: nat)
    requires Inv(s) && p in s.queue
    ensures 1 <= Measure(s, p) <= TIME_SLICE * (Position(s.queue, p) + 1)
    ensures Measure(s, p) <= TIME_SLICE * (|s.procs| - 1)
  {
    RunningAlone(s);
    QueueFits(s);
  }

  /** The head of a nonempty queue takes the CPU; everybody else moves up one place. */
  lemma StartNextMovesUp(s: Sched, p: nat)
    requires Shaped(s) && AllDistinct(s.queue) && 0 !in s.queue && p in s.queue
    ensures Remaining(StartNext(s), p) == TIME_SLICE * Position(s.queue, p)
  {
    TailMembers(s.queue);
    assert s.queue[0] in s.queue;
  }

  lemma SliceEndMovesUp(s: Sched, p: nat)
    requires Shaped(s) && 0 < s.current && AllDistinct(s.queue + [s.current]) && 0 !in s.queue && p in s.queue
    ensures Remaining(StartNext(Requeue(s)), p) == TIME_SLICE * Position(s.queue, p)
  {
    PositionAppend(s.queue, [s.current], p);
    StartNextMovesUp(Requeue(s), p);
  }

  lemma CountdownMovesUp(s: Sched, p: nat)
    requires Shaped(s) && Owned(s) && CurrentRuns(s) && p in s.queue
    ensures Remaining(Countdown(s), p) == Measure(s, p) - 1
  {
    RunningAlone(s);
    CountdownCases(s);
    if s.procs[s.current].timeRemaining == 1 {
      SliceEndMovesUp(Decrement(s), p);
    }
  }

  lemma CountdownCases(s: Sched)
    requires Shaped(s) && CurrentRuns(s) && s.procs[s.current].timeRemaining >= 1
    ensures s.procs[s.current].timeRemaining == 1 ==> Countdown(s) == StartNext(Requeue(Decrement(s)))
    ensures s.procs[s.current].timeRemaining > 1 ==> Countdown(s) == Decrement(s)
  {
  }

  lemma ChargeKeepsMeasure(s: Sched, p: nat)
    requires Shaped(s) && p in s.queue
    ensures Charge(s).queue == s.queue && Measure(Charge(s), p) == Measure(s, p)
  {
  }

  lemma DispatchLowersMeasure(s: Sched, p: nat)
    requires Shaped(s) && Owned(s) && p in s.queue
    ensures Remaining(Dispatch(s), p) == Measure(s, p) - 1
  {
    if CurrentRuns(s) {
      CountdownMovesUp(s, p);
    } else if s.current >= 0 {
      StartNextMovesUp(s, p);
    }
  }

  lemma ScheduleLowersMeasure(s: Sched, p: nat)
    requires Shaped(s) && Owned(s) && p in s.queue
    ensures Remaining(Schedule(s), p) == Measure(s, p) - 1
  {
    ChargeKeepsMeasure(s, p);
    ChargeOwned(s);
    DispatchLowersMeasure(Charge(s), p);
  }

  /** Every tick lowers what a queued process waits by exactly one; at 0 the tick dispatches it. */
  lemma TickLowersMeasure(s: Sched, p: nat)
    requires Shaped(s) && Owned(s) && p in s.queue
    ensures Remaining(Step(s, Tick), p) == Measure(s, p) - 1
  {
    TimedScheduleLowersMeasure(s, p);
    TickSchedules(s);
  }

  lemma TimedScheduleLowersMeasure(s: Sched, p: nat)
    requires Shaped(s) && Owned(s) && p in s.queue
    ensures Remaining(Schedule(s.(ticks := s.ticks + 1)), p) == Measure(s, p) - 1
  {
    ClockKeepsOwned(s, s.ticks + 1);
    ScheduleLowersMeasure(s.(ticks := s.ticks + 1), p);
  }

  /** No other step takes p out of the queue or raises its measure. */
  lemma OtherStepsKeepMeasure(s: Sched, e: Event, p: nat)
    requires Inv(s) && Enabled(s, e) && !e.Tick? && p in s.queue
    ensures p in Step(s, e).queue && Measure(Step(s, e), p) <= Measure(s, p)
  {
    RunningAlone(s);
    if e.PollSleep? || e.Yield? {
      PositionAppend(s.queue, [s.current], p);
    } else if e.Create? {
      PositionAppend(s.queue, [|s.procs|], p);
    }
  }

  /** Nobody but p itself touches p's sleep call, and p is not on the CPU while it waits. */
  lemma StepKeepsSleepOf(s: Sched, e: Event, p: nat)
    requires Inv(s) && Enabled(s, e) && p in s.queue
    ensures p in s.sleeps ==> p in Step(s, e).sleeps && Step(s, e).sleeps[p] == s.sleeps[p]
  {
    RunningAlone(s);
  }

  lemma MeasurePositive(s: Sched, p: nat)
    requires Shaped(s) && Owned(s) && p in s.queue
    ensures Measure(s, p) >= 1
  {
    RunningAlone(s);
  }

  /** In every run with enough ticks a queued process is dispatched when its measure has run out. */
  lemma {:induction false} DispatchedInTime(s: Sched, es: seq<Event>, p: nat) returns (k: nat)
    requires Inv(s) && CanRun(s, es) && p in s.queue && Ticks(es) >= Measure(s, p)
    ensures 0 < k <= |es| && CanRun(s, es[..k]) && Dispatched(Run(s, es[..k]), p)
    ensures Ticks(es[..k]) <= Measure(s, p)
    ensures p in s.sleeps ==> p in Run(s, es[..k]).sleeps && Run(s, es[..k]).sleeps[p] == s.sleeps[p]
    decreases |es|
  {
    MeasurePositive(s, p);
    StepKeepsInv(s, es[0]);
    StepKeepsSleepOf(s, es[0], p);
    var t := Step(s, es[0]);
    if es[0].Tick? {
      TickLowersMeasure(s, p);
    } else {
      OtherStepsKeepMeasure(s, es[0], p);
    }
    if p !in t.queue {
      k := 1;
      assert es[..1][1..] == [];
    } else {
      MeasurePositive(t, p);
      var i := DispatchedInTime(t, es[1..], p);
      k := i + 1;
      assert es[..k][1..] == es[1..][..i];
    }
  }

  /** In every run with enough ticks a queued process is dispatched, within 100 ticks for each
      process ahead of it and 100 more; until then a sleep call it has open stays as it is. */
  lemma BoundedWaiting(s: Sched, es: seq<Event>, p: nat) returns (k: nat)
    requires Inv(s) && CanRun(s, es) && p in s.queue && Ticks(es) >= Measure(s, p)
    ensures 0 < k <= |es| && CanRun(s, es[..k]) && Dispatched(Run(s, es[..k]), p)
    ensures Ticks(es[..k]) <= Measure(s, p) <= TIME_SLICE * (Position(s.queue, p) + 1)
    ensures p in s.sleeps ==> p in Run(s, es[..k]).sleeps && Run(s, es[..k]).sleeps[p] == s.sleeps[p]
  {
    MeasureBound(s, p);
    k := DispatchedInTime(s, es, p);
  }
}
