/** Who owns the CPU: conservation of processes between the CPU and the run queue. */
module Ownership {
  import opened Arithmetic
  import opened Scheduler

  /** The 127 usable slots of the ring are exactly enough. */
  lemma QueueFits(s: Sched)
    requires Shaped(s) && Owned(s)
    ensures |s.queue| <= |s.procs| - 1 < MAX_PROCESSES
    ensures CurrentRuns(s) ==> |s.queue| <= |s.procs| - 2
  {
    Pigeonhole(s.queue, |s.procs|, 0);
    if CurrentRuns(s) {
      RunningAlone(s);
      var q := s.queue + [s.current];
      assert AllDistinct(q);
      Pigeonhole(q, |s.procs|, 0);
    }
  }

  lemma {:induction false} DistinctCount(q: seq<nat>, p: nat)
    requires AllDistinct(q)
    ensures multiset(q)[p] == if p in q then 1 else 0
  {
    if q != [] {
      DistinctCount(q[1..], p);
      assert q == [q[0]] + q[1..];
    }
  }

  /** In every reachable state each created process other than idle has exactly one place: on the
      CPU or in the queue.  A READY caller still on the CPU is counted by its queue entry. */
  lemma EveryProcessHasOnePlace(s: Sched, p: nat)
    requires Reachable(s) && 1 <= p < |s.procs|
    ensures multiset(s.queue)[p] + (if s.current == p && s.procs[p].state == Running then 1 else 0) == 1
    ensures s.procs[p].state == Ready || (s.procs[p].state == Running && s.current == p)
    ensures multiset(s.queue)[0] == 0
    ensures |s.queue| <= MAX_PROCESSES - 1
  {
    ReachableInv(s);
    assert Placed(s, p);
    DistinctCount(s.queue, p);
    QueueFits(s);
  }

  /** Every tick after the first is charged to exactly one process. */
  lemma TicksAreConserved(s: Sched)
    requires Reachable(s)
    ensures s.ticks > 0 ==> TotalTicks(s.procs) == s.ticks - 1
    ensures s.ticks == 0 ==> TotalTicks(s.procs) == 0
  {
    ReachableInv(s);
  }

  /** The requeueing done by SYSCALL_SLEEP and by yield is safe exactly when the caller is RUNNING:
      a second one before the next tick would queue the same process twice. */
  lemma RequeueSafeExactly(s: Sched)
    requires Inv(s) && 0 <= s.current
    ensures Inv(Requeue(s)) <==> CurrentRuns(s)
  {
    if CurrentRuns(s) {
      RequeueKeepsInv(s);
    } else {
      var q := Requeue(s).queue;
      assert q[|s.queue|] == s.current;
      if s.current == 0 {
        assert 0 in q;
      } else {
        RunningAlone(s);
        var i :| 0 <= i < |s.queue| && s.queue[i] == s.current;
        assert q[i] == q[|s.queue|];
      }
    }
  }

  /** Yielding twice before the next tick is the failing case: the second call comes from a READY
      process and queues it twice. */
  lemma DoubleYieldBreaks(s: Sched)
    requires Inv(s) && CurrentRuns(s)
    ensures !Inv(Requeue(Requeue(s)))
  {
    RequeueKeepsInv(s);
    RequeueSafeExactly(Requeue(s));
  }

  /** Once a process other than idle has run, idle never runs again. */
  lemma {:induction false} IdleNeverReturns(s: Sched, es: seq<Event>)
    requires Inv(s) && CanRun(s, es) && s.current > 0
    ensures Run(s, es).current > 0
    decreases |es|
  {
    if es != [] {
      StepKeepsInv(s, es[0]);
      if es[0].Tick? {
        TickKeepsInv(s);
      }
      IdleNeverReturns(Step(s, es[0]), es[1..]);
    }
  }
}
