/** What SYSCALL_SLEEP promises its caller. */
module SleepCalls {
  import opened Machine
  import opened Scheduler
  import opened Ownership
  import opened Waiting

  function CeilTenth(ms: nat): nat {
    if ms % 10 == 0 then ms / 10 else ms / 10 + 1
  }

  // --- 64-bit arithmetic ---

  /** The conversion to ticks rounds up exactly when the 64-bit addition of 9 does not wrap. */
  lemma RoundsUpExactly(ms: u64)
    ensures SleepTicks(ms) == CeilTenth(ms) <==> ms <= 0x1_0000_0000_0000_0000 - 10
  {
  }

  /** Differences of wrapped counters are wrapped differences. */
  lemma WrapDifference(t: int, c: int)
    ensures Wrap64(Wrap64(t) - Wrap64(c)) == Wrap64(t - c)
  {
  }

  /** A tenfold wait that is late by less than 2^60 ticks covers the request unless it wraps. */
  lemma TenfoldCovers(ms: u64, wait: nat)
    requires CeilTenth(ms) <= wait <= CeilTenth(ms) + 0x1000_0000_0000_0000
    ensures Wrap64(10 * Wrap64(wait)) >= ms <==> 10 * wait < 0x1_0000_0000_0000_0000
  {
    assert 10 * wait >= ms;
    assert wait < 0x1_0000_0000_0000_0000;
    assert 10 * wait < ms + 0x1_0000_0000_0000_0000;
  }

  /** The wait measured with the wrapping counter is the true one. */
  lemma ElapsedIsTrue(s: Sched, call: SleepCall)
    requires call.called <= s.ticks && call.start == Wrap64(call.called)
    ensures Elapsed(s, call) == Wrap64(s.ticks - call.called)
  {
    WrapDifference(s.ticks, call.called);
  }

  // --- What a return means ---

  /** A sleep never ends early: at least ceil(ms/10) ticks have passed, however often the tick
      counter has wrapped. */
  lemma NoEarlyReturn(s: Sched)
    requires Inv(s) && Enabled(s, EndSleep)
    ensures var call := s.sleeps[s.current];
      call.ms <= 0x1_0000_0000_0000_0000 - 10 ==>
        && s.ticks - call.called >= CeilTenth(call.ms)
        && 10 * (s.ticks - call.called) >= call.ms
  {
    var call := s.sleeps[s.current];
    ElapsedIsTrue(s, call);
    RoundsUpExactly(call.ms);
    WaitCovers(call.ms, SleepTicks(call.ms), Elapsed(s, call), s.ticks - call.called);
  }

  lemma WaitCovers(ms: u64, need: u64, elapsed: u64, wait: nat)
    requires (ms <= 0x1_0000_0000_0000_0000 - 10 ==> need == CeilTenth(ms)) && elapsed >= need && elapsed == Wrap64(wait)
    ensures ms <= 0x1_0000_0000_0000_0000 - 10 ==> wait >= CeilTenth(ms) && 10 * wait >= ms
  {
    assert elapsed <= wait;
    assert 10 * CeilTenth(ms) >= ms;
  }

  lemma ReportIsTenfold(s: Sched, call: SleepCall)
    requires call.called <= s.ticks && call.start == Wrap64(call.called)
    ensures Reported(s, call) == Wrap64(10 * Wrap64(s.ticks - call.called))
  {
    ElapsedIsTrue(s, call);
  }

  lemma ReportGiven(s: Sched)
    requires Inv(s) && Enabled(s, EndSleep)
    ensures Step(s, EndSleep).frame.rax == Reported(s, s.sleeps[s.current])
  {
  }

  /** The report covers the request exactly when ten times the wait fits in 64 bits. */
  lemma ReportCovers(s: Sched)
    requires Inv(s) && Enabled(s, EndSleep)
    requires var call := s.sleeps[s.current];
      call.ms <= 0x1_0000_0000_0000_0000 - 10 && s.ticks - call.called <= call.need + 0x1000_0000_0000_0000
    ensures var call := s.sleeps[s.current];
      Step(s, EndSleep).frame.rax >= call.ms <==> 10 * (s.ticks - call.called) < 0x1_0000_0000_0000_0000
  {
    var call := s.sleeps[s.current];
    NoEarlyReturn(s);
    RoundsUpExactly(call.ms);
    TenfoldCovers(call.ms, s.ticks - call.called);
    ReportIsTenfold(s, call);
    ReportGiven(s);
  }

  // --- The guarantee, from the call to the return ---

  lemma TooEarly(s: Sched, call: SleepCall)
    requires call.called <= s.ticks < call.called + call.need && call.start == Wrap64(call.called)
    ensures Elapsed(s, call) < call.need
  {
    ElapsedIsTrue(s, call);
  }

  /** A sleep call, whether or not it is in its loop body. */
  function Settled(call: SleepCall): SleepCall {
    call.(again := false)
  }

  /** Only its own return ends a sleep call, and nothing replaces it. */
  lemma OthersKeepSleep(s: Sched, e: Event, p: nat)
    requires Inv(s) && Enabled(s, e) && p in s.sleeps && (e.EndSleep? ==> s.current != p)
    ensures p in Step(s, e).sleeps && Settled(Step(s, e).sleeps[p]) == Settled(s.sleeps[p])
  {
  }

  lemma OpenUntilDeadline(s: Sched, e: Event, p: nat)
    requires Inv(s) && Enabled(s, e) && p in s.sleeps && s.ticks < s.sleeps[p].called + s.sleeps[p].need
    ensures p in Step(s, e).sleeps && Settled(Step(s, e).sleeps[p]) == Settled(s.sleeps[p])
  {
    TooEarly(s, s.sleeps[p]);
    OthersKeepSleep(s, e, p);
  }

  lemma {:induction false} DeadlineComes(s: Sched, es: seq<Event>, p: nat) returns (k: nat)
    requires Inv(s) && CanRun(s, es) && p in s.sleeps && s.ticks <= s.sleeps[p].called + s.sleeps[p].need
    requires Ticks(es) >= s.sleeps[p].called + s.sleeps[p].need - s.ticks
    ensures k <= |es| && CanRun(s, es[..k])
    ensures var t := Run(s, es[..k]);
      && p in t.sleeps && Settled(t.sleeps[p]) == Settled(s.sleeps[p])
      && t.ticks == s.sleeps[p].called + s.sleeps[p].need
    decreases |es|
  {
    k := 0;
    if s.ticks < s.sleeps[p].called + s.sleeps[p].need {
      OpenUntilDeadline(s, es[0], p);
      StepKeepsInv(s, es[0]);
      RunCountsTicks(s, es[..1]);
      k := DeadlineComes(Step(s, es[0]), es[1..], p);
      k := k + 1;
      assert es[..k][1..] == es[1..][..k - 1];
    }
  }

  /** What a sleeper does next once its deadline has passed: it returns, or first gets out of a loop
      body whose test came out true before. */
  function Next(call: SleepCall): Event {
    if call.again then PollSleep else EndSleep
  }

  /** After its deadline a sleeper that runs may go on; the clock has not come round yet. */
  lemma MayGoOn(t: Sched, p: nat)
    requires t.current == p && CurrentRuns(t) && p in t.sleeps
    requires var call := t.sleeps[p];
      && call.start == Wrap64(call.called)
      && call.called + call.need <= t.ticks < call.called + 0x1_0000_0000_0000_0000
    ensures Enabled(t, Next(t.sleeps[p]))
  {
    ElapsedIsTrue(t, t.sleeps[p]);
  }

  /** A sleep call asks for at most 2^64 / 10 ticks. */
  lemma NeedBounded(ms: u64)
    ensures SleepTicks(ms) <= 0x1999_9999_9999_9999
  {
  }

  /** From its deadline on, a sleeper either owns the CPU or is dispatched at most 100 ticks per
      non-idle process later.  It may return then, unless its last loop test came out true before the
      deadline and its loop body is still to come. */
  lemma WakesOnTime(s: Sched, es: seq<Event>, p: nat) returns (k: nat)
    requires Inv(s) && CanRun(s, es) && p in s.sleeps
    requires s.ticks == s.sleeps[p].called + s.sleeps[p].need
    requires Ticks(es) >= TIME_SLICE * (|s.procs| - 1)
    ensures k <= |es| && CanRun(s, es[..k])
    ensures var t := Run(s, es[..k]);
      && t.current == p && p in t.sleeps && t.sleeps[p] == s.sleeps[p]
      && Enabled(t, Next(s.sleeps[p]))
      && 0 <= t.ticks - s.ticks <= TIME_SLICE * (|s.procs| - 1)
  {
    k := DispatchedOnTime(s, es, p);
    RunCountsTicks(s, es[..k]);
    NeedBounded(s.sleeps[p].ms);
    MayGoOn(Run(s, es[..k]), p);
  }

  /** A loop body entered before the deadline costs one more round: after it the sleeper may return
      at most 100 ticks per non-idle process later. */
  lemma LateBodyCostsOneRound(s: Sched, es: seq<Event>) returns (k: nat)
    requires Inv(s) && Enabled(s, PollSleep) && CanRun(Step(s, PollSleep), es)
    requires Ticks(es) >= TIME_SLICE * (|s.procs| - 1)
    requires var call := s.sleeps[s.current];
      call.called + call.need <= s.ticks < call.called + 0x2000_0000_0000_0000
    ensures k <= |es| && CanRun(Step(s, PollSleep), es[..k])
    ensures var t := Run(Step(s, PollSleep), es[..k]);
      && t.current == s.current && Enabled(t, EndSleep) && Settled(t.sleeps[t.current]) == Settled(s.sleeps[s.current])
      && 0 <= t.ticks - s.ticks <= TIME_SLICE * (|s.procs| - 1)
  {
    var b := Step(s, PollSleep);
    var p: nat := s.current;
    StepKeepsInv(s, PollSleep);
    k := DispatchedOnTime(b, es, p);
    RunCountsTicks(b, es[..k]);
    NeedBounded(s.sleeps[p].ms);
    MayGoOn(Run(b, es[..k]), p);
  }

  lemma DispatchedOnTime(s: Sched, es: seq<Event>, p: nat) returns (k: nat)
    requires Inv(s) && CanRun(s, es) && p in s.sleeps
    requires Ticks(es) >= TIME_SLICE * (|s.procs| - 1)
    ensures k <= |es| && CanRun(s, es[..k]) && Ticks(es[..k]) <= TIME_SLICE * (|s.procs| - 1)
    ensures var t := Run(s, es[..k]);
      t.current == p && CurrentRuns(t) && p in t.sleeps && t.sleeps[p] == s.sleeps[p]
  {
    assert Placed(s, p);
    if p in s.queue {
      MeasureBound(s, p);
      k := BoundedWaiting(s, es, p);
    } else {
      k := 0;
      assert CanRun(s, es[..0]) && Run(s, es[..0]) == s;
    }
  }

  /** What is left of a run after its first i events. */
  lemma Remainder(s: Sched, es: seq<Event>, i: nat, d: Sched, rest: seq<Event>)
    requires Inv(s) && CanRun(s, es) && i <= |es| && CanRun(s, es[..i]) && d == Run(s, es[..i]) && rest == es[i..]
    ensures CanRun(d, rest) && Inv(d) && d.ticks + Ticks(rest) == s.ticks + Ticks(es)
    ensures |d.procs| <= |Run(s, es).procs|
  {
    RunSplit(s, es, i);
    RunKeepsInv(s, es[..i]);
    RunKeepsInv(d, rest);
    RunCountsTicks(s, es);
    RunCountsTicks(d, rest);
  }

  lemma RunCons(s: Sched, e: Event, rest: seq<Event>)
    requires Shaped(s) && Enabled(s, e) && CanRun(Step(s, e), rest)
    ensures CanRun(s, [e] + rest) && Run(s, [e] + rest) == Run(Step(s, e), rest)
  {
    assert ([e] + rest)[1..] == rest;
  }

  /** Runs join. */
  lemma {:induction false} RunJoins(s: Sched, a: seq<Event>, d: Sched, b: seq<Event>, t: Sched)
    requires CanRun(s, a) && d == Run(s, a) && CanRun(d, b) && t == Run(d, b)
    ensures CanRun(s, a + b) && Run(s, a + b) == t
    decreases |a|
  {
    if a == [] {
      assert a + b == b;
    } else {
      var rest := a[1..] + b;
      RunJoins(Step(s, a[0]), a[1..], d, b, t);
      RunCons(s, a[0], rest);
      assert a + b == [a[0]] + rest;
    }
  }

  /** A prefix of what is left after i events, as a prefix of the whole run. */
  lemma PrefixOfRest(s: Sched, es: seq<Event>, i: nat, j: nat, d: Sched, rest: seq<Event>, t: Sched)
    requires i <= |es| && CanRun(s, es[..i]) && d == Run(s, es[..i]) && rest == es[i..]
    requires j <= |rest| && CanRun(d, rest[..j]) && t == Run(d, rest[..j])
    ensures CanRun(s, es[..i + j]) && Run(s, es[..i + j]) == t
  {
    PrefixSplits(es, i, j);
    RunJoins(s, es[..i], d, rest[..j], t);
  }

  lemma PrefixSplits(es: seq<Event>, i: nat, j: nat)
    requires i + j <= |es|
    ensures es[..i + j] == es[..i] + es[i..][..j]
  {
  }

  /** p owns the CPU with the sleep call still open, so many ticks after it began. */
  ghost predicate Awake(t: Sched, p: int, call: SleepCall, atLeast: int, atMost: int) {
    && t.current == p && CurrentRuns(t) && p in t.sleeps && Settled(t.sleeps[p]) == Settled(call)
    && call.called + atLeast <= t.ticks <= call.called + atMost
  }

  lemma AwakeFromDeadline(d: Sched, es: seq<Event>, p: nat, call: SleepCall, n: nat) returns (j: nat, t: Sched)
    requires Inv(d) && CanRun(d, es) && p in d.sleeps && Settled(d.sleeps[p]) == Settled(call)
    requires d.ticks == call.called + call.need && |d.procs| <= n + 1 && Ticks(es) >= TIME_SLICE * n
    ensures j <= |es| && CanRun(d, es[..j]) && t == Run(d, es[..j])
    ensures Awake(t, p, call, call.need, call.need + TIME_SLICE * n)
  {
    j := DispatchedOnTime(d, es, p);
    RunCountsTicks(d, es[..j]);
    t := Run(d, es[..j]);
  }

  /** From its deadline, i events into the run, to its dispatch. */
  lemma AwakeAfterDeadline(b: Sched, es: seq<Event>, p: nat, call: SleepCall, i: nat, n: nat, d: Sched, rest: seq<Event>)
    returns (k: nat, t: Sched)
    requires i <= |es| && CanRun(b, es[..i]) && d == Run(b, es[..i]) && rest == es[i..] && CanRun(d, rest)
    requires Inv(d) && p in d.sleeps && Settled(d.sleeps[p]) == Settled(call) && d.ticks == call.called + call.need
    requires |d.procs| <= n + 1 && Ticks(rest) >= TIME_SLICE * n
    ensures k <= |es| && CanRun(b, es[..k]) && t == Run(b, es[..k])
    ensures Awake(t, p, call, call.need, call.need + TIME_SLICE * n)
  {
    var j;
    j, t := AwakeFromDeadline(d, rest, p, call, n);
    PrefixOfRest(b, es, i, j, d, rest, t);
    k := i + j;
  }

  lemma AwakeInTime(b: Sched, es: seq<Event>, p: nat, n: nat) returns (k: nat)
    requires Inv(b) && CanRun(b, es) && p in b.sleeps && b.sleeps[p].called == b.ticks
    requires |Run(b, es).procs| == n + 1 && Ticks(es) >= b.sleeps[p].need + TIME_SLICE * n
    ensures k <= |es| && CanRun(b, es[..k])
    ensures Awake(Run(b, es[..k]), p, b.sleeps[p], b.sleeps[p].need, b.sleeps[p].need + TIME_SLICE * n)
  {
    var i := DeadlineComes(b, es, p);
    Remainder(b, es, i, Run(b, es[..i]), es[i..]);
    var t;
    k, t := AwakeAfterDeadline(b, es, p, b.sleeps[p], i, n, Run(b, es[..i]), es[i..]);
  }

  lemma AwakeMayGoOn(t: Sched, p: int, call: SleepCall, n: nat)
    requires Inv(t) && n < MAX_PROCESSES && Awake(t, p, call, call.need, call.need + TIME_SLICE * n)
    ensures Enabled(t, Next(t.sleeps[p]))
  {
    NeedBounded(t.sleeps[p].ms);
    MayGoOn(t, p);
  }

  lemma EndCovers(t: Sched, call: SleepCall, n: nat)
    requires Inv(t) && Enabled(t, EndSleep) && n < MAX_PROCESSES && call.need == SleepTicks(call.ms)
    requires Awake(t, t.current, call, call.need, call.need + TIME_SLICE * n)
    requires call.ms <= 0x1_0000_0000_0000_0000 - 10 && 10 * (call.need + 100 * n) < 0x1_0000_0000_0000_0000
    ensures Step(t, EndSleep).frame.rax >= call.ms
  {
    ReportCovers(t);
  }

  /** Where the report of a sleep of ms milliseconds cannot wrap, with n processes besides idle. */
  predicate Modest(ms: u64, n: nat) {
    ms <= 0x1_0000_0000_0000_0000 - 10 && 10 * (SleepTicks(ms) + 100 * n) < 0x1_0000_0000_0000_0000
  }

  /** A caller of sleep owns the CPU again between the ticks it asked for and 100 ticks per non-idle
      process later, in every run with that many ticks.  It may then return, or finish a loop body it
      entered before its deadline (LateBodyCostsOneRound says what comes of that).  If it returns, it
      reports no less than it asked for, unless so long a wait could wrap. */
  lemma SleepGuarantee(s: Sched, ms: u64, es: seq<Event>) returns (k: nat)
    requires Inv(s) && Enabled(s, BeginSleep(ms)) && CanRun(Step(s, BeginSleep(ms)), es)
    requires Ticks(es) >= SleepTicks(ms) + TIME_SLICE * (|Run(Step(s, BeginSleep(ms)), es).procs| - 1)
    ensures k <= |es| && CanRun(Step(s, BeginSleep(ms)), es[..k])
    ensures var b := Step(s, BeginSleep(ms)); var t, n := Run(b, es[..k]), |Run(b, es).procs| - 1;
      && Inv(t) && Awake(t, s.current, b.sleeps[s.current], SleepTicks(ms), SleepTicks(ms) + TIME_SLICE * n)
      && Enabled(t, Next(t.sleeps[s.current]))
      && (Enabled(t, EndSleep) && Modest(ms, n) ==> Step(t, EndSleep).frame.rax >= ms)
  {
    var b := Step(s, BeginSleep(ms));
    var p: nat := s.current;
    StepKeepsInv(s, BeginSleep(ms));
    RunKeepsInv(b, es);
    var n: nat := |Run(b, es).procs| - 1;
    k := AwakeInTime(b, es, p, n);
    RunKeepsInv(b, es[..k]);
    var t := Run(b, es[..k]);
    AwakeMayGoOn(t, p, b.sleeps[p], n);
    if Enabled(t, EndSleep) && Modest(ms, n) {
      EndCovers(t, b.sleeps[p], n);
    }
  }

  // --- The report, for every return within the guarantee ---

  /** A return of a sleep of ms milliseconds, at most 100 ticks per process late, with n processes
      besides idle. */
  ghost predicate Returns(t: Sched, ms: u64, n: nat) {
    && Reachable(t) && Shaped(t) && |t.procs| == n + 1 && Enabled(t, EndSleep)
    && var call := t.sleeps[t.current];
      call.ms == ms && SleepTicks(ms) <= t.ticks - call.called <= SleepTicks(ms) + TIME_SLICE * n
  }

  lemma ReachableStep(s: Sched, e: Event)
    requires Reachable(s) && Enabled(s, e)
    ensures Shaped(s) && Reachable(Step(s, e)) && Inv(Step(s, e))
  {
    ReachableInv(s);
    var boot, entry, stack, es :|
      CanRun(Boot(boot, entry, stack), es) && Run(Boot(boot, entry, stack), es) == s;
    RunSnoc(Boot(boot, entry, stack), es, e);
    StepKeepsInv(s, e);
  }

  /** Process 1, all by itself, on the CPU. */
  ghost predicate Alone(s: Sched) {
    Reachable(s) && Inv(s) && |s.procs| == 2 && s.current == 1 && CurrentRuns(s)
  }

  lemma FirstTick(s: Sched)
    requires Shaped(s) && s.current == -1
    ensures Step(s, Tick).current == 0 && Step(s, Tick).queue == s.queue
    ensures |Step(s, Tick).procs| == |s.procs| && Step(s, Tick).sleeps == s.sleeps
  {
    TickSchedules(s);
  }

  lemma FirstDispatch(s: Sched)
    requires Reachable(s) && Inv(s) && s.current == 0 && s.queue == [1] && |s.procs| == 2
    ensures Alone(Step(s, Tick)) && Step(s, Tick).sleeps == s.sleeps
  {
    TickSchedules(s);
    ReachableStep(s, Tick);
  }

  lemma BootIsReachable(boot: Context, entry: u64, stack: u64)
    ensures Reachable(Boot(boot, entry, stack))
  {
    var b := Boot(boot, entry, stack);
    assert CanRun(b, []) && Run(b, []) == b;
  }

  lemma Created(s: Sched, entry: u64, kernelTask: bool, stack: u64)
    requires Reachable(s) && |s.procs| < MAX_PROCESSES
    ensures Shaped(s)
    ensures var t := Step(s, Create(entry, kernelTask, stack));
      && Reachable(t) && Inv(t) && |t.procs| == |s.procs| + 1 && t.queue == s.queue + [|s.procs|]
      && t.current == s.current && t.ticks == s.ticks && t.sleeps == s.sleeps && (CurrentRuns(s) ==> CurrentRuns(t))
  {
    ReachableStep(s, Create(entry, kernelTask, stack));
  }

  lemma AloneAfterBoot(boot: Context, stack: u64) returns (s: Sched)
    ensures Alone(s) && s.sleeps == map[]
  {
    s := Boot(boot, 0, stack);
    BootIsReachable(boot, 0, stack);
    Created(s, 0, false, stack);
    s := Step(s, Create(0, false, stack));
    FirstTick(s);
    ReachableStep(s, Tick);
    s := Step(s, Tick);
    FirstDispatch(s);
    s := Step(s, Tick);
  }

  lemma AloneTicks(s: Sched)
    requires Alone(s)
    ensures Alone(Step(s, Tick)) && Step(s, Tick).ticks == s.ticks + 1 && Step(s, Tick).sleeps == s.sleeps
  {
    QueueFits(s);
    TickSchedules(s);
    ReachableStep(s, Tick);
  }

  lemma {:induction false} AloneFor(s: Sched, k: nat) returns (t: Sched)
    requires Alone(s)
    ensures Alone(t) && t.ticks == s.ticks + k && t.sleeps == s.sleeps
    decreases k
  {
    t := s;
    if k > 0 {
      t := AloneFor(s, k - 1);
      AloneTicks(t);
      t := Step(t, Tick);
    }
  }

  /** Processes created meanwhile wait behind the one that runs. */
  lemma {:induction false} JoinedBy(s: Sched, k: nat) returns (t: Sched)
    requires Alone(s) && 2 + k <= MAX_PROCESSES
    ensures Reachable(t) && Inv(t) && CurrentRuns(t) && |t.procs| == 2 + k
    ensures t.current == 1 && t.ticks == s.ticks && t.sleeps == s.sleeps
    decreases k
  {
    t := s;
    if k > 0 {
      t := JoinedBy(s, k - 1);
      Created(t, 0, false, 0);
      t := Step(t, Create(0, false, 0));
    }
  }

  /** Every lateness up to 100 ticks per non-idle process does happen. */
  lemma LateReturn(ms: u64, n: nat, late: nat) returns (t: Sched)
    requires 1 <= n < MAX_PROCESSES && late <= TIME_SLICE * n
    ensures Inv(t) && Returns(t, ms, n) && t.ticks - t.sleeps[t.current].called == SleepTicks(ms) + late
  {
    var s := AloneAfterBoot(ZERO_CONTEXT, 0);
    ReachableStep(s, BeginSleep(ms));
    var b := Step(s, BeginSleep(ms));
    t := AloneFor(b, SleepTicks(ms) + late);
    t := JoinedBy(t, n - 1);
    NeedBounded(ms);
    MayGoOn(t, 1);
  }

  /** Every return within the guarantee reports the requested time or more exactly when ten times the
      longest guaranteed wait fits in 64 bits. */
  lemma ReportCoversRequestExactly(ms: u64, n: nat)
    requires ms <= 0x1_0000_0000_0000_0000 - 10 && 1 <= n < MAX_PROCESSES
    ensures (forall t :: Returns(t, ms, n) ==> Step(t, EndSleep).frame.rax >= ms)
       <==> Modest(ms, n)
  {
    if Modest(ms, n) {
      forall t | Returns(t, ms, n) ensures Step(t, EndSleep).frame.rax >= ms {
        ReachableInv(t);
        ReportCovers(t);
      }
    } else {
      var t := LateReturn(ms, n, 100 * n);
      ReportCovers(t);
    }
  }

  lemma LateByOne()
    ensures Wrap64(10 * Wrap64(SleepTicks(0x1_0000_0000_0000_0000 - 10) + 1)) == 4
  {
  }

  /** A request that does not wrap the rounding can still report almost nothing: after one tick of
      lateness a sleep of 2^64 - 10 ms reports 4. */
  lemma LongSleepMisreports() returns (t: Sched)
    ensures Inv(t) && Returns(t, 0x1_0000_0000_0000_0000 - 10, 1)
    ensures Step(t, EndSleep).frame.rax == 4
  {
    t := LateReturn(0x1_0000_0000_0000_0000 - 10, 1, 1);
    ReportIsTenfold(t, t.sleeps[t.current]);
    ReportGiven(t);
    LateByOne();
  }
}
