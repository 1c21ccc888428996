/** Sleep and blocking waits: exactness over runs, and when a wait ends by itself. */
module Sleeping {
  import opened Common
  import opened Scheduling

  // ---- Steps of a wait ----

  /** Thread `t` is blocked with deadline `d`, 0 for none. */
  ghost predicate Waits(s: Sched, t: nat, d: u64) {
    Inv(s) && Is(s.threads, t, Blocked) && s.sleepUntil[t] == d
  }

  /** How many ticks a set deadline is away; one that is passed is due at the next tick, unless the count wraps. */
  function TicksLeft(ticks: u64, d: u64): nat {
    if d > ticks then d - ticks else if ticks + 1 < TICKS_MOD then 1 else d + 1
  }

  /** A blocked thread is made ready by a tick exactly when its deadline is set and has come. */
  lemma TickWakes(s: Sched, t: nat)
    requires Inv(s) && Is(s.threads, t, Blocked)
    ensures Is(Tick(s).threads, t, Blocked) <==> !(0 < s.sleepUntil[t] <= (s.ticks + 1) % TICKS_MOD)
    ensures !Is(Tick(s).threads, t, Blocked) ==> Runnable(Tick(s).threads, t)
  {
    var u := s.(ticks := (s.ticks + 1) % TICKS_MOD);
    var w := Wake(u);
    assert Due(u, t) <==> 0 < s.sleepUntil[t] <= (s.ticks + 1) % TICKS_MOD;
    if Is(w.threads, t, Blocked) {
      ScheduleKeepsStopped(w, t, Blocked);
    } else {
      PickIsLastOfTheBest(Turned(w.threads, w.current, Running, Ready), w.current);
    }
  }

  /** A thread that outranks everything else that can run is running after `schedule`. */
  lemma HighestRuns(s: Sched, t: nat)
    requires Inv(s) && Runnable(Schedule(s).threads, t)
    requires forall j: nat :: j != t && Runnable(Schedule(s).threads, j) ==>
      PriorityOf(Schedule(s).threads, j) < PriorityOf(Schedule(s).threads, t)
    ensures Schedule(s).current == t && Is(Schedule(s).threads, t, Running)
  {
    ScheduleSelects(s);
  }

  /** Calls that end the wait of `t` or change its deadline: `unblock_thread`, or its own after one that returned. */
  predicate Disturbs(s: Sched, op: Op, t: nat, d: u64) {
    match op
    case OpUnblock(slot) => slot == t
    case OpExit => s.current == t
    case OpSleep(n) => s.current == t && (s.ticks + n) % TICKS_MOD != d
    case _ => false
  }

  /** One step of a waiting thread: it goes on waiting unless the call disturbs it or is the tick that is due. */
  lemma StepWhileWaiting(s: Sched, op: Op, t: nat, d: u64)
    requires Waits(s, t, d)
    ensures Waits(Step(s, op), t, d)
       <==> !Disturbs(s, op, t, d) && !(op.OpTick? && d != 0 && TicksLeft(s.ticks, d) == 1)
    ensures if op.OpTick? then Step(s, op).ticks == (s.ticks + 1) % TICKS_MOD else Step(s, op).ticks == s.ticks
  {
    StepKeepsInv(s, op);
    match op
    case OpSpawn(_, _, _) =>
    case OpTick => TickOnWait(s, t, d);
    case OpYield => ScheduleKeepsStopped(s, t, Blocked);
    case OpSleep(n) =>
      ScheduleKeepsStopped(s.(threads := WithState(s.threads, s.current, Blocked),
                              sleepUntil := s.sleepUntil[s.current := (s.ticks + n) % TICKS_MOD]), t, Blocked);
    case OpBlock => ScheduleKeepsStopped(s.(threads := WithState(s.threads, s.current, Blocked)), t, Blocked);
    case OpExit =>
      ScheduleKeepsStopped(s.(threads := WithState(s.threads, s.current, Dead)), t,
                           if s.current == t then Dead else Blocked);
    case OpUnblock(_) =>
  }

  lemma TickOnWait(s: Sched, t: nat, d: u64)
    requires Waits(s, t, d)
    ensures Waits(Tick(s), t, d) <==> !(d != 0 && TicksLeft(s.ticks, d) == 1)
    ensures Tick(s).ticks == (s.ticks + 1) % TICKS_MOD
  {
    var w := Wake(s.(ticks := (s.ticks + 1) % TICKS_MOD));
    StepKeepsInv(s, OpTick);
    TickWakes(s, t);
    if Is(w.threads, t, Blocked) {
      ScheduleKeepsStopped(w, t, Blocked);
    }
  }

  /** Over its run no call disturbs the wait. */
  predicate Undisturbed(s: Sched, ops: seq<Op>, t: nat, d: u64)
    requires Shaped(s)
    decreases |ops|
  {
    |ops| > 0 ==> !Disturbs(s, ops[0], t, d) && Undisturbed(Step(s, ops[0]), ops[1..], t, d)
  }

  function TicksIn(ops: seq<Op>): nat {
    if |ops| == 0 then 0 else (if ops[0].OpTick? then 1 else 0) + TicksIn(ops[1..])
  }

  /** Undisturbed, the wait lasts as long as the deadline is ahead, and for ever without one. */
  lemma {:induction false} WaitsUntilDeadline(s: Sched, ops: seq<Op>, t: nat, d: u64)
    requires Waits(s, t, d) && Undisturbed(s, ops, t, d)
    requires d == 0 || TicksIn(ops) < TicksLeft(s.ticks, d)
    ensures Waits(Run(s, ops), t, d)
    ensures d != 0 ==> TicksLeft(Run(s, ops).ticks, d) == TicksLeft(s.ticks, d) - TicksIn(ops)
    decreases |ops|
  {
    hide Step, Disturbs, Is;
    if |ops| != 0 {
      StepWhileWaiting(s, ops[0], t, d);
      WaitsUntilDeadline(Step(s, ops[0]), ops[1..], t, d);
    }
  }

  /** A change of the current thread is a switch to a running one. */
  lemma SwitchRuns(s: Sched, op: Op)
    requires Inv(s)
    ensures Step(s, op).current != s.current ==> Is(Step(s, op).threads, Step(s, op).current, Running)
  {
    match op
    case OpTick => ScheduleRuns(Wake(s.(ticks := (s.ticks + 1) % TICKS_MOD)));
    case OpYield => ScheduleRuns(s);
    case OpSleep(n) =>
      ScheduleRuns(s.(threads := WithState(s.threads, s.current, Blocked),
                      sleepUntil := s.sleepUntil[s.current := (s.ticks + n) % TICKS_MOD]));
    case OpBlock => ScheduleRuns(s.(threads := WithState(s.threads, s.current, Blocked)));
    case OpExit => ScheduleRuns(s.(threads := WithState(s.threads, s.current, Dead)));
    case _ =>
  }

  lemma ScheduleRuns(s: Sched)
    requires Shaped(s)
    ensures Schedule(s).current != s.current ==> Is(Schedule(s).threads, Schedule(s).current, Running)
  {
    if s.active && s.current >= 0 {
      PickIsLastOfTheBest(Turned(s.threads, s.current, Running, Ready), s.current);
    }
  }

  /** Once the processor has left the waiting thread, only `unblock_thread` on it disturbs the wait. */
  lemma {:induction false} SwitchedAwayIsUndisturbed(s: Sched, ops: seq<Op>, t: nat, d: u64)
    requires Waits(s, t, d) && s.current != t && OpUnblock(t) !in ops
    requires d == 0 || TicksIn(ops) < TicksLeft(s.ticks, d)
    ensures Undisturbed(s, ops, t, d)
    decreases |ops|
  {
    hide Step, Is, WithState, Schedule;
    if |ops| != 0 {
      StepWhileWaiting(s, ops[0], t, d);
      SwitchRuns(s, ops[0]);
      DifferentStates(Step(s, ops[0]).threads, t);
      SwitchedAwayIsUndisturbed(Step(s, ops[0]), ops[1..], t, d);
    }
  }

  lemma DifferentStates(threads: Threads, t: nat)
    ensures Is(threads, t, Blocked) ==> !Is(threads, t, Running)
  {
  }

  // ---- Sleep ----

  /** Thread `t` outranks everything else that can run. */
  ghost predicate Outranks(s: Sched, t: nat) {
    forall j: nat :: j != t && Runnable(s.threads, j) ==> PriorityOf(s.threads, j) < PriorityOf(s.threads, t)
  }

  /** The tick of the deadline makes the sleeper ready, and runs it if it outranks the others. */
  lemma WakesOnTime(s: Sched, t: nat, d: u64)
    requires Waits(s, t, d) && d != 0 && TicksLeft(s.ticks, d) == 1
    ensures Runnable(Tick(s).threads, t)
    ensures Outranks(Tick(s), t) ==> Tick(s).current == t && Is(Tick(s).threads, t, Running)
  {
    TickWakes(s, t);
    WakeKeepsInv(s);
    var w := Wake(s.(ticks := (s.ticks + 1) % TICKS_MOD));
    assert Tick(s) == Schedule(w);
    hide Wake, Schedule, Tick;
    if Outranks(Schedule(w), t) {
      HighestRuns(w, t);
    }
  }

  lemma WakeKeepsInv(s: Sched)
    requires Inv(s)
    ensures var w := Wake(s.(ticks := (s.ticks + 1) % TICKS_MOD));
      Inv(w) && w.current == s.current && w.ticks == (s.ticks + 1) % TICKS_MOD
  {
  }

  /** The deadline of a sleep is as far away as was asked for, unless it wraps round the tick counter. */
  lemma DeadlineIsExactIff(ticks: u64, n: u64)
    requires (ticks + n) % TICKS_MOD != 0
    ensures TicksLeft(ticks, (ticks + n) % TICKS_MOD) == n
       <==> n >= 1 && (ticks + n < TICKS_MOD || ticks + 1 == TICKS_MOD)
  {
    var d := (ticks + n) % TICKS_MOD;
    assert d == if ticks + n < TICKS_MOD then ticks + n else ticks + n - TICKS_MOD;
  }

  /**
   `sleep_ticks(n)` blocks the caller, and the call returns at once when no other thread is ready.
   Over every run that does not disturb the wait the caller is blocked as long as fewer ticks have
   passed than its deadline was away, can run after that tick, and does run if its priority is
   above that of everything else that can; with a deadline of 0 it is blocked for ever.
   */
  lemma SleepIsExact(s: Sched, n: u64, ops: seq<Op>)
    requires Inv(s)
    requires Undisturbed(SleepTicks(s, n), ops, s.current, (s.ticks + n) % TICKS_MOD)
    ensures var t, d, r := s.current as nat, (s.ticks + n) % TICKS_MOD, Run(SleepTicks(s, n), ops);
      && (SleepTicks(s, n).current == t <==> forall j: nat :: j != t ==> !Is(s.threads, j, Ready))
      && (d == 0 || TicksIn(ops) < TicksLeft(s.ticks, d) ==> Is(r.threads, t, Blocked))
      && (d != 0 && TicksIn(ops) + 1 == TicksLeft(s.ticks, d) ==>
            && Runnable(Tick(r).threads, t)
            && (Outranks(Tick(r), t) ==> Tick(r).current == t && Is(Tick(r).threads, t, Running)))
  {
    var t, d, r := s.current, (s.ticks + n) % TICKS_MOD, SleepTicks(s, n);
    SleepStarts(s, n);
    hide SleepTicks, Tick, Is, Runnable, Outranks;
    if d == 0 || TicksIn(ops) < TicksLeft(s.ticks, d) {
      WaitsUntilDeadline(r, ops, t, d);
      if d != 0 && TicksIn(ops) + 1 == TicksLeft(s.ticks, d) {
        WakesOnTime(Run(r, ops), t, d);
      }
    }
  }

  lemma SleepStarts(s: Sched, n: u64)
    requires Inv(s)
    ensures Waits(SleepTicks(s, n), s.current, (s.ticks + n) % TICKS_MOD) && SleepTicks(s, n).ticks == s.ticks
    ensures SleepTicks(s, n).current == s.current <==> forall j: nat :: j != s.current ==> !Is(s.threads, j, Ready)
  {
    var t, d := s.current, (s.ticks + n) % TICKS_MOD;
    var u := s.(sleepUntil := s.sleepUntil[t := d]);
    StopSwitchesIff(u, Blocked);
    ScheduleKeepsStopped(u.(threads := WithState(u.threads, t, Blocked)), t, Blocked);
  }

  /**
   `unblock_thread` leaves the deadline behind.  A sleeper that was unblocked, ran, and then blocked
   to wait for something else is again a sleeper with the old deadline, which will end its wait.
   */
  lemma StaleDeadline(s: Sched, t: nat, d: u64)
    requires Waits(s, t, d) && d != 0 && TicksLeft(s.ticks, d) > 1
    requires var r := Tick(Unblock(s, t)); r.current == t && Is(r.threads, t, Running)
    ensures Waits(Stop(Tick(Unblock(s, t)), Blocked), t, d)
  {
    var u := Unblock(s, t);
    StepKeepsInv(s, OpUnblock(t));
    StepKeepsInv(u, OpTick);
    var w := Wake(u.(ticks := (u.ticks + 1) % TICKS_MOD));
    PickIsLastOfTheBest(Turned(w.threads, w.current, Running, Ready), w.current);
    var r := Tick(u);
    assert r.sleepUntil[t] == d;
    StepKeepsInv(r, OpBlock);
    ScheduleKeepsStopped(r.(threads := WithState(r.threads, t, Blocked)), t, Blocked);
  }

  // ---- When a wait ends ----

  function TickOps(n: nat): seq<Op> {
    if n == 0 then [] else [OpTick] + TickOps(n - 1)
  }

  /** Ticks are runs of their own kind, and disturb no wait. */
  lemma {:induction false} TicksAreRuns(s: Sched, n: nat, t: nat, d: u64)
    requires Shaped(s)
    ensures Run(s, TickOps(n)) == Ticks(s, n) && Undisturbed(s, TickOps(n), t, d)
    decreases n
  {
    if n != 0 {
      TicksAreRuns(Tick(s), n - 1, t, d);
      assert TickOps(n)[1..] == TickOps(n - 1);
    }
  }

  /** A set deadline comes: some tick ends the wait. */
  lemma {:induction false} DeadlineComes(s: Sched, t: nat, d: u64) returns (n: nat)
    requires Waits(s, t, d) && d != 0
    ensures !Is(Ticks(s, n).threads, t, Blocked)
    decreases TicksLeft(s.ticks, d)
  {
    hide Tick;
    var r := Tick(s);
    assert Ticks(r, 0) == r;
    TickOnWait(s, t, d);
    if TicksLeft(s.ticks, d) == 1 {
      WakesOnTime(s, t, d);
      n := 1;
    } else {
      n := DeadlineComes(r, t, d);
      n := n + 1;
    }
  }

  /** A wait ends by ticks alone, and by any run that does not disturb it, if and only if a deadline is set. */
  lemma WaitEndsIffDeadlineSet(s: Sched, t: nat)
    requires Inv(s) && Is(s.threads, t, Blocked)
    ensures (exists n: nat :: !Is(Ticks(s, n).threads, t, Blocked)) <==> s.sleepUntil[t] != 0
    ensures (exists ops :: Undisturbed(s, ops, t, s.sleepUntil[t]) && !Is(Run(s, ops).threads, t, Blocked))
       <==> s.sleepUntil[t] != 0
  {
    var d := s.sleepUntil[t];
    if d == 0 {
      forall ops | Undisturbed(s, ops, t, d) ensures Is(Run(s, ops).threads, t, Blocked) {
        WaitsUntilDeadline(s, ops, t, d);
      }
      forall n: nat ensures Is(Ticks(s, n).threads, t, Blocked) {
        TicksAreRuns(s, n, t, d);
        WaitsUntilDeadline(s, TickOps(n), t, d);
      }
    } else {
      var n := DeadlineComes(s, t, d);
      TicksAreRuns(s, n, t, d);
    }
  }

  /**
   `block_current` blocks the caller until `unblock_thread` if and only if no deadline is left from an
   earlier sleep; the call returns at once when no other thread is ready.
   */
  lemma BlockEndsIffDeadlineLeft(s: Sched)
    requires Inv(s)
    ensures var t, r := s.current as nat, Stop(s, Blocked);
      && Inv(r) && Is(r.threads, t, Blocked)
      && (r.current == t <==> forall j: nat :: j != t ==> !Is(s.threads, j, Ready))
      && ((exists n: nat :: !Is(Ticks(r, n).threads, t, Blocked)) <==> s.sleepUntil[t] != 0)
  {
    StopSwitchesIff(s, Blocked);
    ScheduleKeepsStopped(s.(threads := WithState(s.threads, s.current, Blocked)), s.current, Blocked);
    WaitEndsIffDeadlineSet(Stop(s, Blocked), s.current);
  }

  /**
   The wait of `sleep_ticks(n)` ends by itself if and only if its deadline is not 0, as it is with
   `sleep_ticks(0)` at tick 0; the call returns at once when no other thread is ready.
   */
  lemma SleepEndsIffDeadlineSet(s: Sched, n: u64)
    requires Inv(s)
    ensures var t, r := s.current as nat, SleepTicks(s, n);
      && Inv(r) && Is(r.threads, t, Blocked)
      && (r.current == t <==> forall j: nat :: j != t ==> !Is(s.threads, j, Ready))
      && ((exists k: nat :: !Is(Ticks(r, k).threads, t, Blocked)) <==> (s.ticks + n) % TICKS_MOD != 0)
  {
    hide Schedule, Tick, Ticks, SleepTicks;
    SleepStarts(s, n);
    WaitEndsIffDeadlineSet(SleepTicks(s, n), s.current);
  }

  // ---- The stale deadline is reached ----

  /** The idle thread in slot 0 and one thread of normal priority in slot 1, with deadline `d`. */
  ghost predicate Pair(s: Sched, idle: TaskState, other: TaskState, current: int, ticks: nat, d: nat) {
    && Inv(s) && s.current == current && s.ticks == ticks && s.sleepUntil[0] == 0 && s.sleepUntil[1] == d
    && Is(s.threads, 0, idle) && Is(s.threads, 1, other)
    && PriorityOf(s.threads, 0) == IDLE && PriorityOf(s.threads, 1) == NORMAL
    && forall j: nat :: 2 <= j < MAX_THREADS ==> s.threads[j].None? && s.sleepUntil[j] == 0
  }

  lemma PairSchedules(s: Sched, ticks: nat, d: nat)
    requires Pair(s, Running, Ready, 0, ticks, d)
    ensures Pair(Schedule(s), Ready, Running, 1, ticks, d)
  {
    StepKeepsInv(s, OpYield);
    ScheduleSelects(s);
    assert Runnable(s.threads, 1);
  }

  /** A tick that is not due hands the processor to the ready thread of higher priority. */
  lemma PairTicks(s: Sched, ticks: nat, d: nat)
    requires Pair(s, Running, Ready, 0, ticks, d) && ticks + 1 < TICKS_MOD && (d == 0 || ticks + 1 < d)
    ensures Pair(Tick(s), Ready, Running, 1, ticks + 1, d)
  {
    PairSchedules(Wake(s.(ticks := (s.ticks + 1) % TICKS_MOD)), ticks + 1, d);
  }

  /** When that thread blocks, the idle thread runs. */
  lemma PairBlocks(s: Sched, ticks: nat, d: nat)
    requires Pair(s, Ready, Running, 1, ticks, d)
    ensures Pair(Stop(s, Blocked), Running, Blocked, 0, ticks, d)
  {
    var u := s.(threads := WithState(s.threads, 1, Blocked));
    StepKeepsInv(s, OpBlock);
    ScheduleSelects(u);
    ScheduleKeepsStopped(u, 1, Blocked);
    assert Runnable(u.threads, 0);
  }

  /**
   From boot: a thread is spawned and runs, sleeps for ten ticks, is unblocked at once, runs, and
   blocks for something else.  Its old deadline is still set, so ticks alone end that wait.
   */
  lemma StaleDeadlineIsReached()
    ensures var ops := [OpSpawn(true, [], NORMAL), OpTick, OpSleep(10), OpUnblock(1), OpTick, OpBlock];
      var s := Run(Init(Blank()), ops);
        && Inv(s) && Is(s.threads, 1, Blocked) && s.sleepUntil[1] == 11
        && exists n: nat :: !Is(Ticks(s, n).threads, 1, Blocked)
  {
    var s0 := Init(Blank());
    var s1 := Step(s0, OpSpawn(true, [], NORMAL));
    assert Pair(s1, Running, Ready, 0, 0, 0);
    var s2 := Step(s1, OpTick);
    PairTicks(s1, 0, 0);
    var s3 := Step(s2, OpSleep(10));
    PairBlocks(s2.(sleepUntil := s2.sleepUntil[1 := 11]), 1, 11);
    var s4 := Step(s3, OpUnblock(1));
    assert Pair(s4, Running, Ready, 0, 1, 11);
    var s5 := Step(s4, OpTick);
    PairTicks(s4, 1, 11);
    var s6 := Step(s5, OpBlock);
    PairBlocks(s5, 2, 11);
    WaitEndsIffDeadlineSet(s6, 1);
    SixSteps(s0, OpSpawn(true, [], NORMAL), OpTick, OpSleep(10), OpUnblock(1), OpTick, OpBlock);
  }

  lemma SixSteps(s: Sched, a: Op, b: Op, c: Op, d: Op, e: Op, f: Op)
    requires Shaped(s)
    ensures var s1 := Step(s, a);
      var s2 := Step(s1, b);
      var s3 := Step(s2, c);
      var s4 := Step(s3, d);
      var s5 := Step(s4, e);
      Run(s, [a, b, c, d, e, f]) == Step(s5, f)
  {
    hide Step;
    var s1 := Step(s, a);
    var s2 := Step(s1, b);
    var s3 := Step(s2, c);
    var s4 := Step(s3, d);
    var s5 := Step(s4, e);
    FirstStep(s, [a, b, c, d, e, f], [b, c, d, e, f]);
    FirstStep(s1, [b, c, d, e, f], [c, d, e, f]);
    FirstStep(s2, [c, d, e, f], [d, e, f]);
    FirstStep(s3, [d, e, f], [e, f]);
    FirstStep(s4, [e, f], [f]);
    FirstStep(s5, [f], []);
  }

  lemma FirstStep(s: Sched, ops: seq<Op>, rest: seq<Op>)
    requires Shaped(s) && |ops| > 0 && ops[1..] == rest
    ensures Run(s, ops) == Run(Step(s, ops[0]), rest) && Run(s, []) == s
  {
  }
}
