/**
 The thread scheduler: a table of 64 threads with fixed priorities, a tick counter and one
 wake-up deadline for each slot.  The functions here describe every entry point on values;
 class `ThreadTable.Scheduler` performs them.
 */
module Scheduling {
  import opened Common

  const MAX_THREADS: nat := 64
  const TICKS_MOD: nat := 0x1_0000_0000_0000_0000

  datatype TaskState = Created | Ready | Running | Blocked | Dead

  /** Idle 0, Low 1, Normal 2, High 3, Realtime 4. */
  type Priority = p: nat | p <= 4

  const IDLE: Priority := 0
  const NORMAL: Priority := 2

  /** At most 31 bytes of a name are stored. */
  datatype Thread = Thread(tid: nat, pid: nat, priority: Priority, state: TaskState, name: seq<byte>)

  type Threads = seq<Option<Thread>>

  /** `kernelThreads` is the thread count of process 0, once there is one. */
  datatype Sched = Sched(
    threads: Threads, current: int, ticks: u64, sleepUntil: seq<u64>, active: bool, nextTid: nat, nextPid: nat,
    kernelThreads: Option<nat>)

  predicate Is(threads: Threads, i: int, state: TaskState) {
    0 <= i < |threads| && threads[i].Some? && threads[i].value.state == state
  }

  function PriorityOf(threads: Threads, i: nat): Priority {
    if i < |threads| && threads[i].Some? then threads[i].value.priority else IDLE
  }

  function WithState(threads: Threads, i: nat, state: TaskState): (r: Threads)
    requires i < |threads|
    ensures |r| == |threads|
    ensures forall j: int, st ::
      Is(r, j, st) <==> if j == i then threads[i].Some? && st == state else Is(threads, j, st)
    ensures forall j: nat :: PriorityOf(r, j) == PriorityOf(threads, j)
  {
    if threads[i].None? then threads else threads[i := Some(threads[i].value.(state := state))]
  }

  /** From `from` to `to`, and no change in any other state. */
  function Turned(threads: Threads, i: nat, from: TaskState, to: TaskState): (r: Threads)
    requires i < |threads|
    ensures |r| == |threads|
    ensures forall j: int, st ::
      Is(r, j, st) <==> if j == i && Is(threads, i, from) then st == to else Is(threads, j, st)
    ensures forall j: nat :: PriorityOf(r, j) == PriorityOf(threads, j)
  {
    if Is(threads, i, from) then WithState(threads, i, to) else threads
  }

  // ---- Selection ----

  /** The slot `k` places after `cur`, around the table. */
  function SlotAfter(cur: nat, k: nat): (i: nat)
    requires cur < MAX_THREADS && k <= MAX_THREADS
    ensures i < MAX_THREADS && i == (cur + k) % MAX_THREADS
  {
    if cur + k < MAX_THREADS then cur + k else cur + k - MAX_THREADS
  }

  /** How far slot `i` lies after `cur`: from 1 for the next slot to 64 for `cur` itself. */
  function Distance(cur: nat, i: nat): nat
    requires cur < MAX_THREADS && i < MAX_THREADS
  {
    if i > cur then i - cur else i + MAX_THREADS - cur
  }

  datatype Choice = Choice(slot: Option<nat>, priority: Priority)

  /** The best ready thread among the first `n` slots after `cur`; a later one wins a tie. */
  function Scan(threads: Threads, cur: nat, n: nat): Choice
    requires |threads| == MAX_THREADS && cur < MAX_THREADS && n <= MAX_THREADS
  {
    if n == 0 then Choice(None, IDLE)
    else
      var best, i := Scan(threads, cur, n - 1), SlotAfter(cur, n);
      if Is(threads, i, Ready) && PriorityOf(threads, i) >= best.priority then Choice(Some(i), PriorityOf(threads, i))
      else best
  }

  function Pick(threads: Threads, cur: nat): Option<nat>
    requires |threads| == MAX_THREADS && cur < MAX_THREADS
  {
    Scan(threads, cur, MAX_THREADS).slot
  }

  /** `i` beats every other ready thread: higher priority, or the same and further round the table. */
  ghost predicate LastOfTheBest(threads: Threads, cur: nat, i: nat)
    requires |threads| == MAX_THREADS && cur < MAX_THREADS
  {
    && Is(threads, i, Ready)
    && forall j: nat :: j != i && Is(threads, j, Ready) ==>
         || PriorityOf(threads, j) < PriorityOf(threads, i)
         || (PriorityOf(threads, j) == PriorityOf(threads, i) && Distance(cur, j) < Distance(cur, i))
  }

  lemma {:induction false} ScanIsLastOfTheBest(threads: Threads, cur: nat, n: nat)
    requires |threads| == MAX_THREADS && cur < MAX_THREADS && n <= MAX_THREADS
    ensures var best := Scan(threads, cur, n);
      && (best.slot.None? ==> best.priority == IDLE)
      && (best.slot.None? <==> forall j: nat :: Is(threads, j, Ready) ==> Distance(cur, j) > n)
      && (best.slot.Some? ==>
            var i := best.slot.value;
            && Is(threads, i, Ready) && Distance(cur, i) <= n && best.priority == PriorityOf(threads, i)
            && forall j: nat :: j != i && Is(threads, j, Ready) && Distance(cur, j) <= n ==>
                 || PriorityOf(threads, j) < PriorityOf(threads, i)
                 || (PriorityOf(threads, j) == PriorityOf(threads, i) && Distance(cur, j) < Distance(cur, i)))
  {
    if n != 0 {
      ScanIsLastOfTheBest(threads, cur, n - 1);
      var i := SlotAfter(cur, n);
      assert forall j: nat :: j < MAX_THREADS && Distance(cur, j) == n ==> j == i;
      assert Distance(cur, i) == n;
    }
  }

  /** The scan finds nothing exactly when nothing is ready, and otherwise the unique last of the best. */
  lemma PickIsLastOfTheBest(threads: Threads, cur: nat)
    requires |threads| == MAX_THREADS && cur < MAX_THREADS
    ensures Pick(threads, cur).None? <==> forall j: nat :: !Is(threads, j, Ready)
    ensures forall i: nat :: Pick(threads, cur) == Some(i) <==> LastOfTheBest(threads, cur, i)
  {
    ScanIsLastOfTheBest(threads, cur, MAX_THREADS);
    assert forall j: nat :: j < MAX_THREADS ==> Distance(cur, j) <= MAX_THREADS;
  }

  // ---- The entry points as functions ----

  predicate Shaped(s: Sched) {
    |s.threads| == |s.sleepUntil| == MAX_THREADS && -1 <= s.current < MAX_THREADS
  }

  /** Makes the chosen thread, or the current one when nothing was ready, the running one. */
  function Dispatch(threads: Threads, cur: nat, next: Option<nat>): (r: (Threads, nat))
    requires |threads| == MAX_THREADS && cur < MAX_THREADS && (next.Some? ==> next.value < MAX_THREADS)
    ensures |r.0| == MAX_THREADS && r.1 < MAX_THREADS
  {
    match next
    case None => (Turned(threads, cur, Ready, Running), cur)
    case Some(i) => (WithState(threads, i, Running), i)
  }

  function Schedule(s: Sched): (r: Sched)
    requires Shaped(s)
    ensures Shaped(r)
  {
    if !s.active || s.current < 0 then s
    else
      var threads := Turned(s.threads, s.current, Running, Ready);
      PickIsLastOfTheBest(threads, s.current);
      var (after, current) := Dispatch(threads, s.current, Pick(threads, s.current));
      s.(threads := after, current := current)
  }

  /** The calls by which the running thread stops: `block_current` and `exit_current`. */
  function Stop(s: Sched, state: TaskState): (r: Sched)
    requires Shaped(s)
    ensures Shaped(r)
  {
    if s.current < 0 then s else Schedule(s.(threads := WithState(s.threads, s.current, state)))
  }

  function SleepTicks(s: Sched, n: u64): (r: Sched)
    requires Shaped(s)
    ensures Shaped(r)
  {
    if s.current < 0 then s
    else Stop(s.(sleepUntil := s.sleepUntil[s.current := (s.ticks + n) % TICKS_MOD]), Blocked)
  }

  predicate Due(s: Sched, i: nat) {
    i < |s.sleepUntil| && 0 < s.sleepUntil[i] <= s.ticks
  }

  function Wake(s: Sched): (r: Sched)
    requires Shaped(s)
    ensures Shaped(r)
    ensures forall j: nat, st :: Is(r.threads, j, st) <==>
      if Due(s, j) && Is(s.threads, j, Blocked) then st == Ready else Is(s.threads, j, st)
    ensures forall j: nat :: PriorityOf(r.threads, j) == PriorityOf(s.threads, j)
  {
    s.(threads := seq(MAX_THREADS, i requires 0 <= i < MAX_THREADS =>
         if Due(s, i) then Turned(s.threads, i, Blocked, Ready)[i] else s.threads[i]),
       sleepUntil := seq(MAX_THREADS, i requires 0 <= i < MAX_THREADS => if Due(s, i) then 0 else s.sleepUntil[i]))
  }

  function Tick(s: Sched): (r: Sched)
    requires Shaped(s)
    ensures Shaped(r)
  {
    Schedule(Wake(s.(ticks := (s.ticks + 1) % TICKS_MOD)))
  }

  function Unblock(s: Sched, i: nat): (r: Sched)
    requires Shaped(s)
    ensures Shaped(r)
  {
    if i < MAX_THREADS then s.(threads := Turned(s.threads, i, Blocked, Ready)) else s
  }

  function FirstEmpty(threads: Threads, i: nat): nat
    requires i <= |threads|
  {
    FirstSuch(threads, (x: Option<Thread>) => x.None?, i)
  }

  function StoredName(name: seq<byte>): seq<byte> {
    name[..Min(|name|, 31)]
  }

  /**
   A thread id is used up even when the table is full; nothing happens when no stack could be had.
   Spawned threads carry process id 0, whatever id the kernel process got.
   */
  function Spawn(s: Sched, gotStack: bool, name: seq<byte>, priority: Priority): (r: (Sched, Option<nat>))
    requires Shaped(s)
    ensures Shaped(r.0)
    ensures forall j: nat, st :: Is(s.threads, j, st) ==> Is(r.0.threads, j, st)
    ensures forall j: nat, st :: Is(r.0.threads, j, st) ==> st == Ready || Is(s.threads, j, st)
  {
    if !gotStack then (s, None)
    else
      var t, i := s.(nextTid := s.nextTid + 1), FirstEmpty(s.threads, 0);
      if i == |s.threads| then (t, None)
      else
        (t.(threads := s.threads[i := Some(Thread(s.nextTid, 0, priority, Ready, StoredName(name)))],
            kernelThreads := OneMore(s.kernelThreads)), Some(s.nextTid))
  }

  function OneMore(count: Option<nat>): Option<nat> {
    match count case None => None case Some(n) => Some(n + 1)
  }

  /** The `.bss` image. */
  function Blank(): Sched {
    Sched(seq(MAX_THREADS, i => None), -1, 0, seq(MAX_THREADS, i => 0), false, 1, 1, None)
  }

  /** "idle" */
  const IDLE_NAME: seq<byte> := [105, 100, 108, 101]

  function Init(s: Sched): (r: Sched)
    requires Shaped(s)
    ensures Shaped(r)
  {
    s.(threads := s.threads[0 := Some(Thread(s.nextTid, s.nextPid, IDLE, Running, IDLE_NAME))],
       current := 0, active := true, nextTid := s.nextTid + 1, nextPid := s.nextPid + 1, kernelThreads := Some(1))
  }

  // ---- Runs ----

  /** A call that finds nothing ready returns to its caller, so any thread, in any state, may make any call. */
  datatype Op =
    | OpSpawn(gotStack: bool, name: seq<byte>, priority: Priority)
    | OpTick
    | OpYield
    | OpSleep(ticks: u64)
    | OpBlock
    | OpExit
    | OpUnblock(slot: nat)

  function Step(s: Sched, op: Op): (r: Sched)
    requires Shaped(s)
    ensures Shaped(r)
  {
    match op
    case OpSpawn(gotStack, name, priority) => Spawn(s, gotStack, name, priority).0
    case OpTick => Tick(s)
    case OpYield => Schedule(s)
    case OpSleep(n) => SleepTicks(s, n)
    case OpBlock => Stop(s, Blocked)
    case OpExit => Stop(s, Dead)
    case OpUnblock(i) => Unblock(s, i)
  }

  function Run(s: Sched, ops: seq<Op>): (r: Sched)
    requires Shaped(s)
    ensures Shaped(r)
    decreases |ops|
  {
    if |ops| == 0 then s else Run(Step(s, ops[0]), ops[1..])
  }

  /** The scheduler is on, and nobody but the current thread is running. */
  ghost predicate Inv(s: Sched) {
    && Shaped(s) && s.active && s.current >= 0 && s.threads[s.current].Some?
    && forall i: nat :: Is(s.threads, i, Running) ==> i == s.current
  }

  lemma BootedInv()
    ensures Inv(Init(Blank()))
  {
  }

  lemma ScheduleKeepsInv(s: Sched)
    requires Inv(s)
    ensures Inv(Schedule(s))
  {
    var threads := Turned(s.threads, s.current, Running, Ready);
    PickIsLastOfTheBest(threads, s.current);
  }

  lemma StepKeepsInv(s: Sched, op: Op)
    requires Inv(s)
    ensures Inv(Step(s, op))
  {
    match op
    case OpSpawn(_, _, _) =>
    case OpTick => ScheduleKeepsInv(Wake(s.(ticks := (s.ticks + 1) % TICKS_MOD)));
    case OpYield => ScheduleKeepsInv(s);
    case OpSleep(n) => StopKeepsInv(s.(sleepUntil := s.sleepUntil[s.current := (s.ticks + n) % TICKS_MOD]), Blocked);
    case OpBlock => StopKeepsInv(s, Blocked);
    case OpExit => StopKeepsInv(s, Dead);
    case OpUnblock(_) =>
  }

  lemma StopKeepsInv(s: Sched, state: TaskState)
    requires Inv(s) && state != Running
    ensures Inv(Stop(s, state))
  {
    ScheduleKeepsInv(s.(threads := WithState(s.threads, s.current, state)));
  }

  /** Over every run at most one thread is running, and it is the current one. */
  lemma {:induction false} RunKeepsInv(s: Sched, ops: seq<Op>)
    requires Inv(s)
    ensures Inv(Run(s, ops))
    decreases |ops|
  {
    if |ops| != 0 {
      StepKeepsInv(s, ops[0]);
      RunKeepsInv(Step(s, ops[0]), ops[1..]);
    }
  }

  // ---- Who stops, and for how long ----

  /** `schedule` turns no blocked or dead thread, and touches no deadline. */
  lemma ScheduleKeepsStopped(s: Sched, i: nat, state: TaskState)
    requires Shaped(s) && Is(s.threads, i, state) && state != Ready && state != Running
    ensures Is(Schedule(s).threads, i, state)
    ensures Schedule(s).sleepUntil == s.sleepUntil && Schedule(s).ticks == s.ticks
  {
    if s.active && s.current >= 0 {
      PickIsLastOfTheBest(Turned(s.threads, s.current, Running, Ready), s.current);
    }
  }

  /** The call does not hand over the processor but returns, unless another thread is ready. */
  lemma StopSwitchesIff(s: Sched, state: TaskState)
    requires Inv(s) && (state == Blocked || state == Dead)
    ensures var r := Stop(s, state);
      && Inv(r) && Is(r.threads, s.current, state)
      && (r.current != s.current <==> exists j: nat :: j != s.current && Is(s.threads, j, Ready))
      && (r.current != s.current ==> Is(r.threads, r.current, Running))
  {
    var u := s.(threads := WithState(s.threads, s.current, state));
    StopKeepsInv(s, state);
    ScheduleKeepsStopped(u, s.current, state);
    PickIsLastOfTheBest(Turned(u.threads, u.current, Running, Ready), u.current);
  }

  /** A dead thread whose last call returned comes back to life when it sleeps or blocks. */
  predicate Revives(s: Sched, op: Op, i: nat) {
    s.current == i && (op.OpSleep? || op.OpBlock?)
  }

  lemma DeadStepIff(s: Sched, op: Op, i: nat)
    requires Inv(s) && Is(s.threads, i, Dead)
    ensures Is(Step(s, op).threads, i, Dead) <==> !Revives(s, op, i)
    ensures s.current != i ==> Step(s, op).current != i
  {
    match op
    case OpSpawn(_, _, _) =>
    case OpTick => StoppedIsNotChosen(Wake(s.(ticks := (s.ticks + 1) % TICKS_MOD)), i, Dead);
    case OpYield => StoppedIsNotChosen(s, i, Dead);
    case OpSleep(n) =>
      StoppedIsNotChosen(s.(threads := WithState(s.threads, s.current, Blocked),
                         sleepUntil := s.sleepUntil[s.current := (s.ticks + n) % TICKS_MOD]),
                      i, if s.current == i then Blocked else Dead);
    case OpBlock =>
      StoppedIsNotChosen(s.(threads := WithState(s.threads, s.current, Blocked)), i,
                      if s.current == i then Blocked else Dead);
    case OpExit => StoppedIsNotChosen(s.(threads := WithState(s.threads, s.current, Dead)), i, Dead);
    case OpUnblock(_) =>
  }

  /** `schedule` neither turns nor picks a blocked or dead thread. */
  lemma StoppedIsNotChosen(s: Sched, i: nat, state: TaskState)
    requires Shaped(s) && Is(s.threads, i, state) && (state == Blocked || state == Dead)
    ensures Is(Schedule(s).threads, i, state)
    ensures s.current != i ==> Schedule(s).current != i
  {
    ScheduleKeepsStopped(s, i, state);
    if s.active && s.current >= 0 {
      PickIsLastOfTheBest(Turned(s.threads, s.current, Running, Ready), s.current);
    }
  }

  /** No call of the run revives thread `i` when its turn comes. */
  predicate NeverRevived(s: Sched, ops: seq<Op>, i: nat)
    requires Shaped(s)
    decreases |ops|
  {
    |ops| > 0 ==> !Revives(s, ops[0], i) && NeverRevived(Step(s, ops[0]), ops[1..], i)
  }

  lemma RunOfPrefix(s: Sched, ops: seq<Op>, k: nat)
    requires Shaped(s) && k < |ops|
    ensures Run(s, ops[..k + 1]) == Run(Step(s, ops[0]), ops[1..][..k]) && Run(s, ops[..0]) == s
  {
    assert ops[..k + 1][1..] == ops[1..][..k];
  }

  /** Thread `i` is dead after each call of the run. */
  ghost predicate DeadThroughout(s: Sched, ops: seq<Op>, i: nat)
    requires Shaped(s)
  {
    forall k :: 0 <= k <= |ops| ==> Is(Run(s, ops[..k]).threads, i, Dead)
  }

  /** Over a run a thread stays dead exactly when it is never current in a call of sleep or block. */
  lemma {:induction false} StaysDeadIff(s: Sched, ops: seq<Op>, i: nat)
    requires Inv(s) && Is(s.threads, i, Dead)
    ensures DeadThroughout(s, ops, i) <==> NeverRevived(s, ops, i)
    decreases |ops|
  {
    hide Is, Step, Revives;
    if |ops| == 0 {
      assert ops[..0] == [];
    } else {
      var r, rest := Step(s, ops[0]), ops[1..];
      DeadStepIff(s, ops[0], i);
      StepKeepsInv(s, ops[0]);
      RunOfPrefix(s, ops, 0);
      assert rest[..0] == [];
      if !Revives(s, ops[0], i) {
        StaysDeadIff(r, rest, i);
        DeadFromNext(s, ops, i);
      } else {
        assert !Is(Run(s, ops[..1]).threads, i, Dead);
      }
    }
  }

  lemma DeadFromNext(s: Sched, ops: seq<Op>, i: nat)
    requires Shaped(s) && |ops| > 0 && Is(s.threads, i, Dead)
    ensures DeadThroughout(s, ops, i) <==> DeadThroughout(Step(s, ops[0]), ops[1..], i)
  {
    hide Is, Step;
    var r, rest := Step(s, ops[0]), ops[1..];
    RunOfPrefix(s, ops, 0);
    forall k | 0 <= k < |ops|
      ensures Is(Run(s, ops[..k + 1]).threads, i, Dead) <==> Is(Run(r, rest[..k]).threads, i, Dead)
    {
      RunOfPrefix(s, ops, k);
    }
    if DeadThroughout(s, ops, i) {
      forall k | 0 <= k <= |rest| ensures Is(Run(r, rest[..k]).threads, i, Dead) {
        assert Is(Run(s, ops[..k + 1]).threads, i, Dead);
      }
    }
    if DeadThroughout(r, rest, i) {
      forall k | 0 <= k <= |ops| ensures Is(Run(s, ops[..k]).threads, i, Dead) {
        if k > 0 {
          assert Is(Run(r, rest[..k - 1]).threads, i, Dead);
        }
      }
    }
  }

  /** Once the processor has left a dead thread, no run whatever brings it back. */
  lemma {:induction false} DeadStaysDead(s: Sched, ops: seq<Op>, i: nat)
    requires Inv(s) && Is(s.threads, i, Dead) && s.current != i
    ensures Is(Run(s, ops).threads, i, Dead) && Run(s, ops).current != i
    decreases |ops|
  {
    hide Is, Step;
    if |ops| != 0 {
      DeadStepIff(s, ops[0], i);
      StepKeepsInv(s, ops[0]);
      DeadStaysDead(Step(s, ops[0]), ops[1..], i);
    }
  }

  /** `exit_current` is final exactly when another thread is ready to take over. */
  lemma ExitIsFinalIff(s: Sched)
    requires Inv(s)
    ensures (forall ops :: Is(Run(Stop(s, Dead), ops).threads, s.current, Dead))
       <==> exists j: nat :: j != s.current && Is(s.threads, j, Ready)
  {
    var r, i := Stop(s, Dead), s.current as nat;
    StopSwitchesIff(s, Dead);
    hide Step, Stop, Inv;
    if r.current != i {
      forall ops ensures Is(Run(r, ops).threads, i, Dead) {
        DeadStaysDead(r, ops, i);
      }
    } else {
      DeadStepIff(r, OpBlock, i);
      OneCall(r, OpBlock);
      assert !Is(Run(r, [OpBlock]).threads, i, Dead);
    }
  }

  lemma OneCall(s: Sched, op: Op)
    requires Shaped(s)
    ensures Run(s, [op]) == Step(s, op)
  {
    assert [op][1..] == [];
    assert Run(Step(s, op), []) == Step(s, op);
  }

  /** From boot: with nothing else to run, the exit of the first thread returns, and blocking revives it. */
  lemma ExitReturnsAtBoot()
    ensures var s := Run(Init(Blank()), [OpExit]);
      && Is(s.threads, 0, Dead) && s.current == 0
      && Is(Step(s, OpBlock).threads, 0, Blocked)
  {
    var s := Init(Blank());
    OneCall(s, OpExit);
    StopSwitchesIff(s, Dead);
    StopSwitchesIff(Stop(s, Dead), Blocked);
  }

  // ---- Who runs after `schedule` ----

  predicate Runnable(threads: Threads, i: nat) {
    Is(threads, i, Ready) || Is(threads, i, Running)
  }

  /**
   After `schedule` either nothing is runnable and the current thread stays, or the current thread
   runs, has the highest priority of all runnable threads, and is the last of those in the cyclic
   order that starts after the thread that was current before.
   */
  lemma ScheduleSelects(s: Sched)
    requires Inv(s)
    ensures var r := Schedule(s);
      if forall j: nat :: !Runnable(s.threads, j) then r == s
      else
        && Is(r.threads, r.current, Running)
        && forall j: nat :: j != r.current && Runnable(r.threads, j) ==>
             || PriorityOf(r.threads, j) < PriorityOf(r.threads, r.current)
             || (PriorityOf(r.threads, j) == PriorityOf(r.threads, r.current)
                 && Distance(s.current, j) < Distance(s.current, r.current))
  {
    var threads := Turned(s.threads, s.current, Running, Ready);
    PickIsLastOfTheBest(threads, s.current);
    assert forall j: nat :: Is(threads, j, Ready) <==> Runnable(s.threads, j);
    if !(forall j: nat :: !Runnable(s.threads, j)) {
      assert Pick(threads, s.current).Some?;
    }
  }

  /** A running thread loses the processor exactly when a thread of strictly higher priority is ready. */
  lemma RunningThreadYieldsOnlyToHigher(s: Sched)
    requires Inv(s) && Is(s.threads, s.current, Running)
    ensures Schedule(s).current != s.current <==>
      exists j: nat :: Is(s.threads, j, Ready) && PriorityOf(s.threads, j) > PriorityOf(s.threads, s.current)
    ensures Schedule(s).current == s.current ==> Schedule(s) == s
  {
    var threads, cur := Turned(s.threads, s.current, Running, Ready), s.current;
    PickIsLastOfTheBest(threads, cur);
    assert forall j: nat :: j != cur ==> (Is(threads, j, Ready) <==> Is(s.threads, j, Ready));
    assert forall j: nat :: j < MAX_THREADS ==> Distance(cur, j) <= Distance(cur, cur);
    assert Is(threads, cur, Ready);
    if Schedule(s).current == cur {
      assert Pick(threads, cur) == Some(cur as nat);
      assert WithState(threads, cur, Running) == s.threads;
    }
  }

  function Ticks(s: Sched, n: nat): (r: Sched)
    requires Shaped(s)
    ensures Shaped(r)
    decreases n
  {
    if n == 0 then s else Ticks(Tick(s), n - 1)
  }

  // ---- Starting up, and new threads ----

  /** At boot one thread, idle, runs in slot 0. */
  lemma BootState()
    ensures var s := Init(Blank());
      && Inv(s) && s.current == 0 && s.ticks == 0 && s.nextTid == 2 && s.nextPid == 2 && s.kernelThreads == Some(1)
      && Is(s.threads, 0, Running) && PriorityOf(s.threads, 0) == 0
      && s.threads[0].value.tid == 1 && s.threads[0].value.pid == 1 && s.threads[0].value.name == [105, 100, 108, 101]
      && forall j :: 0 <= j < MAX_THREADS ==> s.sleepUntil[j] == 0 && (j != 0 ==> s.threads[j].None?)
  {
  }

  /**
   A new thread is ready in the lowest empty slot, with the priority asked for, the next id, process id 0
   and up to 31 bytes of its name; nothing else changes but the next id and the thread count.
   */
  lemma SpawnAddsThread(s: Sched, name: seq<byte>, priority: Priority)
    requires Shaped(s)
    ensures var (r, tid) := Spawn(s, true, name, priority);
      && (tid.None? <==> forall j :: 0 <= j < MAX_THREADS ==> s.threads[j].Some?)
      && (tid.None? ==> r == s.(nextTid := s.nextTid + 1))
      && (tid.Some? ==>
            var i := FirstEmpty(s.threads, 0);
            && i < MAX_THREADS && s.threads[i].None? && (forall j :: 0 <= j < i ==> s.threads[j].Some?)
            && tid == Some(s.nextTid) && IdAt(r.threads, i) == tid
            && Is(r.threads, i, Ready) && PriorityOf(r.threads, i) == priority
            && r.threads[i].value.pid == 0
            && r.threads[i].value.name <= name && |r.threads[i].value.name| == Min(|name|, 31)
            && (forall j :: 0 <= j < MAX_THREADS && j != i ==> r.threads[j] == s.threads[j])
            && r.current == s.current && r.ticks == s.ticks && r.sleepUntil == s.sleepUntil
            && r.active == s.active && r.nextPid == s.nextPid && r.nextTid == s.nextTid + 1
            && (s.kernelThreads.Some? ==> r.kernelThreads == Some(s.kernelThreads.value + 1)))
  {
  }

  lemma NoStackNoThread(s: Sched, name: seq<byte>, priority: Priority)
    requires Shaped(s)
    ensures Spawn(s, false, name, priority) == (s, None)
  {
  }

  /** A thread spawned with a priority above all that can run is the one that runs after the next `schedule`. */
  lemma HighestSpawnRuns(s: Sched, name: seq<byte>, priority: Priority)
    requires Inv(s) && Spawn(s, true, name, priority).1.Some?
    requires forall j: nat :: Runnable(s.threads, j) ==> PriorityOf(s.threads, j) < priority
    ensures var r, i := Schedule(Spawn(s, true, name, priority).0), FirstEmpty(s.threads, 0);
      r.current == i && Is(r.threads, i, Running)
  {
    var u, i := Spawn(s, true, name, priority).0, FirstEmpty(s.threads, 0);
    SpawnAddsThread(s, name, priority);
    StepKeepsInv(s, OpSpawn(true, name, priority));
    assert forall j: nat :: j != i ==> PriorityOf(u.threads, j) == PriorityOf(s.threads, j);
    assert forall j: nat :: j != i ==> (Runnable(u.threads, j) <==> Runnable(s.threads, j));
    assert Runnable(u.threads, i);
    hide Spawn, FirstEmpty;
    ScheduleSelects(u);
    SchedulePicksHighest(u, i);
  }

  /** A thread that outranks all others that can run is the one that runs after `schedule`. */
  lemma SchedulePicksHighest(s: Sched, i: nat)
    requires Inv(s) && Runnable(s.threads, i)
    requires forall j: nat :: j != i && Runnable(s.threads, j) ==> PriorityOf(s.threads, j) < PriorityOf(s.threads, i)
    ensures Schedule(s).current == i && Is(Schedule(s).threads, i, Running)
  {
    var threads := Turned(s.threads, s.current, Running, Ready);
    PickIsLastOfTheBest(threads, s.current);
    assert forall j: nat :: Is(threads, j, Ready) <==> Runnable(s.threads, j);
    assert LastOfTheBest(threads, s.current, i);
  }

  /** The boot calls: of a thread of high and two of low priority the first runs first. */
  lemma FirstThreadOfBoot(a: seq<byte>, b: seq<byte>, c: seq<byte>)
    ensures var s1 := Spawn(Init(Blank()), true, a, 3).0;
      var s2 := Spawn(s1, true, b, 1).0;
      var s3 := Spawn(s2, true, c, 1).0;
      && Is(s3.threads, 1, Ready) && Is(s3.threads, 2, Ready) && Is(s3.threads, 3, Ready)
      && Schedule(s3).current == 1
  {
    hide Spawn, Init, Schedule, FirstEmpty;
    var s0 := Init(Blank());
    BootState();
    NextSlot(s0, 1, a, 3);
    var s1 := Spawn(s0, true, a, 3).0;
    NextSlot(s1, 2, b, 1);
    var s2 := Spawn(s1, true, b, 1).0;
    NextSlot(s2, 3, c, 1);
    SchedulePicksHighest(Spawn(s2, true, c, 1).0, 1);
  }

  lemma NextSlot(s: Sched, n: nat, name: seq<byte>, priority: Priority)
    requires Inv(s) && n < MAX_THREADS && forall j :: 0 <= j < MAX_THREADS ==> (s.threads[j].Some? <==> j < n)
    ensures var r := Spawn(s, true, name, priority).0;
      && Inv(r) && (forall j :: 0 <= j < MAX_THREADS ==> (r.threads[j].Some? <==> j < n + 1))
      && Is(r.threads, n, Ready) && PriorityOf(r.threads, n) == priority
      && forall j :: 0 <= j < n ==> r.threads[j] == s.threads[j]
  {
    hide Spawn, FirstEmpty;
    SpawnAddsThread(s, name, priority);
    SpawnIsStep(s, name, priority);
    var r, i := Spawn(s, true, name, priority).0, FirstEmpty(s.threads, 0);
    assert s.threads[n].None?;
    assert i == n;
    assert forall j :: 0 <= j < MAX_THREADS && j != n ==> r.threads[j] == s.threads[j];
  }

  lemma SpawnIsStep(s: Sched, name: seq<byte>, priority: Priority)
    requires Inv(s)
    ensures Inv(Spawn(s, true, name, priority).0)
  {
    StepKeepsInv(s, OpSpawn(true, name, priority));
  }

  // ---- What ticks and unblocking change ----

  /** A tick counts, clears exactly the deadlines that have come, and touches no other. */
  lemma TickEffect(s: Sched, j: nat)
    requires Shaped(s) && j < MAX_THREADS
    ensures var r := Tick(s);
      && r.ticks == (s.ticks + 1) % TICKS_MOD
      && r.sleepUntil[j] == (if 0 < s.sleepUntil[j] <= r.ticks then 0 else s.sleepUntil[j])
      && r.active == s.active && r.nextTid == s.nextTid && r.nextPid == s.nextPid
      && PriorityOf(r.threads, j) == PriorityOf(s.threads, j)
  {
    var w := Wake(s.(ticks := (s.ticks + 1) % TICKS_MOD));
    ScheduleKeeps(w);
  }

  lemma ScheduleKeeps(s: Sched)
    requires Shaped(s)
    ensures var r := Schedule(s);
      && r.sleepUntil == s.sleepUntil && r.ticks == s.ticks && r.active == s.active
      && r.nextTid == s.nextTid && r.nextPid == s.nextPid && r.kernelThreads == s.kernelThreads
      && forall j: nat :: PriorityOf(r.threads, j) == PriorityOf(s.threads, j)
  {
    if s.active && s.current >= 0 {
      PickIsLastOfTheBest(Turned(s.threads, s.current, Running, Ready), s.current);
    }
  }

  /** Unblocking makes a blocked thread ready; nothing else changes, the deadline included. */
  lemma UnblockEffect(s: Sched, i: nat)
    requires Shaped(s)
    ensures var r := Unblock(s, i);
      && (Is(s.threads, i, Blocked) ==> Is(r.threads, i, Ready))
      && (!Is(s.threads, i, Blocked) ==> r == s)
      && (forall j :: 0 <= j < MAX_THREADS && j != i ==> r.threads[j] == s.threads[j])
      && r == s.(threads := r.threads)
  {
  }

  // ---- Starting a second time ----

  /**
   `init` replaces slot 0 only.  On a table in use, as the recovery calls it, it keeps the invariant exactly
   when no other thread was running.
   */
  lemma ReinitKeepsInvIff(s: Sched)
    requires Inv(s)
    ensures Inv(Init(s)) <==> s.current == 0 || !Is(s.threads, s.current, Running)
    ensures forall j :: 0 < j < MAX_THREADS ==> Init(s).threads[j] == s.threads[j]
  {
    var r, cur := Init(s), s.current as nat;
    assert forall i: nat :: i != 0 ==> (Is(r.threads, i, Running) <==> Is(s.threads, i, Running));
    assert Is(r.threads, 0, Running);
    if cur != 0 && Is(s.threads, cur, Running) {
      assert Is(r.threads, cur, Running);
    }
  }

  /** A thread left running without being current is stranded: over every run it stays so. */
  lemma {:induction false} LeftRunningIsStranded(s: Sched, ops: seq<Op>, j: nat)
    requires Shaped(s) && s.active && 0 <= s.current != j && Is(s.threads, j, Running)
    ensures var r := Run(s, ops);
      Is(r.threads, j, Running) && r.current != j
    decreases |ops|
  {
    hide Is, Step;
    if |ops| != 0 {
      StrandedStep(s, ops[0], j);
      LeftRunningIsStranded(Step(s, ops[0]), ops[1..], j);
    }
  }

  lemma StrandedStep(s: Sched, op: Op, j: nat)
    requires Shaped(s) && s.active && 0 <= s.current != j && Is(s.threads, j, Running)
    ensures var r := Step(s, op);
      r.active && 0 <= r.current != j && Is(r.threads, j, Running)
  {
    match op
    case OpSpawn(_, _, _) =>
    case OpTick => StrandedSchedule(Wake(s.(ticks := (s.ticks + 1) % TICKS_MOD)), j);
    case OpYield => StrandedSchedule(s, j);
    case OpSleep(n) =>
      StrandedSchedule(s.(threads := WithState(s.threads, s.current, Blocked),
                          sleepUntil := s.sleepUntil[s.current := (s.ticks + n) % TICKS_MOD]), j);
    case OpBlock => StrandedSchedule(s.(threads := WithState(s.threads, s.current, Blocked)), j);
    case OpExit => StrandedSchedule(s.(threads := WithState(s.threads, s.current, Dead)), j);
    case OpUnblock(_) =>
  }

  lemma StrandedSchedule(s: Sched, j: nat)
    requires Shaped(s) && s.active && 0 <= s.current != j && Is(s.threads, j, Running)
    ensures var r := Schedule(s);
      r.active && 0 <= r.current != j && Is(r.threads, j, Running)
  {
    PickIsLastOfTheBest(Turned(s.threads, s.current, Running, Ready), s.current);
  }

  // ---- Thread ids and the thread count ----

  /** The threads in the first `n` slots. */
  function ThreadsBelow(threads: Threads, n: nat): nat
    requires n <= |threads|
  {
    if n == 0 then 0 else ThreadsBelow(threads, n - 1) + if threads[n - 1].Some? then 1 else 0
  }

  lemma {:induction false} OneThreadMore(threads: Threads, i: nat, t: Thread, n: nat)
    requires i < |threads| && n <= |threads| && threads[i].None?
    ensures ThreadsBelow(threads[i := Some(t)], n) == ThreadsBelow(threads, n) + if i < n then 1 else 0
  {
    if n != 0 {
      OneThreadMore(threads, i, t, n - 1);
    }
  }

  lemma {:induction false} SameSlotsFilled(a: Threads, b: Threads, n: nat)
    requires |a| == |b| && n <= |a| && forall i: nat :: IdAt(a, i) == IdAt(b, i)
    ensures ThreadsBelow(a, n) == ThreadsBelow(b, n)
  {
    if n != 0 {
      assert IdAt(a, n - 1) == IdAt(b, n - 1);
      SameSlotsFilled(a, b, n - 1);
    }
  }

  /** Thread ids differ and were all given out; the kernel process counts the threads in the table. */
  ghost predicate Counted(s: Sched) {
    && Shaped(s) && s.kernelThreads == Some(ThreadsBelow(s.threads, MAX_THREADS))
    && (forall i :: 0 <= i < MAX_THREADS && s.threads[i].Some? ==> s.threads[i].value.tid < s.nextTid)
    && (forall i, j :: 0 <= i < j < MAX_THREADS && s.threads[i].Some? && s.threads[j].Some? ==>
          s.threads[i].value.tid != s.threads[j].value.tid)
  }

  function IdAt(threads: Threads, i: nat): Option<nat> {
    if i < |threads| && threads[i].Some? then Some(threads[i].value.tid) else None
  }

  /** Same threads, whatever their states. */
  ghost predicate SameThreads(s: Sched, r: Sched) {
    && Shaped(s) && Shaped(r) && r.nextTid == s.nextTid && r.kernelThreads == s.kernelThreads
    && forall i: nat :: IdAt(r.threads, i) == IdAt(s.threads, i)
  }

  lemma ScheduleKeepsThreads(s: Sched, u: Sched)
    requires SameThreads(s, u)
    ensures SameThreads(s, Schedule(u))
  {
    if u.active && u.current >= 0 {
      var threads := Turned(u.threads, u.current, Running, Ready);
      assert forall i: nat :: IdAt(threads, i) == IdAt(u.threads, i);
      PickIsLastOfTheBest(threads, u.current);
      hide Pick, LastOfTheBest, Turned;
    }
  }

  lemma TurnedKeepsIds(threads: Threads, i: nat, from: TaskState, to: TaskState)
    requires i < |threads|
    ensures forall j: nat :: IdAt(Turned(threads, i, from, to), j) == IdAt(threads, j)
    ensures forall j: nat :: IdAt(WithState(threads, i, to), j) == IdAt(threads, j)
  {
  }

  lemma WakeKeepsThreads(s: Sched)
    requires Shaped(s)
    ensures SameThreads(s, Wake(s))
  {
    forall j: nat ensures IdAt(Wake(s).threads, j) == IdAt(s.threads, j) {
      if j < MAX_THREADS {
        TurnedKeepsIds(s.threads, j, Blocked, Ready);
      }
    }
  }

  lemma StepSpawnsOrKeeps(s: Sched, op: Op)
    requires Inv(s) && !op.OpSpawn?
    ensures SameThreads(s, Step(s, op))
  {
    hide Schedule, Wake, WithState, Turned, IdAt;
    match op
    case OpTick =>
      var u := s.(ticks := (s.ticks + 1) % TICKS_MOD);
      WakeKeepsThreads(u);
      ScheduleKeepsThreads(s, Wake(u));
    case OpYield => ScheduleKeepsThreads(s, s);
    case OpSleep(n) =>
      TurnedKeepsIds(s.threads, s.current, Running, Blocked);
      ScheduleKeepsThreads(s, s.(threads := WithState(s.threads, s.current, Blocked),
                                 sleepUntil := s.sleepUntil[s.current := (s.ticks + n) % TICKS_MOD]));
    case OpBlock =>
      TurnedKeepsIds(s.threads, s.current, Running, Blocked);
      ScheduleKeepsThreads(s, s.(threads := WithState(s.threads, s.current, Blocked)));
    case OpExit =>
      TurnedKeepsIds(s.threads, s.current, Running, Dead);
      ScheduleKeepsThreads(s, s.(threads := WithState(s.threads, s.current, Dead)));
    case OpUnblock(i) =>
      if i < MAX_THREADS {
        TurnedKeepsIds(s.threads, i, Blocked, Ready);
      }
  }

  lemma SpawnKeepsCounts(s: Sched, gotStack: bool, name: seq<byte>, priority: Priority)
    requires Counted(s)
    ensures Counted(Spawn(s, gotStack, name, priority).0)
  {
    var r, k := Spawn(s, gotStack, name, priority).0, FirstEmpty(s.threads, 0);
    if gotStack && k < MAX_THREADS {
      OneThreadMore(s.threads, k, r.threads[k].value, MAX_THREADS);
      hide ThreadsBelow;
    }
  }

  lemma SameThreadsKeepCounts(s: Sched, r: Sched)
    requires Counted(s) && SameThreads(s, r)
    ensures Counted(r)
  {
    SameSlotsFilled(s.threads, r.threads, MAX_THREADS);
    assert forall i: nat {:trigger r.threads[i]} :: IdAt(r.threads, i) == IdAt(s.threads, i);
    hide ThreadsBelow;
  }

  lemma BootCounts()
    ensures Counted(Init(Blank()))
  {
    var s := Init(Blank());
    NoThreads(Blank().threads, MAX_THREADS);
    OneThreadMore(Blank().threads, 0, s.threads[0].value, MAX_THREADS);
    hide ThreadsBelow;
  }

  lemma {:induction false} NoThreads(threads: Threads, n: nat)
    requires n <= |threads| && forall j :: 0 <= j < |threads| ==> threads[j].None?
    ensures ThreadsBelow(threads, n) == 0
  {
    if n != 0 {
      NoThreads(threads, n - 1);
    }
  }

  /** Over every run no two threads have one id, and the thread count of the kernel process is right. */
  lemma {:induction false} RunKeepsCounts(s: Sched, ops: seq<Op>)
    requires Inv(s) && Counted(s)
    ensures Counted(Run(s, ops))
    decreases |ops|
  {
    hide Counted;
    if |ops| != 0 {
      StepKeepsInv(s, ops[0]);
      match ops[0] {
        case OpSpawn(gotStack, name, priority) => SpawnKeepsCounts(s, gotStack, name, priority);
        case _ =>
          StepSpawnsOrKeeps(s, ops[0]);
          SameThreadsKeepCounts(s, Step(s, ops[0]));
      }
      RunKeepsCounts(Step(s, ops[0]), ops[1..]);
    }
  }
}
