/** How threads of equal priority share the processor: not at all as written, in turn when repaired. */
module Fairness {
  import opened Common
  import opened Scheduling
  import opened Sleeping

  /** Ticks alone can make the thread in slot `j` run: it can run, or a deadline will wake it. */
  predicate MayRun(s: Sched, j: nat) {
    Runnable(s.threads, j) || (Is(s.threads, j, Blocked) && j < |s.sleepUntil| && s.sleepUntil[j] != 0)
  }

  /** The threads of `team` can all run, at one priority that nobody else who may run reaches. */
  ghost predicate Team(s: Sched, team: set<nat>, p: Priority) {
    && Inv(s) && team != {}
    && (forall t :: t in team ==> Runnable(s.threads, t) && PriorityOf(s.threads, t) == p)
    && (forall j: nat :: j !in team && MayRun(s, j) ==> PriorityOf(s.threads, j) < p)
  }

  lemma TeamIsShaped(s: Sched, team: set<nat>, p: Priority)
    requires Team(s, team, p)
    ensures Shaped(s) && 0 <= s.current && Wake(s).current == s.current
  {
  }

  lemma WakingKeepsTeam(s: Sched, team: set<nat>, p: Priority)
    requires Team(s, team, p)
    ensures Team(Wake(s), team, p) && Wake(s).current == s.current
  {
    forall t | t in team ensures Runnable(Wake(s).threads, t) {
      assert Runnable(s.threads, t);
    }
  }

  /** The tick count is no part of being a team. */
  lemma LaterTeam(s: Sched, u: Sched, team: set<nat>, p: Priority)
    requires Team(s, team, p) && u == s.(ticks := u.ticks)
    ensures Team(u, team, p)
  {
    assert forall j: nat :: MayRun(u, j) <==> MayRun(s, j);
  }

  // ---- The selection as written ----

  /** No thread of higher priority than the running one may ever run by ticks alone. */
  ghost predicate Unrivalled(s: Sched) {
    && Inv(s) && Is(s.threads, s.current, Running)
    && forall j: nat :: MayRun(s, j) ==> PriorityOf(s.threads, j) <= PriorityOf(s.threads, s.current)
  }

  lemma TickKeepsUnrivalled(s: Sched)
    requires Unrivalled(s)
    ensures Unrivalled(Tick(s)) && Tick(s).current == s.current
  {
    var w := Wake(s.(ticks := (s.ticks + 1) % TICKS_MOD));
    WakingKeepsUnrivalled(s);
    hide Wake, Schedule;
    RunningThreadYieldsOnlyToHigher(w);
  }

  lemma WakingKeepsUnrivalled(s: Sched)
    requires Unrivalled(s)
    ensures var w := Wake(s.(ticks := (s.ticks + 1) % TICKS_MOD));
      Unrivalled(w) && w.current == s.current
  {
    var w := Wake(s.(ticks := (s.ticks + 1) % TICKS_MOD));
    assert forall j: nat :: MayRun(w, j) ==> MayRun(s, j);
  }

  /**
   Threads of equal priority do not share the processor: as long as nobody higher may run, the running
   thread keeps it for any number of ticks.
   */
  lemma {:induction false} TiesNeverYield(s: Sched, n: nat)
    requires Unrivalled(s)
    ensures var r := Ticks(s, n);
      && r.current == s.current && Is(r.threads, r.current, Running)
      && forall j: nat :: j != s.current ==> !Is(r.threads, j, Running)
    decreases n
  {
    if n != 0 {
      TickKeepsUnrivalled(s);
      TiesNeverYield(Tick(s), n - 1);
    }
  }

  /** A thread of higher priority that may run takes the processor from the running one in the end. */
  lemma RivalTakesOver(s: Sched, j: nat) returns (n: nat)
    requires Inv(s) && Is(s.threads, s.current, Running)
    requires MayRun(s, j) && PriorityOf(s.threads, j) > PriorityOf(s.threads, s.current)
    ensures Ticks(s, n).current != s.current || !Is(Ticks(s, n).threads, s.current, Running)
    decreases if Is(s.threads, j, Blocked) then 1 + TicksLeft(s.ticks, s.sleepUntil[j]) else 0
  {
    hide Schedule;
    var w := Wake(s.(ticks := (s.ticks + 1) % TICKS_MOD));
    var r := Tick(s);
    assert Ticks(r, 0) == r;
    WakeKeepsInv(s);
    RunningThreadYieldsOnlyToHigher(w);
    if Is(s.threads, j, Blocked) {
      TickWakes(s, j);
    }
    if r.current != s.current {
      n := 1;
    } else {
      assert r == w;
      n := RivalTakesOver(r, j);
      n := n + 1;
    }
  }

  /** The running thread keeps the processor for ever if and only if no thread of higher priority may run. */
  lemma KeepsProcessorIffUnrivalled(s: Sched)
    requires Inv(s) && Is(s.threads, s.current, Running)
    ensures (forall n: nat :: Ticks(s, n).current == s.current && Is(Ticks(s, n).threads, s.current, Running))
       <==> Unrivalled(s)
  {
    if Unrivalled(s) {
      forall n: nat ensures Ticks(s, n).current == s.current && Is(Ticks(s, n).threads, s.current, Running) {
        TiesNeverYield(s, n);
      }
    } else {
      var j: nat :| MayRun(s, j) && PriorityOf(s.threads, j) > PriorityOf(s.threads, s.current);
      var n := RivalTakesOver(s, j);
    }
  }

  /** As written the first tick picks one thread of the team, and a team member that is current stays so. */
  lemma PlainTeamTick(s: Sched, team: set<nat>, p: Priority)
    requires Team(s, team, p)
    ensures var r := Tick(s);
      && Team(r, team, p) && Is(r.threads, r.current, Running) && r.current in team
      && (s.current in team ==> r.current == s.current)
      && forall t :: t in team && t != r.current ==>
           t < MAX_THREADS && Distance(s.current, t) < Distance(s.current, r.current)
  {
    hide Schedule, Runnable, Distance;
    var u := s.(ticks := (s.ticks + 1) % TICKS_MOD);
    LaterTeam(s, u, team, p);
    WakingKeepsTeam(u, team, p);
    PlainScheduleKeepsTeam(Wake(u), team, p);
  }

  lemma PlainScheduleKeepsTeam(s: Sched, team: set<nat>, p: Priority)
    requires Team(s, team, p)
    ensures var r := Schedule(s);
      && Team(r, team, p) && Is(r.threads, r.current, Running) && r.current in team
      && (s.current in team ==> r.current == s.current)
      && forall t :: t in team && t != r.current ==>
           t < MAX_THREADS && Distance(s.current, t) < Distance(s.current, r.current)
  {
    var r := Schedule(s);
    StepKeepsInv(s, OpYield);
    ScheduleSelects(s);
    var threads := Turned(s.threads, s.current, Running, Ready);
    PickIsLastOfTheBest(threads, s.current);
    forall t | t in team ensures Runnable(r.threads, t) && PriorityOf(r.threads, t) == p {
      assert Runnable(s.threads, t);
    }
    var t :| t in team;
    assert Runnable(s.threads, t) && Runnable(r.threads, t);
    assert forall j: nat :: MayRun(r, j) ==> MayRun(s, j);
    assert MayRun(r, r.current);
  }

  /** From a team member on, the ticks as written never move. */
  lemma {:induction false} MemberStays(s: Sched, team: set<nat>, p: Priority, n: nat)
    requires Team(s, team, p) && s.current in team
    ensures Ticks(s, n).current == s.current
    decreases n
  {
    if n != 0 {
      PlainTeamTick(s, team, p);
      MemberStays(Tick(s), team, p, n - 1);
    }
  }

  /** Thread `t` is current after one of the next `k` ticks. */
  ghost predicate RunsWithin(s: Sched, t: nat, k: nat)
    requires Shaped(s)
  {
    exists n: nat :: 1 <= n <= k && Ticks(s, n).current == t
  }

  /** Of the team only the thread that the first tick picks ever runs. */
  lemma OnlyThePickedRuns(s: Sched, team: set<nat>, p: Priority, t: nat, k: nat)
    requires Team(s, team, p) && t in team && k >= 1
    ensures RunsWithin(s, t, k) <==> t == Tick(s).current
  {
    assert Shaped(s) && team != {};
    hide Tick, Team, Inv, Runnable, Distance;
    PlainTeamTick(s, team, p);
    if t == Tick(s).current {
      assert Ticks(Tick(s), 0) == Tick(s);
      assert 1 <= 1 <= k && Ticks(s, 1).current == t;
    }
    forall n: nat | 1 <= n <= k ensures Ticks(s, n).current == Tick(s).current {
      MemberStays(Tick(s), team, p, n - 1);
    }
  }

  lemma AllTheSame(team: set<nat>, c: nat)
    requires c in team
    ensures |team| == 1 <==> forall t :: t in team ==> t == c
  {
    SubsetSize({c}, team);
    if forall t :: t in team ==> t == c {
      assert team == {c};
    }
  }

  /**
   The sharing that equal quanta would give, that each of k ready threads of the top priority runs
   within k ticks, holds as written if and only if there is only one of them.
   */
  lemma SharesIffAlone(s: Sched, team: set<nat>, p: Priority)
    requires Team(s, team, p)
    ensures (forall t :: t in team ==> RunsWithin(s, t, |team|)) <==> |team| == 1
  {
    PlainTeamTick(s, team, p);
    AllTheSame(team, Tick(s).current);
    forall t | t in team ensures RunsWithin(s, t, |team|) <==> t == Tick(s).current {
      SubsetSize({t}, team);
      OnlyThePickedRuns(s, team, p, t, |team|);
    }
    hide Team, Tick, RunsWithin;
  }

  /** From boot, two threads of normal priority are spawned: the first of them never runs, however many ticks pass. */
  lemma FirstOfTwoNeverRuns()
    ensures var ops := [OpSpawn(true, [], NORMAL), OpSpawn(true, [], NORMAL)];
      var s := Run(Init(Blank()), ops);
        && Team(s, {1, 2}, NORMAL)
        && forall n: nat :: Ticks(s, n).current != 1
  {
    var s0 := Init(Blank());
    var s1 := Step(s0, OpSpawn(true, [], NORMAL));
    var s2 := Step(s1, OpSpawn(true, [], NORMAL));
    FirstStep(s0, [OpSpawn(true, [], NORMAL), OpSpawn(true, [], NORMAL)], [OpSpawn(true, [], NORMAL)]);
    FirstStep(s1, [OpSpawn(true, [], NORMAL)], []);
    assert Team(s2, {1, 2}, NORMAL);
    SecondIsPicked(s2);
  }

  lemma SecondIsPicked(s: Sched)
    requires Team(s, {1, 2}, NORMAL) && s.current == 0
    ensures forall n: nat :: Ticks(s, n).current != 1
  {
    PlainTeamTick(s, {1, 2}, NORMAL);
    assert Tick(s).current == 2;
    hide Team, Tick;
    forall n: nat ensures Ticks(s, n).current != 1 {
      if n != 0 {
        MemberStays(Tick(s), {1, 2}, NORMAL, n - 1);
      }
    }
  }

  // ---- A repaired selection that does share ----

  /** The scan with a strict comparison: the first of the best wins a tie. */
  function ScanFirst(threads: Threads, cur: nat, n: nat): Option<nat>
    requires |threads| == MAX_THREADS && cur < MAX_THREADS && n <= MAX_THREADS
  {
    if n == 0 then None
    else
      var best, i := ScanFirst(threads, cur, n - 1), SlotAfter(cur, n);
      if Is(threads, i, Ready) && (best.None? || PriorityOf(threads, i) > PriorityOf(threads, best.value)) then Some(i)
      else best
  }

  lemma {:induction false} ScanFirstIsFirstOfTheBest(threads: Threads, cur: nat, n: nat)
    requires |threads| == MAX_THREADS && cur < MAX_THREADS && n <= MAX_THREADS
    ensures var best := ScanFirst(threads, cur, n);
      && (best.None? <==> forall j: nat :: Is(threads, j, Ready) ==> Distance(cur, j) > n)
      && (best.Some? ==>
            var i := best.value;
            && Is(threads, i, Ready) && Distance(cur, i) <= n
            && forall j: nat :: j != i && Is(threads, j, Ready) && Distance(cur, j) <= n ==>
                 || PriorityOf(threads, j) < PriorityOf(threads, i)
                 || (PriorityOf(threads, j) == PriorityOf(threads, i) && Distance(cur, i) < Distance(cur, j)))
  {
    if n != 0 {
      ScanFirstIsFirstOfTheBest(threads, cur, n - 1);
      var i := SlotAfter(cur, n);
      assert forall j: nat :: j < MAX_THREADS && Distance(cur, j) == n ==> j == i;
      assert Distance(cur, i) == n;
    }
  }

  function FairSchedule(s: Sched): (r: Sched)
    requires Shaped(s)
    ensures Shaped(r)
  {
    if !s.active || s.current < 0 then s
    else
      var threads := Turned(s.threads, s.current, Running, Ready);
      ScanFirstIsFirstOfTheBest(threads, s.current, MAX_THREADS);
      var (after, current) := Dispatch(threads, s.current, ScanFirst(threads, s.current, MAX_THREADS));
      s.(threads := after, current := current)
  }

  function FairTick(s: Sched): (r: Sched)
    requires Shaped(s)
    ensures Shaped(r)
  {
    FairSchedule(Wake(s.(ticks := (s.ticks + 1) % TICKS_MOD)))
  }

  function FairTicks(s: Sched, n: nat): (r: Sched)
    requires Shaped(s)
    ensures Shaped(r)
    decreases n
  {
    if n == 0 then s else FairTicks(FairTick(s), n - 1)
  }

  ghost predicate NextOf(cur: nat, team: set<nat>, next: nat)
    requires cur < MAX_THREADS
  {
    && next in team && next < MAX_THREADS
    && forall j :: j in team && j != next ==> j < MAX_THREADS && Distance(cur, next) < Distance(cur, j)
  }

  lemma FirstOfTheBestIsNext(s: Sched, team: set<nat>, p: Priority)
    requires Team(s, team, p)
    ensures var threads := Turned(s.threads, s.current, Running, Ready);
      var next := ScanFirst(threads, s.current, MAX_THREADS);
      next.Some? && Is(threads, next.value, Ready) && NextOf(s.current, team, next.value)
  {
    var threads := Turned(s.threads, s.current, Running, Ready);
    ScanFirstIsFirstOfTheBest(threads, s.current, MAX_THREADS);
    assert forall j: nat :: j < MAX_THREADS ==> Distance(s.current, j) <= MAX_THREADS;
    forall t | t in team ensures Is(threads, t, Ready) && PriorityOf(threads, t) == p {
      assert Runnable(s.threads, t);
    }
    var t :| t in team;
    assert Is(threads, t, Ready);
  }

  lemma FairScheduleKeepsTeam(s: Sched, team: set<nat>, p: Priority)
    requires Team(s, team, p)
    ensures var r := FairSchedule(s);
      Team(r, team, p) && Is(r.threads, r.current, Running) && NextOf(s.current, team, r.current)
  {
    FirstOfTheBestIsNext(s, team, p);
    var threads := Turned(s.threads, s.current, Running, Ready);
    forall t | t in team ensures Runnable(FairSchedule(s).threads, t) {
      assert Runnable(s.threads, t);
    }
  }

  /** From `before` to `after` the processor moved on to the team's next thread in cyclic order. */
  ghost predicate MovedOn(before: Sched, after: Sched, team: set<nat>) {
    && Shaped(before) && 0 <= before.current
    && Is(after.threads, after.current, Running) && NextOf(before.current, team, after.current)
  }

  lemma TeamTick(s: Sched, team: set<nat>, p: Priority)
    requires Team(s, team, p)
    ensures Team(FairTick(s), team, p) && MovedOn(s, FairTick(s), team)
  {
    hide Team, Wake, FairSchedule;
    TeamIsShaped(s, team, p);
    var u := s.(ticks := (s.ticks + 1) % TICKS_MOD);
    LaterTeam(s, u, team, p);
    WakingKeepsTeam(u, team, p);
    FairScheduleKeepsTeam(Wake(u), team, p);
  }

  /** The team's threads that come before `t`, going round from `cur`. */
  function Ahead(cur: nat, team: set<nat>, t: nat): set<nat>
    requires cur < MAX_THREADS && t < MAX_THREADS && forall j :: j in team ==> j < MAX_THREADS
  {
    set j | j in team && Distance(cur, j) < Distance(cur, t)
  }

  lemma OneFewerAhead(cur: nat, next: nat, team: set<nat>, t: nat)
    requires cur < MAX_THREADS && t in team && t != next && forall j :: j in team ==> j < MAX_THREADS
    requires NextOf(cur, team, next)
    ensures |Ahead(next, team, t)| + 1 == |Ahead(cur, team, t)|
  {
    assert next in Ahead(cur, team, t);
    assert Ahead(next, team, t) == Ahead(cur, team, t) - {next};
  }

  /** Going round the team from one member to the next reaches everyone. */
  lemma {:induction false} TurnComes(turns: seq<nat>, team: set<nat>, t: nat) returns (n: nat)
    requires |turns| > 0 && t in team && forall j :: j in team ==> j < MAX_THREADS
    requires forall i :: 0 <= i < |turns| ==> turns[i] < MAX_THREADS
    requires forall i :: 0 <= i < |turns| - 1 ==> NextOf(turns[i], team, turns[i + 1])
    requires |turns| >= |Ahead(turns[0], team, t)| + 2
    ensures 1 <= n < |turns| && turns[n] == t && n <= |Ahead(turns[0], team, t)| + 1
    decreases |turns|
  {
    assert NextOf(turns[0], team, turns[0 + 1]);
    if turns[1] == t {
      n := 1;
    } else {
      OneFewerAhead(turns[0], turns[1], team, t);
      var rest := turns[1..];
      forall i | 0 <= i < |rest| - 1 ensures NextOf(rest[i], team, rest[i + 1]) {
        assert NextOf(turns[i + 1], team, turns[i + 1 + 1]);
      }
      n := TurnComes(rest, team, t);
      n := n + 1;
    }
  }

  lemma {:induction false} LastTick(s: Sched, n: nat)
    requires Shaped(s)
    ensures FairTicks(s, n + 1) == FairTick(FairTicks(s, n))
    decreases n
  {
    if n == 0 {
      assert FairTicks(FairTick(s), 0) == FairTick(s);
    } else {
      LastTick(FairTick(s), n - 1);
    }
  }

  /** The team stays as it is. */
  lemma {:induction false} TeamStays(s: Sched, team: set<nat>, p: Priority, n: nat)
    requires Team(s, team, p)
    ensures Team(FairTicks(s, n), team, p)
    decreases n
  {
    hide Team, FairTick;
    if n != 0 {
      TeamTick(s, team, p);
      TeamStays(FairTick(s), team, p, n - 1);
    }
  }

  /** Every tick moves to the team's next thread. */
  lemma NextRuns(s: Sched, team: set<nat>, p: Priority, n: nat)
    requires Team(s, team, p)
    ensures MovedOn(FairTicks(s, n), FairTicks(s, n + 1), team)
  {
    TeamStays(s, team, p, n);
    LastTick(s, n);
    TeamTick(FairTicks(s, n), team, p);
  }

  lemma TeamInTable(s: Sched, team: set<nat>, p: Priority)
    requires Team(s, team, p)
    ensures forall j :: j in team ==> j < MAX_THREADS
  {
    forall j | j in team ensures j < MAX_THREADS {
      assert Runnable(s.threads, j);
    }
  }

  lemma NoTicks(s: Sched)
    requires Shaped(s)
    ensures FairTicks(s, 0) == s
  {
  }

  /** With the strict comparison k always-ready top-priority threads each run within any k ticks. */
  lemma EveryoneRunsWithinTeamSize(s: Sched, team: set<nat>, p: Priority, t: nat) returns (n: nat)
    requires Team(s, team, p) && t in team
    ensures 1 <= n <= |team|
    ensures FairTicks(s, n).current == t && Is(FairTicks(s, n).threads, t, Running)
  {
    hide Team, FairTick, FairTicks;
    TeamInTable(s, team, p);
    TeamIsShaped(s, team, p);
    forall i: nat ensures Team(FairTicks(s, i), team, p) && FairTicks(s, i).current >= 0 {
      TeamStays(s, team, p, i);
      TeamIsShaped(FairTicks(s, i), team, p);
    }
    NoTicks(s);
    var turns := seq(|team| + 1, i requires 0 <= i => FairTicks(s, i).current as nat);
    forall i | 0 <= i < |turns| - 1 ensures NextOf(turns[i], team, turns[i + 1]) {
      NextRuns(s, team, p, i);
    }
    SubsetSize(Ahead(s.current, team, t), team - {t});
    n := TurnComes(turns, team, t);
    NextRuns(s, team, p, n - 1);
  }
}
