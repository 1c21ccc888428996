/**
 Boot diagnostics: a list of checks with severities, recovery attempts, subsystem health, the
 boot mode and the event log.  What a check or a recovery routine answers is given from outside.
 */
module Diagnostics {
  import opened Common

  const SUBSYSTEMS: nat := 6
  const MEMORY: nat := 0
  const VFS: nat := 1
  const SCHEDULER: nat := 4
  const MAX_RECOVERY_ATTEMPTS: nat := 3
  const LOG_SIZE: nat := 64

  type Subsystem = s: nat | s < 6

  datatype Severity = Critical | Required | Optional

  datatype Health = Unknown | Healthy | Recovered | Degraded | Failed

  datatype BootMode = Normal | Safe | Minimal

  datatype EventType =
    | Pass | Fail | RecoveryAttempt | RecoverySuccess | RecoveryFailed | SubsystemDegraded | SafeModeEntered

  datatype Event = Event(subsystem: Subsystem, kind: EventType, check: nat)

  datatype Check = Check(subsystem: Subsystem, severity: Severity, hasRecovery: bool)

  /** The answers of one check: at first, of its recovery, and when checked again. */
  datatype Answers = Answers(first: bool, recovery: bool, recheck: bool)

  /** What a run has counted and flagged so far. */
  datatype Tally = Tally(
    passed: nat, failed: nat, recovered: nat,
    critical: seq<bool>, anyFail: seq<bool>, tested: seq<bool>, attempts: seq<nat>, events: seq<Event>)

  predicate Shaped(t: Tally) {
    |t.critical| == |t.anyFail| == |t.tested| == |t.attempts| == SUBSYSTEMS
  }

  predicate MayRecover(t: Tally, c: Check)
    requires Shaped(t)
  {
    c.severity != Optional && c.hasRecovery && t.attempts[c.subsystem] < MAX_RECOVERY_ATTEMPTS
  }

  /** Whether the check counts as passed: at once, or after a recovery that was still allowed. */
  predicate Passes(t: Tally, c: Check, a: Answers)
    requires Shaped(t)
  {
    a.first || (MayRecover(t, c) && a.recovery && a.recheck)
  }

  function EventsOf(t: Tally, c: Check, a: Answers, k: nat): (es: seq<Event>)
    requires Shaped(t)
    ensures |es| <= 3
  {
    if a.first then [Event(c.subsystem, Pass, k)]
    else if !MayRecover(t, c) then [Event(c.subsystem, Fail, k)]
    else
      [Event(c.subsystem, Fail, k), Event(c.subsystem, RecoveryAttempt, k),
       Event(c.subsystem, if a.recovery && a.recheck then RecoverySuccess else RecoveryFailed, k)]
  }

  function OneCheck(t: Tally, c: Check, a: Answers, k: nat): (r: Tally)
    requires Shaped(t)
    ensures Shaped(r)
  {
    var i, ok, again := c.subsystem, Passes(t, c, a), !a.first && MayRecover(t, c);
    Tally(
      if ok then t.passed + 1 else t.passed,
      if ok then t.failed else t.failed + 1,
      if ok && !a.first then t.recovered + 1 else t.recovered,
      if !ok && c.severity == Critical then t.critical[i := true] else t.critical,
      if !ok then t.anyFail[i := true] else t.anyFail,
      t.tested[i := true],
      if again then t.attempts[i := t.attempts[i] + 1] else t.attempts,
      t.events + EventsOf(t, c, a, k))
  }

  /** The tally after the first `n` checks. */
  function Tallied(t: Tally, checks: seq<Check>, answers: seq<Answers>, n: nat): (r: Tally)
    requires Shaped(t) && n <= |checks| == |answers|
    ensures Shaped(r)
  {
    if n == 0 then t else OneCheck(Tallied(t, checks, answers, n - 1), checks[n - 1], answers[n - 1], n - 1)
  }

  function Start(attempts: seq<nat>): Tally {
    var none := [false, false, false, false, false, false];
    Tally(0, 0, 0, none, none, none, attempts, [])
  }

  function HealthOf(t: Tally, i: Subsystem): Health
    requires Shaped(t)
  {
    if !t.tested[i] then Unknown
    else if t.critical[i] then Failed
    else if t.anyFail[i] then Degraded
    else if t.attempts[i] > 0 then Recovered
    else Healthy
  }

  predicate Troubled(h: Health) {
    h == Degraded || h == Failed
  }

  /** How many of the first `n` subsystems are degraded or failed. */
  function TroubledBelow(healths: seq<Health>, n: nat): nat
    requires n <= |healths|
  {
    if n == 0 then 0 else TroubledBelow(healths, n - 1) + if Troubled(healths[n - 1]) then 1 else 0
  }

  function Healths(t: Tally): (hs: seq<Health>)
    requires Shaped(t)
    ensures |hs| == SUBSYSTEMS
  {
    seq(SUBSYSTEMS, i requires 0 <= i < SUBSYSTEMS => HealthOf(t, i))
  }

  function DegradedEvents(t: Tally, n: nat): (es: seq<Event>)
    requires Shaped(t) && n <= SUBSYSTEMS
    ensures |es| <= n
  {
    if n == 0 then []
    else DegradedEvents(t, n - 1) + if HealthOf(t, n - 1) == Degraded then [Event(n - 1, SubsystemDegraded, 0)] else []
  }

  /** After the failures of single subsystems, and before the number of troubled ones counts. */
  function ModeAfterCritical(mode: BootMode, t: Tally): BootMode
    requires Shaped(t)
  {
    var m := if t.critical[SCHEDULER] then Minimal else mode;
    if t.critical[VFS] && m == Normal then Safe else m
  }

  datatype Report = Report(tally: Tally, healths: seq<Health>, mode: BootMode, events: seq<Event>)

  /** `None`: the kernel halts because memory failed critically. */
  function Diagnosed(attempts: seq<nat>, mode: BootMode, checks: seq<Check>, answers: seq<Answers>): Option<Report>
    requires |attempts| == SUBSYSTEMS && |checks| == |answers|
  {
    var t := Tallied(Start(attempts), checks, answers, |checks|);
    if t.critical[MEMORY] then None
    else
      var m, troubled := ModeAfterCritical(mode, t), TroubledBelow(Healths(t), SUBSYSTEMS);
      var safe := troubled >= 2 && m == Normal;
      Some(Report(t, Healths(t), if safe then Safe else m,
                  t.events + DegradedEvents(t, SUBSYSTEMS) + if safe then [Event(MEMORY, SafeModeEntered, 0)] else []))
  }

  // ---- Accounting ----

  /** Check `k` of the run finally failed. */
  predicate FailsAt(attempts: seq<nat>, checks: seq<Check>, answers: seq<Answers>, k: nat)
    requires |attempts| == SUBSYSTEMS && k < |checks| == |answers|
  {
    !Passes(Tallied(Start(attempts), checks, answers, k), checks[k], answers[k])
  }

  /** The counters add up and recovery stays within its budget. */
  lemma {:induction false} Accounting(attempts: seq<nat>, checks: seq<Check>, answers: seq<Answers>, n: nat)
    requires |attempts| == SUBSYSTEMS && n <= |checks| == |answers|
    requires forall i :: 0 <= i < SUBSYSTEMS ==> attempts[i] <= MAX_RECOVERY_ATTEMPTS
    ensures var t := Tallied(Start(attempts), checks, answers, n);
      && t.passed + t.failed == n && t.recovered <= t.passed
      && (forall i :: 0 <= i < SUBSYSTEMS ==> attempts[i] <= t.attempts[i] <= MAX_RECOVERY_ATTEMPTS)
      && |t.events| <= 3 * n
  {
    if n != 0 {
      Accounting(attempts, checks, answers, n - 1);
    }
  }

  /** How many of the first `n` checks of subsystem `i` were tried to repair; the budget of three ends it. */
  function Retries(attempts: seq<nat>, checks: seq<Check>, answers: seq<Answers>, n: nat, i: Subsystem): nat
    requires |attempts| == SUBSYSTEMS && n <= |checks| == |answers|
  {
    if n == 0 then 0
    else
      var before, c := Retries(attempts, checks, answers, n - 1, i), checks[n - 1];
      if c.subsystem == i && !answers[n - 1].first && c.severity != Optional && c.hasRecovery
         && attempts[i] + before < 3
      then before + 1 else before
  }

  lemma {:induction false} AttemptsAreRetries(
      attempts: seq<nat>, checks: seq<Check>, answers: seq<Answers>, n: nat, i: Subsystem)
    requires |attempts| == SUBSYSTEMS && n <= |checks| == |answers|
    ensures Tallied(Start(attempts), checks, answers, n).attempts[i]
         == attempts[i] + Retries(attempts, checks, answers, n, i)
  {
    if n != 0 {
      AttemptsAreRetries(attempts, checks, answers, n - 1, i);
      AttemptStep(Tallied(Start(attempts), checks, answers, n - 1), checks[n - 1], answers[n - 1], n - 1, i);
      hide OneCheck, Tallied;
    }
  }

  lemma AttemptStep(t: Tally, c: Check, a: Answers, k: nat, i: Subsystem)
    requires Shaped(t)
    ensures OneCheck(t, c, a, k).attempts[i] == t.attempts[i] +
      if c.subsystem == i && !a.first && c.severity != Optional && c.hasRecovery && t.attempts[i] < 3 then 1 else 0
  {
  }

  /**
   A check finally fails exactly when it fails at first and is optional, has no recovery, finds the
   budget of its subsystem used up, or fails in its recovery or when checked again.
   */
  lemma FailsAtIff(attempts: seq<nat>, checks: seq<Check>, answers: seq<Answers>, k: nat)
    requires |attempts| == SUBSYSTEMS && k < |checks| == |answers|
    ensures var c, a := checks[k], answers[k];
      FailsAt(attempts, checks, answers, k) <==>
        && !a.first
        && (c.severity == Optional || !c.hasRecovery || !a.recovery || !a.recheck
            || attempts[c.subsystem] + Retries(attempts, checks, answers, k, c.subsystem) >= 3)
  {
    AttemptsAreRetries(attempts, checks, answers, k, checks[k].subsystem);
    hide Tallied, Retries;
  }

  /** How many of the first `n` checks did not finally fail, and how many of those failed at first. */
  function PassedOf(attempts: seq<nat>, checks: seq<Check>, answers: seq<Answers>, n: nat, repaired: bool): nat
    requires |attempts| == SUBSYSTEMS && n <= |checks| == |answers|
  {
    if n == 0 then 0
    else
      PassedOf(attempts, checks, answers, n - 1, repaired) +
        if !FailsAt(attempts, checks, answers, n - 1) && (repaired ==> !answers[n - 1].first) then 1 else 0
  }

  /** The counters are the numbers of checks that passed, failed, and passed after a repair. */
  lemma {:induction false} CountersCount(attempts: seq<nat>, checks: seq<Check>, answers: seq<Answers>, n: nat)
    requires |attempts| == SUBSYSTEMS && n <= |checks| == |answers|
    ensures var t := Tallied(Start(attempts), checks, answers, n);
      && t.passed == PassedOf(attempts, checks, answers, n, false)
      && t.recovered == PassedOf(attempts, checks, answers, n, true)
      && t.failed == n - t.passed
  {
    if n != 0 {
      CountersCount(attempts, checks, answers, n - 1);
      CounterStep(Tallied(Start(attempts), checks, answers, n - 1), checks[n - 1], answers[n - 1], n - 1);
      hide OneCheck, Passes;
    }
  }

  lemma CounterStep(t: Tally, c: Check, a: Answers, k: nat)
    requires Shaped(t)
    ensures var r := OneCheck(t, c, a, k);
      && r.passed == t.passed + (if Passes(t, c, a) then 1 else 0)
      && r.failed == t.failed + (if Passes(t, c, a) then 0 else 1)
      && r.recovered == t.recovered + (if Passes(t, c, a) && !a.first then 1 else 0)
  {
  }

  /** What the log says of check `k`: its first answer, whether it was tried to repair, and how that ended. */
  lemma LogTells(attempts: seq<nat>, checks: seq<Check>, answers: seq<Answers>, k: nat)
    requires |attempts| == SUBSYSTEMS && k < |checks| == |answers|
    ensures var before := Tallied(Start(attempts), checks, answers, k).events;
      var after, c := Tallied(Start(attempts), checks, answers, k + 1).events, checks[k];
      && before <= after
      && var es := after[|before|..];
        && (|es| == 1 || |es| == 3)
        && es[0] == Event(c.subsystem, if answers[k].first then Pass else Fail, k)
        && (|es| == 3 <==>
              && !answers[k].first && c.severity != Optional && c.hasRecovery
              && attempts[c.subsystem] + Retries(attempts, checks, answers, k, c.subsystem) < 3)
        && (|es| == 3 ==>
              && es[1] == Event(c.subsystem, RecoveryAttempt, k)
              && es[2] == Event(c.subsystem,
                   if FailsAt(attempts, checks, answers, k) then RecoveryFailed else RecoverySuccess, k))
  {
    AttemptsAreRetries(attempts, checks, answers, k, checks[k].subsystem);
    var t := Tallied(Start(attempts), checks, answers, k);
    var after := Tallied(Start(attempts), checks, answers, k + 1).events;
    assert after == t.events + EventsOf(t, checks[k], answers[k], k);
    assert after[|t.events|..] == EventsOf(t, checks[k], answers[k], k);
    hide Tallied, Retries, OneCheck;
  }

  /** A check of subsystem `i` among the first `n` finally failed; a critical one when `onlyCritical`. */
  ghost predicate FailedAmong(
      attempts: seq<nat>, checks: seq<Check>, answers: seq<Answers>, n: nat, i: nat, onlyCritical: bool)
    requires |attempts| == SUBSYSTEMS && n <= |checks| == |answers|
  {
    exists k: nat :: k < n && checks[k].subsystem == i && (onlyCritical ==> checks[k].severity == Critical)
      && FailsAt(attempts, checks, answers, k)
  }

  lemma FailedAmongNext(
      attempts: seq<nat>, checks: seq<Check>, answers: seq<Answers>, n: nat, i: nat, onlyCritical: bool)
    requires |attempts| == SUBSYSTEMS && n < |checks| == |answers|
    ensures FailedAmong(attempts, checks, answers, n + 1, i, onlyCritical) <==>
      || FailedAmong(attempts, checks, answers, n, i, onlyCritical)
      || (checks[n].subsystem == i && (onlyCritical ==> checks[n].severity == Critical)
          && FailsAt(attempts, checks, answers, n))
  {
  }

  /** The flags of a subsystem say exactly whether one of its checks finally failed, and whether a critical one did. */
  lemma {:induction false} FlagsAreFailures(
      attempts: seq<nat>, checks: seq<Check>, answers: seq<Answers>, n: nat, i: Subsystem)
    requires |attempts| == SUBSYSTEMS && n <= |checks| == |answers|
    ensures var t := Tallied(Start(attempts), checks, answers, n);
      && (t.anyFail[i] <==> FailedAmong(attempts, checks, answers, n, i, false))
      && (t.critical[i] <==> FailedAmong(attempts, checks, answers, n, i, true))
      && (t.tested[i] <==> TestedAmong(checks, n, i))
  {
    hide FailedAmong, OneCheck, Passes, TestedAmong;
    if n == 0 {
      NothingAmongNone(attempts, checks, answers, i);
    } else {
      FlagsAreFailures(attempts, checks, answers, n - 1, i);
      FailedAmongNext(attempts, checks, answers, n - 1, i, false);
      FailedAmongNext(attempts, checks, answers, n - 1, i, true);
      TestedAmongNext(checks, n - 1, i);
      FlagStep(Tallied(Start(attempts), checks, answers, n - 1), checks[n - 1], answers[n - 1], n - 1, i);
    }
  }

  /** One of the first `n` checks is of subsystem `i`. */
  ghost predicate TestedAmong(checks: seq<Check>, n: nat, i: nat)
    requires n <= |checks|
  {
    exists k: nat :: k < n && checks[k].subsystem == i
  }

  lemma TestedAmongNext(checks: seq<Check>, n: nat, i: nat)
    requires n < |checks|
    ensures TestedAmong(checks, n + 1, i) <==> TestedAmong(checks, n, i) || checks[n].subsystem == i
  {
  }

  lemma NothingAmongNone(attempts: seq<nat>, checks: seq<Check>, answers: seq<Answers>, i: nat)
    requires |attempts| == SUBSYSTEMS && |checks| == |answers|
    ensures !TestedAmong(checks, 0, i)
    ensures forall only :: !FailedAmong(attempts, checks, answers, 0, i, only)
  {
  }

  lemma FlagStep(t: Tally, c: Check, a: Answers, k: nat, i: Subsystem)
    requires Shaped(t)
    ensures var r := OneCheck(t, c, a, k);
      && (r.anyFail[i] <==> t.anyFail[i] || (c.subsystem == i && !Passes(t, c, a)))
      && (r.critical[i] <==> t.critical[i] || (c.subsystem == i && c.severity == Critical && !Passes(t, c, a)))
      && (r.tested[i] <==> t.tested[i] || c.subsystem == i)
  {
  }

  /** Subsystem `i` is degraded or failed exactly when one of its checks finally failed. */
  lemma TroubleIsFailure(attempts: seq<nat>, checks: seq<Check>, answers: seq<Answers>, i: Subsystem)
    requires |attempts| == SUBSYSTEMS && |checks| == |answers|
    ensures var t := Tallied(Start(attempts), checks, answers, |checks|);
      && (Troubled(HealthOf(t, i)) <==> FailedAmong(attempts, checks, answers, |checks|, i, false))
      && (HealthOf(t, i) == Failed <==> FailedAmong(attempts, checks, answers, |checks|, i, true))
  {
    hide FailedAmong, TestedAmong, Tallied;
    FlagsAreFailures(attempts, checks, answers, |checks|, i);
    FailedIsTested(attempts, checks, answers, |checks|, i);
  }

  lemma FailedIsTested(attempts: seq<nat>, checks: seq<Check>, answers: seq<Answers>, n: nat, i: nat)
    requires |attempts| == SUBSYSTEMS && n <= |checks| == |answers|
    ensures FailedAmong(attempts, checks, answers, n, i, false) ==> TestedAmong(checks, n, i)
    ensures FailedAmong(attempts, checks, answers, n, i, true) ==> FailedAmong(attempts, checks, answers, n, i, false)
  {
    hide FailsAt;
  }

  /** The health of a subsystem after the run, in terms of its checks. */
  lemma HealthIs(attempts: seq<nat>, checks: seq<Check>, answers: seq<Answers>, i: Subsystem)
    requires |attempts| == SUBSYSTEMS && |checks| == |answers|
    ensures var n := |checks|;
      var h := HealthOf(Tallied(Start(attempts), checks, answers, n), i);
      var tested, failed := TestedAmong(checks, n, i), FailedAmong(attempts, checks, answers, n, i, false);
      var critical := FailedAmong(attempts, checks, answers, n, i, true);
      var tried := attempts[i] + Retries(attempts, checks, answers, n, i) > 0;
      && (h == Unknown <==> !tested)
      && (h == Failed <==> critical)
      && (h == Degraded <==> failed && !critical)
      && (h == Recovered <==> tested && !failed && tried)
      && (h == Healthy <==> tested && !failed && !tried)
  {
    hide FailedAmong, TestedAmong, Tallied, Retries;
    FlagsAreFailures(attempts, checks, answers, |checks|, i);
    FailedIsTested(attempts, checks, answers, |checks|, i);
    AttemptsAreRetries(attempts, checks, answers, |checks|, i);
  }

  lemma {:induction false} AtLeastTwo(healths: seq<Health>, n: nat)
    requires n <= |healths|
    ensures TroubledBelow(healths, n) >= 1 <==> exists i: nat :: i < n && Troubled(healths[i])
    ensures TroubledBelow(healths, n) >= 2 <==>
      exists i: nat, j: nat :: i < j < n && Troubled(healths[i]) && Troubled(healths[j])
  {
    if n != 0 {
      AtLeastTwo(healths, n - 1);
      assert (exists i: nat :: i < n && Troubled(healths[i])) <==>
        (Troubled(healths[n - 1]) || exists i: nat :: i < n - 1 && Troubled(healths[i]));
    }
  }

  /** After the events of the checks and of the degraded subsystems, entering safe mode by their number is logged. */
  lemma SafeModeIsLogged(attempts: seq<nat>, mode: BootMode, checks: seq<Check>, answers: seq<Answers>)
    requires |attempts| == SUBSYSTEMS && |checks| == |answers|
    requires Diagnosed(attempts, mode, checks, answers).Some?
    ensures var n, t := |checks|, Tallied(Start(attempts), checks, answers, |checks|);
      var entered := mode == Normal && TwoSubsystemsFailed(attempts, checks, answers)
        && !FailedAmong(attempts, checks, answers, n, SCHEDULER, true)
        && !FailedAmong(attempts, checks, answers, n, VFS, true);
      var r := Diagnosed(attempts, mode, checks, answers).value;
      && r.tally == t && r.healths == Healths(t)
      && r.events ==
           t.events + DegradedEvents(t, SUBSYSTEMS) + (if entered then [Event(MEMORY, SafeModeEntered, 0)] else [])
  {
    hide FailedAmong, Tallied, TwoSubsystemsFailed, DegradedEvents, Healths, TroubledBelow;
    FlagsAreFailures(attempts, checks, answers, |checks|, SCHEDULER);
    FlagsAreFailures(attempts, checks, answers, |checks|, VFS);
    CountIsFailures(attempts, checks, answers);
  }

  /** At least two subsystems are in trouble exactly when checks of two finally failed. */
  lemma CountIsFailures(attempts: seq<nat>, checks: seq<Check>, answers: seq<Answers>)
    requires |attempts| == SUBSYSTEMS && |checks| == |answers|
    ensures TroubledBelow(Healths(Tallied(Start(attempts), checks, answers, |checks|)), SUBSYSTEMS) >= 2
       <==> TwoSubsystemsFailed(attempts, checks, answers)
  {
    hide FailedAmong, Tallied;
    var t := Tallied(Start(attempts), checks, answers, |checks|);
    AtLeastTwo(Healths(t), SUBSYSTEMS);
    forall i: Subsystem
      ensures Troubled(Healths(t)[i]) <==> FailedAmong(attempts, checks, answers, |checks|, i, false)
    {
      TroubleIsFailure(attempts, checks, answers, i);
    }
    TwoTroubled(attempts, checks, answers, Healths(t));
  }

  /** A run that starts in another mode leaves it only for Minimal. */
  lemma ModeFromOther(attempts: seq<nat>, mode: BootMode, checks: seq<Check>, answers: seq<Answers>)
    requires |attempts| == SUBSYSTEMS && |checks| == |answers| && mode != Normal
    ensures var r := Diagnosed(attempts, mode, checks, answers);
      && (r.None? <==> FailedAmong(attempts, checks, answers, |checks|, MEMORY, true))
      && (r.Some? ==>
            r.value.mode == if FailedAmong(attempts, checks, answers, |checks|, SCHEDULER, true) then Minimal else mode)
  {
    hide FailedAmong, Tallied;
    FlagsAreFailures(attempts, checks, answers, |checks|, MEMORY);
    FlagsAreFailures(attempts, checks, answers, |checks|, SCHEDULER);
  }

  /** The degraded subsystems are logged, each once, in order. */
  lemma {:induction false} DegradedAreLogged(t: Tally, n: nat, e: Event)
    requires Shaped(t) && n <= SUBSYSTEMS
    ensures e in DegradedEvents(t, n) <==>
      e.subsystem < n && HealthOf(t, e.subsystem) == Degraded && e == Event(e.subsystem, SubsystemDegraded, 0)
    ensures forall i, j :: 0 <= i < j < |DegradedEvents(t, n)| ==>
      DegradedEvents(t, n)[i].subsystem < DegradedEvents(t, n)[j].subsystem < n
  {
    hide HealthOf;
    if n != 0 {
      DegradedAreLogged(t, n - 1, e);
      var before := DegradedEvents(t, n - 1);
      forall i | 0 <= i < |before| ensures before[i].subsystem < n - 1 {
        DegradedAreLogged(t, n - 1, before[i]);
        assert before[i] in before;
      }
    }
  }

  /**
   The boot mode of a run that starts in Normal and does not halt: Minimal exactly when a critical
   scheduler check finally failed, otherwise Safe exactly when a critical filesystem check did or
   checks of two different subsystems did, otherwise Normal.
   */
  lemma ModeIsDecidedByFailures(attempts: seq<nat>, checks: seq<Check>, answers: seq<Answers>)
    requires |attempts| == SUBSYSTEMS && |checks| == |answers|
    ensures var n := |checks|;
      Diagnosed(attempts, Normal, checks, answers).None? <==> FailedAmong(attempts, checks, answers, n, MEMORY, true)
    ensures var n := |checks|;
      Diagnosed(attempts, Normal, checks, answers).Some? ==>
        Diagnosed(attempts, Normal, checks, answers).value.mode ==
          if FailedAmong(attempts, checks, answers, n, SCHEDULER, true) then Minimal
          else if FailedAmong(attempts, checks, answers, n, VFS, true) || TwoSubsystemsFailed(attempts, checks, answers)
          then Safe
          else Normal
  {
    var t := Tallied(Start(attempts), checks, answers, |checks|);
    FlagsAreFailures(attempts, checks, answers, |checks|, MEMORY);
    FlagsAreFailures(attempts, checks, answers, |checks|, SCHEDULER);
    FlagsAreFailures(attempts, checks, answers, |checks|, VFS);
    CountIsFailures(attempts, checks, answers);
  }

  /** Checks of two different subsystems finally failed. */
  ghost predicate TwoSubsystemsFailed(attempts: seq<nat>, checks: seq<Check>, answers: seq<Answers>)
    requires |attempts| == SUBSYSTEMS && |checks| == |answers|
  {
    exists i: nat, j: nat :: i < j < SUBSYSTEMS
      && FailedAmong(attempts, checks, answers, |checks|, i, false)
      && FailedAmong(attempts, checks, answers, |checks|, j, false)
  }

  lemma TwoTroubled(attempts: seq<nat>, checks: seq<Check>, answers: seq<Answers>, healths: seq<Health>)
    requires |attempts| == SUBSYSTEMS && |checks| == |answers| && |healths| == SUBSYSTEMS
    requires forall i: Subsystem :: Troubled(healths[i]) <==> FailedAmong(attempts, checks, answers, |checks|, i, false)
    ensures (exists i: nat, j: nat :: i < j < SUBSYSTEMS && Troubled(healths[i]) && Troubled(healths[j])) <==>
      TwoSubsystemsFailed(attempts, checks, answers)
  {
    hide FailedAmong;
    if TwoSubsystemsFailed(attempts, checks, answers) {
      var i: nat, j: nat :| i < j < SUBSYSTEMS
        && FailedAmong(attempts, checks, answers, |checks|, i, false)
      && FailedAmong(attempts, checks, answers, |checks|, j, false);
      assert Troubled(healths[i]) && Troubled(healths[j]);
    }
  }

  // ---- The log ----

  /** The log keeps the first 64 events and drops the rest. */
  function Logged(log: seq<Event>, events: seq<Event>): (r: seq<Event>)
    requires |log| <= LOG_SIZE
    ensures |r| == Min(|log| + |events|, 64) && r <= log + events
    ensures |log| + |events| <= LOG_SIZE ==> r == log + events
  {
    (log + events)[..Min(|log + events|, LOG_SIZE)]
  }

  lemma LoggedConcat(log: seq<Event>, a: seq<Event>, b: seq<Event>)
    requires |log| <= LOG_SIZE
    ensures Logged(Logged(log, a), b) == Logged(log, a + b)
  {
    if |log + a| <= LOG_SIZE {
      assert Logged(log, a) == log + a && log + a + b == log + (a + b);
    }
  }

  /** A run emits at most three events a check and seven more, so a first run over 18 or 19 checks drops none. */
  lemma LogUse(attempts: seq<nat>, mode: BootMode, checks: seq<Check>, answers: seq<Answers>)
    requires |attempts| == SUBSYSTEMS && |checks| == |answers|
    requires forall i :: 0 <= i < SUBSYSTEMS ==> attempts[i] <= MAX_RECOVERY_ATTEMPTS
    ensures Diagnosed(attempts, mode, checks, answers).Some? ==>
      var events := Diagnosed(attempts, mode, checks, answers).value.events;
      |events| <= 3 * |checks| + 7 && (|checks| <= 19 ==> Logged([], events) == events)
  {
    Accounting(attempts, checks, answers, |checks|);
    if Diagnosed(attempts, mode, checks, answers).Some? {
      var events := Diagnosed(attempts, mode, checks, answers).value.events;
      assert [] + events == events;
    }
  }

  // ---- The run in memory ----

  datatype Results = Results(total: nat, passed: nat, failed: nat, recovered: nat, mode: BootMode)

  class Diagnoser {
    const health: array<Health>
    const attempts: array<nat>
    const log: array<Event>
    var logCount: nat
    var mode: BootMode

    constructor ()
      ensures Valid() && fresh(health) && fresh(attempts) && fresh(log)
      ensures mode == Normal && Log() == [] && attempts[..] == [0, 0, 0, 0, 0, 0]
    {
      health := new Health[SUBSYSTEMS](i => Unknown);
      attempts := new nat[SUBSYSTEMS](i => 0);
      log := new Event[LOG_SIZE](i => Event(0, Pass, 0));
      logCount, mode := 0, Normal;
    }

    ghost predicate Valid()
      reads this
    {
      && health.Length == attempts.Length == SUBSYSTEMS && log.Length == LOG_SIZE && logCount <= LOG_SIZE
      && (health as object) != attempts && (health as object) != log && (attempts as object) != log
    }

    ghost function Log(): (l: seq<Event>)
      requires Valid()
      reads this, log
      ensures |l| <= LOG_SIZE
    {
      log[..logCount]
    }

    method LogEvent(e: Event)
      requires Valid()
      modifies this`logCount, log
      ensures Valid() && Log() == Logged(old(Log()), [e])
    {
      if logCount < LOG_SIZE {
        log[logCount] := e;
        logCount := logCount + 1;
      }
    }

    method DegradedCount() returns (count: nat)
      requires Valid()
      ensures count == TroubledBelow(health[..], SUBSYSTEMS)
    {
      count := 0;
      for i := 0 to SUBSYSTEMS
        invariant count == TroubledBelow(health[..], i)
      {
        if health[i] == Degraded || health[i] == Failed {
          count := count + 1;
        }
      }
    }

    /** One recovery and recheck, if the check has any and the budget of its subsystem allows. */
    method TryRecovery(c: Check, a: Answers, k: nat, ghost t: Tally) returns (ok: bool)
      requires Valid() && Shaped(t) && t.attempts == attempts[..] && !a.first
      modifies this`logCount, log, attempts
      ensures Valid() && health[..] == old(health[..])
      ensures ok == Passes(t, c, a)
      ensures attempts[..] == OneCheck(t, c, a, k).attempts
      ensures [Event(c.subsystem, Fail, k)] <= EventsOf(t, c, a, k)
      ensures Log() == Logged(old(Log()), EventsOf(t, c, a, k)[1..])
    {
      ghost var log0 := Log();
      LoggedNothing(log0);
      assert EventsOf(t, c, a, k)[0] == Event(c.subsystem, Fail, k);
      if c.severity != Optional && c.hasRecovery && attempts[c.subsystem] < MAX_RECOVERY_ATTEMPTS {
        attempts[c.subsystem] := attempts[c.subsystem] + 1;
        var attempt := Event(c.subsystem, RecoveryAttempt, k);
        LogEvent(attempt);
        ok := a.recovery && a.recheck;
        var result := Event(c.subsystem, if ok then RecoverySuccess else RecoveryFailed, k);
        LogEvent(result);
        LoggedConcat(log0, [attempt], [result]);
        assert EventsOf(t, c, a, k)[1..] == [attempt] + [result];
        return;
      }
      assert EventsOf(t, c, a, k)[1..] == [];
      return false;
    }

    static lemma LoggedNothing(log: seq<Event>)
      requires |log| <= LOG_SIZE
      ensures Logged(log, []) == log
    {
      assert log + [] == log;
    }

    /** One turn of the loop over the checks. */
    method RunCheck(c: Check, a: Answers, k: nat, ghost t: Tally) returns (ok: bool)
      requires Valid() && Shaped(t) && t.attempts == attempts[..]
      modifies this`logCount, log, attempts
      ensures Valid() && health[..] == old(health[..])
      ensures ok == Passes(t, c, a)
      ensures attempts[..] == OneCheck(t, c, a, k).attempts
      ensures Log() == Logged(old(Log()), EventsOf(t, c, a, k))
    {
      if a.first {
        LogEvent(Event(c.subsystem, Pass, k));
        return true;
      }
      ghost var log0, fail := Log(), Event(c.subsystem, Fail, k);
      LogEvent(Event(c.subsystem, Fail, k));
      ok := TryRecovery(c, a, k, t);
      LoggedConcat(log0, [fail], EventsOf(t, c, a, k)[1..]);
      assert [fail] + EventsOf(t, c, a, k)[1..] == EventsOf(t, c, a, k);
    }

    /** `None`: the kernel halted. */
    method RunAll(checks: seq<Check>, answers: seq<Answers>) returns (results: Option<Results>)
      requires Valid() && |checks| == |answers|
      modifies this`logCount, this`mode, log, attempts, health
      ensures Valid()
      ensures var report := Diagnosed(old(attempts[..]), old(mode), checks, answers);
        && (results.None? <==> report.None?)
        && (results.Some? ==>
              var r := report.value;
              && results.value == Results(|checks|, r.tally.passed, r.tally.failed, r.tally.recovered, r.mode)
              && mode == r.mode && health[..] == r.healths && attempts[..] == r.tally.attempts
              && Log() == Logged(old(Log()), r.events))
    {
      var passed, failed, recovered := 0, 0, 0;
      var critical := [false, false, false, false, false, false];
      var anyFail, tested := critical, critical;
      ghost var t, log0, attempts0 := Start(attempts[..]), Log(), attempts[..];
      LoggedNothing(log0);
      for k := 0 to |checks|
        invariant Valid() && mode == old(mode)
        invariant t == Tally(passed, failed, recovered, critical, anyFail, tested, attempts[..], t.events)
        invariant Shaped(t) && t == Tallied(Start(attempts0), checks, answers, k)
        invariant Log() == Logged(log0, t.events)
      {
        var c, a := checks[k], answers[k];
        tested := tested[c.subsystem := true];
        var ok := RunCheck(c, a, k, t);
        LoggedConcat(log0, t.events, EventsOf(t, c, a, k));
        if ok {
          passed := passed + 1;
          if !a.first {
            recovered := recovered + 1;
          }
        } else {
          failed := failed + 1;
          anyFail := anyFail[c.subsystem := true];
          if c.severity == Critical {
            critical := critical[c.subsystem := true];
          }
        }
        t := OneCheck(t, c, a, k);
      }
      UpdateHealth(critical, anyFail, tested, t);
      var degraded := DegradedCount();
      if critical[MEMORY] {
        return None;
      }
      if critical[SCHEDULER] {
        mode := Minimal;
      }
      if critical[VFS] && mode == Normal {
        mode := Safe;
      }
      ghost var events := t.events + DegradedEvents(t, SUBSYSTEMS);
      LoggedConcat(log0, t.events, DegradedEvents(t, SUBSYSTEMS));
      assert events + [] == events;
      if degraded >= 2 && mode == Normal {
        mode := Safe;
        LogEvent(Event(MEMORY, SafeModeEntered, 0));
        LoggedConcat(log0, events, [Event(MEMORY, SafeModeEntered, 0)]);
        events := events + [Event(MEMORY, SafeModeEntered, 0)];
      }
      return Some(Results(|checks|, passed, failed, recovered, mode));
    }

    method UpdateHealth(critical: seq<bool>, anyFail: seq<bool>, tested: seq<bool>, ghost t: Tally)
      requires Valid() && Shaped(t)
      requires t.critical == critical && t.anyFail == anyFail && t.tested == tested && t.attempts == attempts[..]
      modifies this`logCount, log, health
      ensures Valid() && attempts[..] == old(attempts[..])
      ensures health[..] == Healths(t)
      ensures Log() == Logged(old(Log()), DegradedEvents(t, SUBSYSTEMS))
    {
      ghost var log0 := Log();
      LoggedNothing(log0);
      for i := 0 to SUBSYSTEMS
        invariant Valid() && attempts[..] == old(attempts[..])
        invariant forall j: nat :: j < i ==> health[j] == HealthOf(t, j)
        invariant Log() == Logged(log0, DegradedEvents(t, i))
      {
        if !tested[i] {
          health[i] := Unknown;
        } else if critical[i] {
          health[i] := Failed;
        } else if anyFail[i] {
          health[i] := Degraded;
          LogEvent(Event(i, SubsystemDegraded, 0));
          LoggedConcat(log0, DegradedEvents(t, i), [Event(i, SubsystemDegraded, 0)]);
        } else if attempts[i] > 0 {
          health[i] := Recovered;
        } else {
          health[i] := Healthy;
        }
        assert health[i] != Degraded ==> DegradedEvents(t, i + 1) == DegradedEvents(t, i);
      }
    }
  }
}
