/** The scheduler as the kernel runs it: static tables updated in place, and a context switch at the end. */
module ThreadTable {
  import opened Common
  import opened Scheduling
  import opened Context
  import Phys

  class Scheduler {
    const threads: array<Option<Thread>>
    const sleepUntil: array<u64>
    var current: int
    var ticks: u64
    var active: bool
    var nextTid: nat
    var nextPid: nat
    var kernelThreads: Option<nat> // the thread count of process 0

    constructor ()
      ensures Valid() && fresh(threads) && fresh(sleepUntil)
      ensures Value() == Blank()
    {
      threads := new Option<Thread>[MAX_THREADS](i => None);
      sleepUntil := new u64[MAX_THREADS](i => 0);
      current, ticks, active, nextTid, nextPid, kernelThreads := -1, 0, false, 1, 1, None;
    }

    ghost predicate Valid()
      reads this
    {
      threads.Length == sleepUntil.Length == MAX_THREADS && -1 <= current < MAX_THREADS
    }

    ghost function Value(): (s: Sched)
      requires Valid()
      reads this, threads, sleepUntil
      ensures Shaped(s)
    {
      Sched(threads[..], current, ticks, sleepUntil[..], active, nextTid, nextPid, kernelThreads)
    }

    /** The processor runs the current thread, and every saved stack pointer has a frame above it. */
    ghost predicate CanSwitch(cpu: Cpu)
      reads this, cpu, cpu.saved
    {
      && cpu.saved.Length == MAX_THREADS && (current >= 0 ==> cpu.current == current)
      && 6 <= cpu.sp < cpu.mem.Length
      && (forall t :: 0 <= t < MAX_THREADS ==> cpu.saved[t] + 7 <= cpu.mem.Length)
      && (cpu.saved as object) != sleepUntil && (cpu.mem as object) != sleepUntil
      && (cpu.saved as object) != threads && (cpu.mem as object) != threads
    }

    method Init()
      requires Valid()
      modifies this, threads
      ensures Valid() && Value() == Scheduling.Init(old(Value()))
    {
      var pid := nextPid;
      nextPid := nextPid + 1;
      kernelThreads := Some(1);
      var thread := Thread(nextTid, pid, IDLE, Running, IDLE_NAME);
      nextTid := nextTid + 1;
      threads[0] := Some(thread);
      current := 0;
      active := true;
    }

    /** What a spawn needs of memory: the allocator's frames are in it, and the parts are separate objects. */
    ghost predicate CanSpawn(cpu: Cpu, phys: Phys.FrameAllocator)
      reads this, cpu, phys, phys.bitmap
    {
      && phys.Valid() && phys.totalFrames * 512 <= cpu.mem.Length && cpu.saved.Length == MAX_THREADS
      && (cpu.mem as object) != phys.bitmap && (cpu.mem as object) != threads && (cpu.mem as object) != sleepUntil
      && (cpu.mem as object) != cpu.saved && (phys.bitmap as object) != threads && (phys.bitmap as object) != sleepUntil
      && (cpu.saved as object) != threads && (cpu.saved as object) != sleepUntil && (cpu.saved as object) != phys.bitmap
    }

    /**
     A new thread with a prepared stack in the first free slot.  The four frames stay taken also
     when the table is full, and those that were left when memory ran out.
     */
    method SpawnKernelThreadWithPriority(
        cpu: Cpu, phys: Phys.FrameAllocator, entry: u64, name: seq<byte>, priority: Priority)
      returns (tid: Option<nat>)
      requires Valid() && CanSpawn(cpu, phys)
      modifies this`nextTid, this`kernelThreads, threads, cpu.mem, cpu.saved, phys`freeFrames, phys`used, phys.bitmap
      ensures Valid() && phys.Valid()
      ensures phys.used == old(phys.used) + Phys.Elems(Phys.Take(old(phys.used), phys.totalFrames, 4))
      ensures (Value(), tid) == Scheduling.Spawn(old(Value()), old(phys.freeFrames) >= 4, name, priority)
      ensures var fs := Phys.Take(old(phys.used), phys.totalFrames, 4);
        && (|fs| < 4 <==> old(phys.freeFrames) < 4)
        && (|fs| < 4 ==> cpu.mem[..] == Zeroed(old(cpu.mem[..]), fs) && cpu.saved[..] == old(cpu.saved[..]))
        && (|fs| == 4 ==>
              var top, slot := fs[0] * 512 + STACK_WORDS, FirstEmpty(old(threads[..]), 0);
              && top <= cpu.mem.Length
              && cpu.mem[..] == Stored(Zeroed(old(cpu.mem[..]), fs), top - 7, Frame(FreshView(top, entry)))
              && cpu.saved[..] ==
                   if slot < MAX_THREADS then old(cpu.saved[..])[slot := top - 7] else old(cpu.saved[..]))
    {
      hide Phys.Take, Phys.Elems, Zeroed, Stored, Scheduling.Spawn;
      ghost var used, total := phys.used, phys.totalFrames;
      Phys.TakeCount(used, total, 4);
      var bottom := cpu.AllocKernelStack(phys);
      if bottom.None? {
        NoStackNoSpawn(Value(), name, priority);
        return None;
      }
      StackInMemory(used, total);
      var top := bottom.value + STACK_WORDS;
      var rsp := cpu.PrepareStack(top, entry);
      tid := Install(cpu, rsp, name, priority);
    }

    static lemma NoStackNoSpawn(s: Sched, name: seq<byte>, priority: Priority)
      requires Shaped(s)
      ensures Scheduling.Spawn(s, false, name, priority) == (s, None)
    {
    }

    /** The prepared thread gets the next id, and the first empty slot if there is one. */
    method Install(cpu: Cpu, rsp: nat, name: seq<byte>, priority: Priority) returns (tid: Option<nat>)
      requires Valid() && cpu.saved.Length == MAX_THREADS
      requires (cpu.saved as object) != threads && (cpu.saved as object) != sleepUntil
      modifies this`nextTid, this`kernelThreads, threads, cpu.saved
      ensures Valid() && (Value(), tid) == Scheduling.Spawn(old(Value()), true, name, priority)
      ensures var slot := FirstEmpty(old(threads[..]), 0);
        cpu.saved[..] == if slot < MAX_THREADS then old(cpu.saved[..])[slot := rsp] else old(cpu.saved[..])
    {
      var id := nextTid;
      nextTid := nextTid + 1;
      for i := 0 to MAX_THREADS
        invariant FirstEmpty(threads[..], 0) == FirstEmpty(threads[..], i)
        invariant threads[..] == old(threads[..]) && sleepUntil[..] == old(sleepUntil[..])
        invariant cpu.saved[..] == old(cpu.saved[..])
        invariant Value() == old(Value()).(nextTid := id + 1)
      {
        if threads[i].None? {
          threads[i] := Some(Thread(id, 0, priority, Ready, name[..Min(|name|, 31)]));
          match kernelThreads {
            case Some(n) => kernelThreads := Some(n + 1);
            case None =>
          }
          cpu.saved[i] := rsp;
          return Some(id);
        }
      }
      return None;
    }

    /** Also when the frames are not consecutive, the region taken for the stack ends inside memory. */
    static lemma StackInMemory(used: set<nat>, total: nat)
      requires |Phys.Take(used, total, 4)| == 4
      ensures Phys.Take(used, total, 4)[0] + 4 <= total
    {
      Phys.TakeAscending(used, total, 4);
      var fs := Phys.Take(used, total, 4);
      assert fs[3] in fs && fs[0] < fs[1] < fs[2] < fs[3];
    }

    method Schedule(cpu: Cpu)
      requires Valid() && CanSwitch(cpu)
      modifies this`current, threads, cpu, cpu.mem, cpu.saved
      ensures Valid() && Value() == Scheduling.Schedule(old(Value()))
      ensures cpu.Value() == if current != old(current) then Switched(old(cpu.Value()), current) else old(cpu.Value())
    {
      if !active || current < 0 {
        return;
      }
      var cur := current;
      Turn(cur, Running, Ready);
      ghost var turned := threads[..];
      var next := FindNext(cur);
      PickIsLastOfTheBest(turned, cur);
      if next.None? {
        Turn(cur, Ready, Running);
        return;
      }
      Turn(next.value, Ready, Running);
      if next.value == cur {
        return;
      }
      current := next.value;
      cpu.SwitchTo(next.value);
    }

    method Turn(i: nat, from: TaskState, to: TaskState)
      requires Valid() && i < MAX_THREADS
      modifies threads
      ensures threads[..] == Turned(old(threads[..]), i, from, to)
    {
      match threads[i] {
        case Some(t) =>
          if t.state == from {
            threads[i] := Some(t.(state := to));
          }
        case None =>
      }
    }

    method FindNext(cur: nat) returns (next: Option<nat>)
      requires Valid() && cur < MAX_THREADS
      ensures next == Pick(threads[..], cur)
    {
      next := None;
      var bestPriority := IDLE;
      for i := 0 to MAX_THREADS
        invariant Scan(threads[..], cur, i) == Choice(next, bestPriority)
      {
        var idx := (cur + 1 + i) % MAX_THREADS;
        assert idx == SlotAfter(cur, i + 1);
        match threads[idx] {
          case Some(t) =>
            if t.state == Ready && t.priority >= bestPriority {
              bestPriority := t.priority;
              next := Some(idx);
            }
          case None =>
        }
      }
    }

    method SleepTicks(cpu: Cpu, n: u64)
      requires Valid() && CanSwitch(cpu)
      modifies this`current, threads, sleepUntil, cpu, cpu.mem, cpu.saved
      ensures Valid() && Value() == Scheduling.SleepTicks(old(Value()), n)
      ensures cpu.Value() == if current != old(current) then Switched(old(cpu.Value()), current) else old(cpu.Value())
    {
      if current < 0 {
        return;
      }
      sleepUntil[current] := (ticks + n) % TICKS_MOD;
      Stop(cpu, Blocked);
    }

    /** `block_current` and `exit_current`. */
    method Stop(cpu: Cpu, state: TaskState)
      requires Valid() && CanSwitch(cpu)
      modifies this`current, threads, cpu, cpu.mem, cpu.saved
      ensures Valid() && Value() == Scheduling.Stop(old(Value()), state)
      ensures cpu.Value() == if current != old(current) then Switched(old(cpu.Value()), current) else old(cpu.Value())
    {
      if current < 0 {
        return;
      }
      match threads[current] {
        case Some(t) => threads[current] := Some(t.(state := state));
        case None =>
      }
      Schedule(cpu);
    }

    method WakeSleepingThreads()
      requires Valid() && (threads as object) != sleepUntil
      modifies threads, sleepUntil
      ensures Valid() && Value() == Wake(old(Value()))
    {
      ghost var s := Value();
      ghost var w := Wake(s);
      for i := 0 to MAX_THREADS
        invariant forall j :: 0 <= j < MAX_THREADS ==> threads[j] == if j < i then w.threads[j] else s.threads[j]
        invariant forall j :: 0 <= j < MAX_THREADS ==>
          sleepUntil[j] == if j < i then w.sleepUntil[j] else s.sleepUntil[j]
      {
        WokenSlot(s, i);
        if sleepUntil[i] > 0 && ticks >= sleepUntil[i] {
          sleepUntil[i] := 0;
          match threads[i] {
            case Some(t) =>
              if t.state == Blocked {
                threads[i] := Some(t.(state := Ready));
              }
            case None =>
          }
        }
      }
      assert threads[..] == w.threads && sleepUntil[..] == w.sleepUntil;
    }

    static lemma WokenSlot(s: Sched, i: nat)
      requires Shaped(s) && i < MAX_THREADS
      ensures Wake(s).sleepUntil[i] == if Due(s, i) then 0 else s.sleepUntil[i]
      ensures Wake(s).threads[i] ==
        if Due(s, i) && Is(s.threads, i, Blocked) then Some(s.threads[i].value.(state := Ready)) else s.threads[i]
    {
    }

    method TimerTick(cpu: Cpu)
      requires Valid() && CanSwitch(cpu) && (threads as object) != sleepUntil
      modifies this`current, this`ticks, threads, sleepUntil, cpu, cpu.mem, cpu.saved
      ensures Valid() && Value() == Tick(old(Value()))
      ensures cpu.Value() == if current != old(current) then Switched(old(cpu.Value()), current) else old(cpu.Value())
    {
      ticks := (ticks + 1) % TICKS_MOD;
      WakeSleepingThreads();
      Schedule(cpu);
    }

    method UnblockThread(i: nat)
      requires Valid()
      modifies threads
      ensures Valid() && Value() == Unblock(old(Value()), i)
    {
      if i < MAX_THREADS {
        Turn(i, Blocked, Ready);
      }
    }
  }
}
