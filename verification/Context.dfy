/**
 Kernel stacks and the context switch, as a machine with the callee-saved registers, a stack
 pointer and word-addressed memory.  Addresses count 8-byte words, so a frame is 512 of them.
 */
module Context {
  import opened Common
  import opened Phys

  const STACK_WORDS: nat := 2048 // 16 KiB

  /** The callee-saved registers of the System V AMD64 ABI, section 3.2.1, without the stack pointer. */
  datatype Regs = Regs(rbp: u64, rbx: u64, r12: u64, r13: u64, r14: u64, r15: u64)

  /** `saved[t]` is `THREADS[t].context.rsp`; `pc` is where the running thread continues. */
  datatype Machine = Machine(regs: Regs, sp: nat, pc: u64, mem: seq<u64>, saved: seq<nat>, current: nat)

  /** What a thread sees when it continues: its registers, stack pointer and program counter. */
  datatype View = View(regs: Regs, sp: nat, pc: u64)

  /** The words a suspended thread keeps at its saved stack pointer, lowest address first. */
  function Frame(v: View): seq<u64> {
    [v.regs.r15, v.regs.r14, v.regs.r13, v.regs.r12, v.regs.rbx, v.regs.rbp, v.pc]
  }

  /** A stack is the words from `low` up to `high`, and grows down from `high`. */
  datatype Stack = Stack(low: nat, high: nat)

  function Stored(mem: seq<u64>, at: nat, words: seq<u64>): (m: seq<u64>)
    requires at + |words| <= |mem|
    ensures |m| == |mem|
  {
    seq(|mem|, i requires 0 <= i < |mem| => if at <= i < at + |words| then words[i - at] else mem[i])
  }

  // ---- Steps of the machine ----

  datatype Step =
    | Work(view: View, writes: map<nat, u64>) // the running thread computes on its own stack
    | SwitchTo(next: nat)
    | Spawn(slot: nat, entry: u64) // prepares the stack of a thread that has not run yet

  predicate WellFormed(c: Machine, stacks: seq<Stack>) {
    && |c.saved| == |stacks| && c.current < |stacks|
    && (forall t :: 0 <= t < |stacks| ==> stacks[t].low <= stacks[t].high <= |c.mem|)
    && (forall t, u :: 0 <= t < u < |stacks| ==> stacks[t].high <= stacks[u].low || stacks[u].high <= stacks[t].low)
  }

  /** The running thread writes its own stack only, and has room for the seven words of a switch. */
  predicate Possible(c: Machine, stacks: seq<Stack>, step: Step)
    requires WellFormed(c, stacks)
  {
    var own := stacks[c.current];
    match step
    case Work(view, writes) => own.low <= view.sp <= own.high && forall a :: a in writes ==> own.low <= a < own.high
    case SwitchTo(next) => next < |stacks| && next != c.current && own.low + 6 <= c.sp < own.high
    case Spawn(t, _) => t < |stacks| && t != c.current && stacks[t].low + 7 <= stacks[t].high
  }

  /** Suspended thread `t` will continue with view `v`. */
  predicate Suspended(c: Machine, stack: Stack, t: nat, v: View) {
    && t < |c.saved|
    && c.saved[t] + 7 == v.sp <= stack.high <= |c.mem| && stack.low <= c.saved[t]
    && c.mem[c.saved[t]..c.saved[t] + 7] == Frame(v)
  }

  function CurrentView(c: Machine): View {
    View(c.regs, c.sp, c.pc)
  }

  /** What the running thread will see when the call of `switch_to` it is in returns. */
  function ReturnView(c: Machine): View
    requires c.sp < |c.mem|
  {
    View(c.regs, c.sp + 1, c.mem[c.sp])
  }

  /** The six pushes: the frame under the return address. */
  function Pushed(c: Machine): (m: seq<u64>)
    requires 6 <= c.sp < |c.mem|
    ensures |m| == |c.mem|
  {
    Stored(c.mem, c.sp - 6, Frame(ReturnView(c)))
  }

  /** `switch_to`: push the registers, save the stack pointer, load the next one, pop and return. */
  function Switched(c: Machine, next: nat): Machine
    requires 6 <= c.sp < |c.mem| && c.current < |c.saved| && next < |c.saved| && next != c.current
    requires c.saved[next] + 7 <= |c.mem|
  {
    var mem, sp := Pushed(c), c.saved[next];
    Machine(
      Regs(mem[sp + 5], mem[sp + 4], mem[sp + 3], mem[sp + 2], mem[sp + 1], mem[sp]),
      sp + 7, mem[sp + 6], mem, c.saved[c.current := c.sp - 6], next)
  }

  /** The initial stack: the entry point as return address under the top, and zeros for the registers. */
  function FreshView(top: nat, entry: u64): View {
    View(Regs(0, 0, 0, 0, 0, 0), top, entry)
  }

  /** What each suspended thread will see, after `step`. */
  function Views(c: Machine, stacks: seq<Stack>, views: seq<View>, step: Step): seq<View>
    requires WellFormed(c, stacks) && |views| == |stacks| && Possible(c, stacks, step)
  {
    match step
    case Work(_, _) => views
    case SwitchTo(_) => views[c.current := ReturnView(c)]
    case Spawn(t, entry) => views[t := FreshView(stacks[t].high, entry)]
  }

  /** Every thread that is not running is suspended with the view recorded for it. */
  predicate Parked(c: Machine, stacks: seq<Stack>, views: seq<View>) {
    && WellFormed(c, stacks) && |views| == |stacks|
    && forall t :: 0 <= t < |stacks| && t != c.current ==> Suspended(c, stacks[t], t, views[t])
  }

  function Execute(c: Machine, stacks: seq<Stack>, views: seq<View>, step: Step): (d: Machine)
    requires Parked(c, stacks, views) && Possible(c, stacks, step)
    ensures |d.mem| == |c.mem|
  {
    match step
    case Work(v, writes) =>
      Machine(v.regs, v.sp, v.pc,
        seq(|c.mem|, i requires 0 <= i < |c.mem| => if i in writes then writes[i] else c.mem[i]), c.saved, c.current)
    case SwitchTo(next) =>
      assert Suspended(c, stacks[next], next, views[next]);
      Switched(c, next)
    case Spawn(t, entry) =>
      var high := stacks[t].high;
      c.(mem := Stored(c.mem, high - 7, Frame(FreshView(high, entry))), saved := c.saved[t := high - 7])
  }

  // ---- Stacks do not disturb each other ----

  lemma UntouchedStaysSuspended(c: Machine, d: Machine, own: Stack, stack: Stack, t: nat, v: View)
    requires Suspended(c, stack, t, v) && |d.mem| == |c.mem| && |d.saved| == |c.saved|
    requires d.saved[t] == c.saved[t]
    requires own.high <= stack.low || stack.high <= own.low
    requires forall a :: 0 <= a < |c.mem| && !(own.low <= a < own.high) ==> d.mem[a] == c.mem[a]
    ensures Suspended(d, stack, t, v)
  {
    assert d.mem[c.saved[t]..c.saved[t] + 7] == c.mem[c.saved[t]..c.saved[t] + 7];
  }

  /** The stack a step writes. */
  function Touched(c: Machine, stacks: seq<Stack>, step: Step): (t: nat)
    requires WellFormed(c, stacks) && Possible(c, stacks, step)
    ensures t < |stacks|
  {
    if step.Spawn? then step.slot else c.current
  }

  lemma StepTouches(c: Machine, stacks: seq<Stack>, views: seq<View>, step: Step)
    requires Parked(c, stacks, views) && Possible(c, stacks, step)
    ensures var d, own := Execute(c, stacks, views, step), stacks[Touched(c, stacks, step)];
      && |d.saved| == |c.saved|
      && (forall a :: 0 <= a < |c.mem| && !(own.low <= a < own.high) ==> d.mem[a] == c.mem[a])
      && (forall t :: 0 <= t < |stacks| && t != Touched(c, stacks, step) ==> d.saved[t] == c.saved[t])
  {
    if step.SwitchTo? {
      assert Suspended(c, stacks[step.next], step.next, views[step.next]);
    }
  }

  /** Every step leaves all the other threads suspended as they were, and a switch continues one of them. */
  lemma StepKeepsParked(c: Machine, stacks: seq<Stack>, views: seq<View>, step: Step)
    requires Parked(c, stacks, views) && Possible(c, stacks, step)
    ensures Parked(Execute(c, stacks, views, step), stacks, Views(c, stacks, views, step))
    ensures step.SwitchTo? ==> CurrentView(Execute(c, stacks, views, step)) == views[step.next]
  {
    var d, views2, own := Execute(c, stacks, views, step), Views(c, stacks, views, step), Touched(c, stacks, step);
    StepTouches(c, stacks, views, step);
    forall t | 0 <= t < |stacks| && t != d.current ensures Suspended(d, stacks[t], t, views2[t]) {
      if t == own {
        OwnFrameStored(c, stacks, views, step);
      } else {
        UntouchedStaysSuspended(c, d, stacks[own], stacks[t], t, views[t]);
      }
    }
    if step.SwitchTo? {
      SwitchPops(c, stacks, views, step.next);
    }
  }

  /** The words a switch or a spawn stores are the frame of the thread they suspend. */
  lemma OwnFrameStored(c: Machine, stacks: seq<Stack>, views: seq<View>, step: Step)
    requires Parked(c, stacks, views) && Possible(c, stacks, step) && !step.Work?
    ensures var d, t := Execute(c, stacks, views, step), Touched(c, stacks, step);
      Suspended(d, stacks[t], t, Views(c, stacks, views, step)[t])
  {
    var d, t := Execute(c, stacks, views, step), Touched(c, stacks, step);
    var v := Views(c, stacks, views, step)[t];
    if step.SwitchTo? {
      StoredThere(c.mem, c.sp - 6, Frame(v));
    } else {
      StoredThere(c.mem, stacks[t].high - 7, Frame(v));
    }
  }

  lemma StoredThere(mem: seq<u64>, at: nat, words: seq<u64>)
    requires at + |words| <= |mem|
    ensures Stored(mem, at, words)[at..at + |words|] == words
  {
  }

  lemma SwitchPops(c: Machine, stacks: seq<Stack>, views: seq<View>, next: nat)
    requires Parked(c, stacks, views) && Possible(c, stacks, SwitchTo(next))
    ensures CurrentView(Execute(c, stacks, views, SwitchTo(next))) == views[next]
  {
    var d, own, sp := Execute(c, stacks, views, SwitchTo(next)), c.current, c.saved[next];
    StepTouches(c, stacks, views, SwitchTo(next));
    assert Suspended(c, stacks[next], next, views[next]);
    UntouchedStaysSuspended(c, d, stacks[own], stacks[next], next, views[next]);
    FrameWords(d.mem, sp, views[next]);
    assert d.mem == Pushed(c);
    assert d.regs == views[next].regs;
  }

  lemma FrameWords(mem: seq<u64>, sp: nat, v: View)
    requires sp + 7 <= |mem| && mem[sp..sp + 7] == Frame(v)
    ensures Regs(mem[sp + 5], mem[sp + 4], mem[sp + 3], mem[sp + 2], mem[sp + 1], mem[sp]) == v.regs
    ensures mem[sp + 6] == v.pc
  {
    var frame := mem[sp..sp + 7];
    assert frame[0] == mem[sp] && frame[1] == mem[sp + 1] && frame[2] == mem[sp + 2] && frame[3] == mem[sp + 3];
    assert frame[4] == mem[sp + 4] && frame[5] == mem[sp + 5] && frame[6] == mem[sp + 6];
  }

  // ---- Runs ----

  /** The steps can be taken one after the other. */
  ghost predicate Legal(c: Machine, stacks: seq<Stack>, views: seq<View>, steps: seq<Step>)
    requires Parked(c, stacks, views)
    decreases |steps|
  {
    |steps| > 0 ==>
      && Possible(c, stacks, steps[0])
      && (StepKeepsParked(c, stacks, views, steps[0]);
          Legal(Execute(c, stacks, views, steps[0]), stacks, Views(c, stacks, views, steps[0]), steps[1..]))
  }

  ghost function Run(c: Machine, stacks: seq<Stack>, views: seq<View>, steps: seq<Step>): Machine
    requires Parked(c, stacks, views) && Legal(c, stacks, views, steps)
    decreases |steps|
  {
    if |steps| == 0 then c
    else
      StepKeepsParked(c, stacks, views, steps[0]);
      Run(Execute(c, stacks, views, steps[0]), stacks, Views(c, stacks, views, steps[0]), steps[1..])
  }

  predicate LeavesAlone(steps: seq<Step>, t: nat) {
    forall i :: 0 <= i < |steps| ==> steps[i] != SwitchTo(t) && !(steps[i].Spawn? && steps[i].slot == t)
  }

  /** However the other threads run and switch, a suspended thread continues with the view it was left with. */
  lemma {:induction false} SuspendedThreadResumes(
      c: Machine, stacks: seq<Stack>, views: seq<View>, steps: seq<Step>, t: nat)
    requires Parked(c, stacks, views) && t < |stacks| && t != c.current
    requires LeavesAlone(steps, t) && Legal(c, stacks, views, steps + [SwitchTo(t)])
    ensures CurrentView(Run(c, stacks, views, steps + [SwitchTo(t)])) == views[t]
    decreases |steps|
  {
    var all := steps + [SwitchTo(t)];
    StepKeepsParked(c, stacks, views, all[0]);
    var d, views2 := Execute(c, stacks, views, all[0]), Views(c, stacks, views, all[0]);
    if |steps| == 0 {
      assert all[1..] == [];
    } else {
      assert all[1..] == steps[1..] + [SwitchTo(t)];
      assert steps[0] != SwitchTo(t);
      SuspendedThreadResumes(d, stacks, views2, steps[1..], t);
    }
  }

  /**
   A thread switched out and later back in returns from its call of `switch_to` with its own
   registers and stack pointer, to its own return address.
   */
  lemma SwitchOutAndBack(c: Machine, stacks: seq<Stack>, views: seq<View>, next: nat, steps: seq<Step>)
    requires Parked(c, stacks, views) && LeavesAlone(steps, c.current)
    requires Legal(c, stacks, views, [SwitchTo(next)] + (steps + [SwitchTo(c.current)]))
    ensures c.sp < |c.mem|
    ensures CurrentView(Run(c, stacks, views, [SwitchTo(next)] + (steps + [SwitchTo(c.current)]))) == ReturnView(c)
  {
    var first, rest := SwitchTo(next), steps + [SwitchTo(c.current)];
    assert ([first] + rest)[1..] == rest && ([first] + rest)[0] == first;
    StepKeepsParked(c, stacks, views, first);
    SuspendedThreadResumes(Execute(c, stacks, views, first), stacks, Views(c, stacks, views, first), steps, c.current);
  }

  /** A new thread starts at its entry point with all registers zero and an empty stack. */
  lemma FreshThreadStartsAtEntry(
      c: Machine, stacks: seq<Stack>, views: seq<View>, t: nat, entry: u64, steps: seq<Step>)
    requires Parked(c, stacks, views) && LeavesAlone(steps, t) && t < |stacks|
    requires Legal(c, stacks, views, [Spawn(t, entry)] + (steps + [SwitchTo(t)]))
    ensures CurrentView(Run(c, stacks, views, [Spawn(t, entry)] + (steps + [SwitchTo(t)])))
         == View(Regs(0, 0, 0, 0, 0, 0), stacks[t].high, entry)
  {
    var first, rest := Spawn(t, entry), steps + [SwitchTo(t)];
    assert ([first] + rest)[1..] == rest && ([first] + rest)[0] == first;
    StepKeepsParked(c, stacks, views, first);
    SuspendedThreadResumes(Execute(c, stacks, views, first), stacks, Views(c, stacks, views, first), steps, t);
  }

  // ---- Kernel stacks from the frame allocator ----

  /** Memory with the given frames cleared. */
  function Zeroed(mem: seq<u64>, frames: seq<nat>): (m: seq<u64>)
    ensures |m| == |mem|
  {
    seq(|mem|, a requires 0 <= a < |mem| => if a / 512 in frames then 0 else mem[a])
  }

  /** The frames taken so far, and the allocator and memory they leave. */
  datatype Pages = Pages(frames: seq<nat>, used: set<nat>, mem: seq<u64>)

  ghost predicate Taken(p: Pages, used: set<nat>, total: nat, mem: seq<u64>, k: nat) {
    match p
    case Pages(fs, used2, mem2) => Grabbed(Grab(fs, used2), used, total, k) && mem2 == Zeroed(mem, fs)
  }

  lemma NoneTaken(used: set<nat>, total: nat, mem: seq<u64>)
    ensures Taken(Pages([], used, mem), used, total, mem, 0)
  {
    NothingGrabbed(used, total);
  }

  lemma OneMoreTaken(p: Pages, used: set<nat>, total: nat, mem: seq<u64>, k: nat, f: nat)
    requires Taken(p, used, total, mem, k) && f == FirstFree(p.used, total, 0) < total
    ensures Taken(Pages(p.frames + [f], p.used + {f}, Zeroed(p.mem, [f])), used, total, mem, k + 1)
  {
    OneMoreGrabbed(Grab(p.frames, p.used), used, total, k, f);
    assert Zeroed(Zeroed(mem, p.frames), [f]) == Zeroed(mem, p.frames + [f]);
  }

  lemma AllTaken(p: Pages, used: set<nat>, total: nat, mem: seq<u64>, k: nat)
    requires Taken(p, used, total, mem, k)
    ensures p.frames == Take(used, total, k) && |p.frames| == k
  {
  }

  lemma NoMoreTaken(p: Pages, used: set<nat>, total: nat, mem: seq<u64>, k: nat, n: nat)
    requires Taken(p, used, total, mem, k) && FirstFree(p.used, total, 0) == total && k < n
    ensures p.frames == Take(used, total, n) && |p.frames| < n && Taken(p, used, total, mem, |p.frames|)
  {
    NoMoreGrabbed(Grab(p.frames, p.used), used, total, k, n);
  }

  // ---- The processor ----

  class Cpu {
    var rbp: u64
    var rbx: u64
    var r12: u64
    var r13: u64
    var r14: u64
    var r15: u64
    var sp: nat
    var pc: u64
    const mem: array<u64>
    const saved: array<nat>
    var current: nat

    constructor (words: nat, threads: nat)
      ensures fresh(mem) && fresh(saved) && mem.Length == words && saved.Length == threads
    {
      rbp, rbx, r12, r13, r14, r15, sp, pc, current := 0, 0, 0, 0, 0, 0, 0, 0, 0;
      mem := new u64[words](i => 0);
      saved := new nat[threads](i => 0);
    }

    ghost function Value(): Machine
      reads this, mem, saved
    {
      Machine(Regs(rbp, rbx, r12, r13, r14, r15), sp, pc, mem[..], saved[..], current)
    }

    method Push(v: u64)
      requires 0 < sp <= mem.Length
      modifies this`sp, mem
      ensures sp == old(sp) - 1 && mem[..] == old(mem[..])[sp := v]
    {
      sp := sp - 1;
      mem[sp] := v;
    }

    method Pop() returns (v: u64)
      requires sp < mem.Length
      modifies this`sp
      ensures sp == old(sp) + 1 && v == mem[old(sp)]
    {
      v := mem[sp];
      sp := sp + 1;
    }

    method SwitchTo(next: nat)
      requires 6 <= sp < mem.Length && current < saved.Length && next < saved.Length && next != current
      requires saved[next] + 7 <= mem.Length
      modifies this, mem, saved
      ensures Value() == Switched(old(Value()), next)
    {
      hide Pushed, Stored, Frame, ReturnView;
      ghost var c := Value();
      PushRegisters();
      saved[current] := sp;
      sp := saved[next];
      current := next;
      PopRegisters();
    }

    method PushRegisters()
      requires 6 <= sp < mem.Length
      modifies this`sp, mem
      ensures sp == old(sp) - 6 && mem[..] == Pushed(old(Value()))
    {
      ghost var c := Value();
      Push(rbp);
      Push(rbx);
      Push(r12);
      Push(r13);
      Push(r14);
      Push(r15);
      SixPushes(c);
    }

    static lemma SixPushes(c: Machine)
      requires 6 <= c.sp < |c.mem|
      ensures c.mem[c.sp - 1 := c.regs.rbp][c.sp - 2 := c.regs.rbx][c.sp - 3 := c.regs.r12]
        [c.sp - 4 := c.regs.r13][c.sp - 5 := c.regs.r14][c.sp - 6 := c.regs.r15] == Pushed(c)
    {
    }

    method PopRegisters()
      requires sp + 7 <= mem.Length
      modifies this
      ensures sp == old(sp) + 7 && current == old(current)
      ensures var m, at := mem[..], old(sp);
        && Regs(rbp, rbx, r12, r13, r14, r15) == Regs(m[at + 5], m[at + 4], m[at + 3], m[at + 2], m[at + 1], m[at])
        && pc == m[at + 6]
    {
      r15 := Pop();
      r14 := Pop();
      r13 := Pop();
      r12 := Pop();
      rbx := Pop();
      rbp := Pop();
      pc := Pop();
    }

    /** The stack layout of `spawn_kernel_thread`; the result goes into the new thread's saved stack pointer. */
    method PrepareStack(top: nat, entry: u64) returns (rsp: nat)
      requires 7 <= top <= mem.Length
      modifies mem
      ensures rsp == top - 7
      ensures mem[..] == Stored(old(mem[..]), rsp, Frame(FreshView(top, entry)))
    {
      hide Stored, Frame;
      ghost var m := mem[..];
      rsp := top - 1;
      mem[rsp] := entry;
      rsp := rsp - 1;
      mem[rsp] := 0; // rbp
      rsp := rsp - 1;
      mem[rsp] := 0; // rbx
      rsp := rsp - 1;
      mem[rsp] := 0; // r12
      rsp := rsp - 1;
      mem[rsp] := 0; // r13
      rsp := rsp - 1;
      mem[rsp] := 0; // r14
      rsp := rsp - 1;
      mem[rsp] := 0; // r15
      SevenWords(m, top, entry);
    }

    static lemma SevenWords(m: seq<u64>, top: nat, entry: u64)
      requires 7 <= top <= |m|
      ensures m[top - 1 := entry][top - 2 := 0][top - 3 := 0][top - 4 := 0][top - 5 := 0][top - 6 := 0][top - 7 := 0]
           == Stored(m, top - 7, Frame(FreshView(top, entry)))
    {
    }

    /** Four frames, each zeroed; when memory runs out the frames already taken stay taken. */
    method AllocKernelStack(phys: FrameAllocator) returns (bottom: Option<nat>)
      requires phys.Valid() && phys.totalFrames * 512 <= mem.Length && (mem as object) != phys.bitmap
      modifies phys`freeFrames, phys`used, phys.bitmap, mem
      ensures phys.Valid()
      ensures var fs := Take(old(phys.used), phys.totalFrames, 4);
        && phys.used == old(phys.used) + Elems(fs)
        && mem[..] == Zeroed(old(mem[..]), fs)
        && bottom == if |fs| == 4 then Some(fs[0] * 512) else None
      ensures bottom.Some? <==> old(phys.freeFrames) >= 4
    {
      TakeCount(phys.used, phys.totalFrames, 4);
      ghost var fs;
      bottom, fs := AllocPages(phys, 4);
    }

    method AllocPages(phys: FrameAllocator, pages: nat) returns (bottom: Option<nat>, ghost fs: seq<nat>)
      requires phys.Valid() && phys.totalFrames * 512 <= mem.Length && (mem as object) != phys.bitmap
      requires pages > 0
      modifies phys`freeFrames, phys`used, phys.bitmap, mem
      ensures phys.Valid()
      ensures Taken(Pages(fs, phys.used, mem[..]), old(phys.used), phys.totalFrames, old(mem[..]), |fs|)
      ensures fs == Take(old(phys.used), phys.totalFrames, pages)
      ensures bottom == if |fs| == pages then Some(fs[0] * 512) else None
    {
      hide Taken, Take, Zeroed;
      ghost var used, total, m := phys.used, phys.totalFrames, mem[..];
      fs := [];
      NoneTaken(used, total, m);
      var base := 0;
      for i := 0 to pages
        invariant phys.Valid() && phys.totalFrames == total
        invariant Taken(Pages(fs, phys.used, mem[..]), used, total, m, i)
        invariant |fs| == i && (i > 0 ==> base == fs[0] * 512)
      {
        ghost var p := Pages(fs, phys.used, mem[..]);
        var first := AllocZeroedFrame(phys);
        if first.None? {
          NoMoreTaken(p, used, total, m, i, pages);
          return None, fs;
        }
        ghost var f := FirstFree(p.used, total, 0);
        OneMoreTaken(p, used, total, m, i, f);
        if i == 0 {
          base := first.value;
        }
        fs := fs + [f];
      }
      AllTaken(Pages(fs, phys.used, mem[..]), used, total, m, pages);
      return Some(base), fs;
    }

    method AllocZeroedFrame(phys: FrameAllocator) returns (first: Option<nat>)
      requires phys.Valid() && phys.totalFrames * 512 <= mem.Length && (mem as object) != phys.bitmap
      modifies phys`freeFrames, phys`used, phys.bitmap, mem
      ensures phys.Valid()
      ensures var f := FirstFree(old(phys.used), phys.totalFrames, 0);
        if f == phys.totalFrames then
          first.None? && phys.used == old(phys.used) && mem[..] == old(mem[..])
        else
          && first == Some(f * 512) && phys.used == old(phys.used) + {f}
          && mem[..] == Zeroed(old(mem[..]), [f])
    {
      RangeSize(0, phys.totalFrames);
      SubsetSize(phys.used, Range(0, phys.totalFrames));
      var addr := phys.AllocFrame();
      if addr.None? {
        assert old(phys.used) == Range(0, phys.totalFrames);
        return None;
      }
      ghost var f, m := addr.value / 4096, mem[..];
      var start := addr.value / 8;
      ZeroFrame(start);
      forall a | 0 <= a < |m| ensures mem[a] == Zeroed(m, [f])[a] {
        assert a / 512 == f <==> start <= a < start + 512;
      }
      assert mem[..] == Zeroed(m, [f]);
      return Some(start);
    }

    method ZeroFrame(first: nat)
      requires first + 512 <= mem.Length
      modifies mem
      ensures forall a :: 0 <= a < mem.Length ==> mem[a] == if first <= a < first + 512 then 0 else old(mem[a])
    {
      for i := 0 to 512
        invariant forall a :: 0 <= a < mem.Length ==> mem[a] == if first <= a < first + i then 0 else old(mem[a])
      {
        mem[first + i] := 0;
      }
    }
  }
}
