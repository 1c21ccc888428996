/** The stacks `alloc_kernel_stack` gives to threads, beside everything else that takes and returns frames. */
module KernelStacks {
  import opened Common
  import opened Phys
  import opened Context

  const STACK_PAGES: nat := 4

  /** The taken frames and the stacks of the threads spawned so far, the boot stack among them. */
  datatype Claims = Claims(used: set<nat>, total: nat, stacks: seq<Stack>)

  datatype Claim =
    | NewStack
    | TakeFrame // any other allocation of a frame
    | GiveBack(frame: nat)

  /** The frame of a word address. */
  function FrameOfWord(a: nat): nat {
    a / 512
  }

  /** The thread runs on the 16 KiB from the first frame on, whatever the other three frames were. */
  function StackAt(f: nat): Stack {
    Stack(f * 512, f * 512 + STACK_WORDS)
  }

  predicate Within(stack: Stack, a: nat) {
    stack.low <= a < stack.high
  }

  predicate Apart(s: Stack, t: Stack) {
    s.high <= t.low || t.high <= s.low
  }

  /** Stacks lie in taken frames of memory and do not overlap. */
  ghost predicate Inv(c: Claims) {
    && (forall i :: 0 <= i < |c.stacks| ==> Backed(c.stacks[i], c))
    && (forall i, j :: 0 <= i < j < |c.stacks| ==> Apart(c.stacks[i], c.stacks[j]))
  }

  ghost predicate Backed(stack: Stack, c: Claims) {
    stack.low < stack.high <= c.total * 512 && forall a: nat :: Within(stack, a) ==> FrameOfWord(a) in c.used
  }

  /** A stack takes four frames of which the first three are followed by the next; frames of stacks are not returned. */
  ghost predicate Enabled(c: Claims, claim: Claim) {
    match claim
    case NewStack => GotStack(c) ==> FreeRange(c.used, c.total, FirstFree(c.used, c.total, 0), STACK_PAGES)
    case TakeFrame => true
    case GiveBack(f) => forall i, a: nat :: 0 <= i < |c.stacks| && Within(c.stacks[i], a) ==> FrameOfWord(a) != f
  }

  ghost predicate GotStack(c: Claims) {
    |Take(c.used, c.total, STACK_PAGES)| == STACK_PAGES
  }

  ghost function Step(c: Claims, claim: Claim): (r: Claims)
    ensures r.total == c.total
  {
    match claim
    case NewStack =>
      var fs := Take(c.used, c.total, STACK_PAGES);
      c.(used := c.used + Elems(fs), stacks := if |fs| == STACK_PAGES then c.stacks + [StackAt(fs[0])] else c.stacks)
    case TakeFrame => c.(used := c.used + Elems(Take(c.used, c.total, 1)))
    case GiveBack(f) => c.(used := c.used - {f})
  }

  /**
   What a thread runs on was all free before exactly when the frames right after the lowest free
   one are free as well; otherwise some word of its stack belongs to somebody else already.
   */
  lemma StackIsOwn(c: Claims)
    requires GotStack(c)
    ensures var f := Take(c.used, c.total, STACK_PAGES)[0];
      && f == FirstFree(c.used, c.total, 0)
      && ((forall a: nat :: Within(StackAt(f), a) ==> FrameOfWord(a) !in c.used)
          <==> FreeRange(c.used, c.total, f, STACK_PAGES))
      && (FreeRange(c.used, c.total, f, STACK_PAGES) ==>
            Elems(Take(c.used, c.total, STACK_PAGES)) == Range(f, f + STACK_PAGES))
  {
    var fs, f := Take(c.used, c.total, STACK_PAGES), FirstFree(c.used, c.total, 0);
    TakeIsRange(c.used, c.total, STACK_PAGES);
    TakeAscending(c.used, c.total, STACK_PAGES);
    FirstOfTake(c.used, c.total, STACK_PAGES);
    assert fs[0] < fs[1] < fs[2] < fs[3] && fs[3] in fs;
    hide Take, FirstFree;
    if forall a: nat :: Within(StackAt(f), a) ==> FrameOfWord(a) !in c.used {
      forall g: nat | f <= g < f + STACK_PAGES ensures FreeAt(c.used, c.total, g) {
        assert Within(StackAt(f), g * 512) && FrameOfWord(g * 512) == g;
      }
    }
    if FreeRange(c.used, c.total, f, STACK_PAGES) {
      forall a: nat | Within(StackAt(f), a) ensures FrameOfWord(a) !in c.used {
        assert FreeAt(c.used, c.total, FrameOfWord(a));
      }
    }
  }

  lemma FirstOfTake(used: set<nat>, total: nat, k: nat)
    requires k > 0 && |Take(used, total, k)| > 0
    ensures Take(used, total, k)[0] == FirstFree(used, total, 0)
  {
  }

  lemma CommonWord(s: Stack, t: Stack)
    requires s.low < s.high && t.low < t.high
    ensures Apart(s, t) <==> forall a: nat :: Within(s, a) ==> !Within(t, a)
  {
    var a := if s.low < t.low then t.low else s.low;
    assert Apart(s, t) || (Within(s, a) && Within(t, a));
  }

  lemma NewStackBacked(c: Claims)
    requires Inv(c) && GotStack(c) && Enabled(c, NewStack)
    ensures var r, n := Step(c, NewStack), |c.stacks|;
      && |r.stacks| == n + 1 && r.stacks[..n] == c.stacks
      && Backed(r.stacks[n], r)
      && forall i :: 0 <= i < n ==> Backed(c.stacks[i], r) && Apart(c.stacks[i], r.stacks[n])
  {
    var r, n, f := Step(c, NewStack), |c.stacks|, FirstFree(c.used, c.total, 0);
    StackIsOwn(c);
    assert r.stacks == c.stacks + [StackAt(f)];
    hide Take, FirstFree;
    assert FreeAt(c.used, c.total, f + 3);
    forall a: nat | Within(StackAt(f), a) ensures FrameOfWord(a) in r.used {
      assert FrameOfWord(a) in Range(f, f + STACK_PAGES);
    }
    forall i | 0 <= i < n ensures Backed(c.stacks[i], r) && Apart(c.stacks[i], StackAt(f)) {
      CommonWord(c.stacks[i], StackAt(f));
    }
  }

  lemma StepKeepsInv(c: Claims, claim: Claim)
    requires Inv(c) && Enabled(c, claim)
    ensures Inv(Step(c, claim)) && c.stacks <= Step(c, claim).stacks
  {
    if claim.NewStack? && GotStack(c) {
      NewStackBacked(c);
      var r, n := Step(c, NewStack), |c.stacks|;
      hide Step, Backed;
      forall i | 0 <= i < n ensures r.stacks[i] == c.stacks[i] {
        assert r.stacks[..n][i] == c.stacks[i];
      }
    }
  }

  ghost predicate Legal(c: Claims, claims: seq<Claim>)
    decreases |claims|
  {
    |claims| > 0 ==> Enabled(c, claims[0]) && Legal(Step(c, claims[0]), claims[1..])
  }

  ghost function Run(c: Claims, claims: seq<Claim>): Claims
    decreases |claims|
  {
    if |claims| == 0 then c else Run(Step(c, claims[0]), claims[1..])
  }

  /** Whatever else takes and returns frames, the stacks of all threads stay apart and in frames that are taken. */
  lemma {:induction false} RunKeepsStacksApart(c: Claims, claims: seq<Claim>)
    requires Inv(c) && Legal(c, claims)
    ensures Inv(Run(c, claims)) && c.stacks <= Run(c, claims).stacks
    decreases |claims|
  {
    if |claims| != 0 {
      StepKeepsInv(c, claims[0]);
      RunKeepsStacksApart(Step(c, claims[0]), claims[1..]);
    }
  }

  /**
   Three calls leave a gap before a taken frame; the next stack then starts in the gap and runs over
   the taken frame.
   */
  lemma OverlapIsReached()
    ensures var claims := [TakeFrame, TakeFrame, GiveBack(1)];
      var c := Run(Claims({0}, 16, []), claims);
      && Inv(Claims({0}, 16, [])) && Legal(Claims({0}, 16, []), claims)
      && c == Claims({0, 2}, 16, []) && GotStack(c) && !Enabled(c, NewStack)
      && Step(c, NewStack).stacks == [StackAt(1)]
      && Within(StackAt(1), 1024) && FrameOfWord(1024) == 2 && 2 in c.used
  {
    hide Take, FirstFree, GotStack;
    var c0 := Claims({0}, 16, []);
    var c1, c2, c := c0.(used := {0, 1}), c0.(used := {0, 1, 2}), c0.(used := {0, 2});
    TakesOne(c0, 1);
    TakesOne(c1, 2);
    assert {0} + {1} == {0, 1} && {0, 1} + {2} == {0, 1, 2} && {0, 1, 2} - {1} == {0, 2};
    FirstClaim(c0, [TakeFrame, TakeFrame, GiveBack(1)], [TakeFrame, GiveBack(1)]);
    FirstClaim(c1, [TakeFrame, GiveBack(1)], [GiveBack(1)]);
    FirstClaim(c2, [GiveBack(1)], []);
    StackInGap(c);
  }

  lemma StackInGap(c: Claims)
    requires c == Claims({0, 2}, 16, [])
    ensures GotStack(c) && !Enabled(c, NewStack) && Step(c, NewStack).stacks == [StackAt(1)]
  {
    hide Take, FirstFree;
    RangeSize(0, 16);
    TakeCount(c.used, 16, STACK_PAGES);
    FirstOfTake(c.used, 16, STACK_PAGES);
    LowestFree(c.used, 16, 1);
    assert !FreeAt(c.used, 16, 2);
  }

  lemma LowestFree(used: set<nat>, total: nat, f: nat)
    requires f < total && f !in used && forall g :: 0 <= g < f ==> g in used
    ensures FirstFree(used, total, 0) == f
  {
  }

  lemma TakesOne(c: Claims, f: nat)
    requires f < c.total && f !in c.used && forall g :: 0 <= g < f ==> g in c.used
    ensures Step(c, TakeFrame) == c.(used := c.used + {f})
  {
    LowestFree(c.used, c.total, f);
    assert Take(c.used + {f}, c.total, 0) == [];
    assert Take(c.used, c.total, 1) == [f];
    assert Elems([f]) == {f};
  }

  lemma FirstClaim(c: Claims, claims: seq<Claim>, rest: seq<Claim>)
    requires |claims| > 0 && claims[1..] == rest
    ensures Run(c, claims) == Run(Step(c, claims[0]), rest) && Run(c, []) == c && Legal(c, [])
    ensures Legal(c, claims) <==> Enabled(c, claims[0]) && Legal(Step(c, claims[0]), rest)
  {
  }

  // ---- The stacks and the switching threads ----

  /** The machine after `spawn_kernel_thread` gave the next thread a stack and stored its first words. */
  ghost function Spawned(m: Machine, c: Claims, entry: u64): (d: Machine)
    requires GotStack(c) && c.total * 512 <= |m.mem| && Enabled(c, NewStack)
  {
    StackInMemory(c);
    var fs := Take(c.used, c.total, STACK_PAGES);
    var high := StackAt(fs[0]).high;
    m.(mem := Stored(Zeroed(m.mem, fs), high - 7, Frame(FreshView(high, entry))), saved := m.saved + [high - 7])
  }

  lemma StackInMemory(c: Claims)
    requires GotStack(c) && Enabled(c, NewStack)
    ensures StackAt(Take(c.used, c.total, STACK_PAGES)[0]).high <= c.total * 512
  {
    StackIsOwn(c);
    assert FreeAt(c.used, c.total, FirstFree(c.used, c.total, 0) + 3);
  }

  /**
   A thread spawned on a new stack starts at its entry point when it is first switched to, and
   every suspended thread stays as it was: the switching laws hold for the grown set of threads.
   */
  lemma SpawnKeepsParked(m: Machine, c: Claims, views: seq<View>, entry: u64)
    requires Parked(m, c.stacks, views) && Inv(c) && c.total * 512 <= |m.mem|
    requires GotStack(c) && Enabled(c, NewStack)
    ensures var stacks := Step(c, NewStack).stacks;
      Parked(Spawned(m, c, entry), stacks, views + [FreshView(stacks[|c.stacks|].high, entry)])
  {
    var r, n, d := Step(c, NewStack), |c.stacks|, Spawned(m, c, entry);
    var fs := Take(c.used, c.total, STACK_PAGES);
    var f := fs[0];
    NewStackBacked(c);
    StepKeepsInv(c, NewStack);
    StackIsOwn(c);
    TakeAscending(c.used, c.total, STACK_PAGES);
    var stack := StackAt(f);
    assert r.stacks == c.stacks + [stack];
    hide Take, FirstFree, Step, FreeRange;
    StackInMemory(c);
    StoredThere(Zeroed(m.mem, fs), stack.high - 7, Frame(FreshView(stack.high, entry)));
    forall a: nat | a < |m.mem| && !Within(stack, a) ensures d.mem[a] == m.mem[a] {
      assert a / 512 in fs <==> a / 512 in Elems(fs);
      assert a / 512 in Range(f, f + STACK_PAGES) <==> Within(stack, a);
    }
    forall t | 0 <= t < n && t != m.current
      ensures Suspended(d, r.stacks[t], t, views[t])
    {
      assert Apart(c.stacks[t], stack);
      assert Suspended(m, c.stacks[t], t, views[t]);
      assert d.mem[m.saved[t]..m.saved[t] + 7] == m.mem[m.saved[t]..m.saved[t] + 7];
    }
  }

  /** Below the seven words of the first frame the new stack reads zero. */
  lemma NewStackIsZero(m: Machine, c: Claims, entry: u64, a: nat)
    requires GotStack(c) && c.total * 512 <= |m.mem| && Enabled(c, NewStack)
    requires var stack := StackAt(Take(c.used, c.total, STACK_PAGES)[0]); stack.low <= a < stack.high - 7
    ensures a < |m.mem| && Spawned(m, c, entry).mem[a] == 0
  {
    hide Take, FreeRange;
    StackInMemory(c);
    StackIsOwn(c);
    var fs := Take(c.used, c.total, STACK_PAGES);
    assert a / 512 in Range(fs[0], fs[0] + STACK_PAGES);
    assert a / 512 in Elems(fs);
  }
}
