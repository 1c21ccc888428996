/**
 The physical frame allocator: one bit per 4 KiB frame, first-fit search, and a
 counter of free frames kept beside the bitmap.
 */
module Phys {
  import opened Common

  const MAX_FRAMES: nat := 131_072
  const BITMAP_SIZE: nat := 16_384
  const RESERVED_FRAMES: nat := 256 // the first 1 MiB
  const WORD_MOD: nat := 0x1_0000_0000_0000_0000

  // ---- Bits ----

  function Mask(bit: nat): bv8
    requires bit < 8
  {
    if bit == 0 then 1 else Mask(bit - 1) << 1
  }

  lemma BitwiseTables(b: bv8, m: bv8, n: bv8)
    ensures m == n && m != 0 ==> (b | m) & n != 0
    ensures m == n ==> (b & !m) & n == 0
    ensures m & n == 0 ==> (b | m) & n == b & n
    ensures m & n == 0 ==> (b & !m) & n == b & n
  {
  }

  lemma MasksDisjoint(i: nat, j: nat)
    requires i < 8 && j < 8
    ensures Mask(i) != 0
    ensures i != j ==> Mask(i) & Mask(j) == 0
  {
    MaskValues(i);
    MaskValues(j);
  }

  lemma MaskValues(i: nat)
    requires i < 8
    ensures Mask(i) == [0x01, 0x02, 0x04, 0x08, 0x10, 0x20, 0x40, 0x80][i]
  {
    assert Mask(3) == 0x08;
    assert Mask(6) == 0x40;
  }

  predicate TestBit(bitmap: seq<bv8>, frame: nat)
    requires |bitmap| == BITMAP_SIZE && frame < MAX_FRAMES
  {
    bitmap[frame / 8] & Mask(frame % 8) != 0
  }

  /** Setting one bit is seen by exactly that bit of the whole bitmap; so is clearing it. */
  lemma SetBitSeen(bitmap: seq<bv8>, frame: nat, f: nat)
    requires |bitmap| == BITMAP_SIZE && frame < MAX_FRAMES && f < MAX_FRAMES
    ensures TestBit(bitmap[frame / 8 := bitmap[frame / 8] | Mask(frame % 8)], f)
       <==> f == frame || TestBit(bitmap, f)
  {
    MasksDisjoint(frame % 8, f % 8);
    BitwiseTables(bitmap[frame / 8], Mask(frame % 8), Mask(f % 8));
  }

  lemma ClearBitSeen(bitmap: seq<bv8>, frame: nat, f: nat)
    requires |bitmap| == BITMAP_SIZE && frame < MAX_FRAMES && f < MAX_FRAMES
    ensures TestBit(bitmap[frame / 8 := bitmap[frame / 8] & !Mask(frame % 8)], f)
       <==> f != frame && TestBit(bitmap, f)
  {
    MasksDisjoint(frame % 8, f % 8);
    BitwiseTables(bitmap[frame / 8], Mask(frame % 8), Mask(f % 8));
  }

  /** `used` is the set of frames the bitmap marks as taken. */
  ghost predicate Marks(bitmap: seq<bv8>, used: set<nat>) {
    && |bitmap| == BITMAP_SIZE
    && (forall f :: f in used ==> f < MAX_FRAMES)
    && (forall f: nat {:trigger TestBit(bitmap, f)} :: f < MAX_FRAMES ==> (TestBit(bitmap, f) <==> f in used))
  }

  // ---- First fit ----

  /** The lowest frame at or above `from` that is not taken, or `total` when there is none. */
  ghost function FirstFree(used: set<nat>, total: nat, from: nat): (f: nat)
    requires from <= total
    ensures from <= f <= total
    ensures f < total ==> f !in used
    ensures forall g :: from <= g < f ==> g in used
    decreases total - from
  {
    if from == total || from !in used then from else FirstFree(used, total, from + 1)
  }

  /** The frames handed out by `k` successive allocations; shorter than `k` when memory runs out. */
  ghost function Take(used: set<nat>, total: nat, k: nat): (fs: seq<nat>)
    decreases k
  {
    var f := FirstFree(used, total, 0);
    if k == 0 || f == total then [] else [f] + Take(used + {f}, total, k - 1)
  }

  ghost function Elems(s: seq<nat>): set<nat> {
    set x | x in s
  }

  /** Successive allocations return free frames of memory in ascending order. */
  lemma {:induction false} TakeAscending(used: set<nat>, total: nat, k: nat)
    ensures var fs := Take(used, total, k);
      && |fs| <= k
      && (forall i, j :: 0 <= i < j < |fs| ==> fs[i] < fs[j])
      && (forall x :: x in fs ==> x < total && x !in used && FirstFree(used, total, 0) <= x)
    decreases k
  {
    var f := FirstFree(used, total, 0);
    if k != 0 && f != total {
      TakeAscending(used + {f}, total, k - 1);
      var rest := Take(used + {f}, total, k - 1);
      assert Take(used, total, k) == [f] + rest;
      forall x | x in rest ensures f < x {
        assert x !in used + {f};
      }
      var fs := Take(used, total, k);
      forall i, j | 0 <= i < j < |fs| ensures fs[i] < fs[j] {
        assert fs[j] == rest[j - 1] && fs[j] in rest;
        assert i > 0 ==> fs[i] == rest[i - 1];
      }
    }
  }

  /** A free frame that `k` allocations pass over lies above all the frames they return. */
  lemma {:induction false} TakeLowest(used: set<nat>, total: nat, k: nat, g: nat)
    requires g < total && g !in used && g !in Take(used, total, k)
    ensures |Take(used, total, k)| == k
    ensures forall x :: x in Take(used, total, k) ==> x < g
    decreases k
  {
    var f := FirstFree(used, total, 0);
    if k != 0 {
      var rest := Take(used + {f}, total, k - 1);
      assert Take(used, total, k) == [f] + rest;
      assert g != f && g !in rest;
      TakeLowest(used + {f}, total, k - 1, g);
    }
  }

  /** `k` allocations take exactly `min(k, free)` frames. */
  lemma {:induction false} TakeCount(used: set<nat>, total: nat, k: nat)
    requires used <= Range(0, total)
    ensures |Take(used, total, k)| == Min(k, total - |used|)
    decreases k
  {
    RangeSize(0, total);
    SubsetSize(used, Range(0, total));
    var f := FirstFree(used, total, 0);
    if f == total {
      assert used == Range(0, total);
    } else if k != 0 {
      assert f in Range(0, total) - used;
      TakeCount(used + {f}, total, k - 1);
    }
  }

  /** One more allocation takes the lowest frame that is still free. */
  lemma {:induction false} TakeGrows(used: set<nat>, total: nat, k: nat)
    ensures var fs := Take(used, total, k);
      var f := FirstFree(used + Elems(fs), total, 0);
      |fs| == k ==> Take(used, total, k + 1) == if f == total then fs else fs + [f]
    decreases k
  {
    var f := FirstFree(used, total, 0);
    if k == 0 || f == total {
      assert used + Elems([]) == used;
    } else {
      var rest := Take(used + {f}, total, k - 1);
      TakeGrows(used + {f}, total, k - 1);
      assert Take(used, total, k) == [f] + rest;
      assert used + {f} + Elems(rest) == used + Elems([f] + rest);
    }
  }

  /** Asking for more than there is gives what there is. */
  lemma {:induction false} TakeStops(used: set<nat>, total: nat, k: nat, n: nat)
    requires k <= n && |Take(used, total, k + 1)| <= k
    ensures Take(used, total, n) == Take(used, total, k)
    decreases k
  {
    var f := FirstFree(used, total, 0);
    if f != total && k > 0 {
      TakeStops(used + {f}, total, k - 1, n - 1);
    }
  }

  /** Frames taken one by one, and the taken frames after that. */
  datatype Grab = Grab(frames: seq<nat>, used: set<nat>)

  /** `g` is what `k` successful allocations from `used` give. */
  ghost predicate Grabbed(g: Grab, used: set<nat>, total: nat, k: nat) {
    match g
    case Grab(fs, now) =>
      && |fs| == k && fs == Take(used, total, k) && now == used + Elems(fs) && Elems(fs) !! used
      && (forall i, j :: 0 <= i < j < |fs| ==> fs[i] < fs[j])
      && (forall i :: 0 <= i < |fs| ==> fs[i] < total)
  }

  lemma NothingGrabbed(used: set<nat>, total: nat)
    ensures Grabbed(Grab([], used), used, total, 0)
  {
    assert Take(used, total, 0) == [];
  }

  lemma OneMoreGrabbed(g: Grab, used: set<nat>, total: nat, k: nat, f: nat)
    requires Grabbed(g, used, total, k) && f == FirstFree(g.used, total, 0) < total
    ensures Grabbed(Grab(g.frames + [f], g.used + {f}), used, total, k + 1)
  {
    TakeGrows(used, total, k);
    TakeAscending(used, total, k + 1);
    var fs := g.frames + [f];
    assert Elems(fs) == Elems(g.frames) + {f};
    forall i | 0 <= i < |fs| ensures fs[i] < total {
      assert fs[i] in fs;
    }
  }

  lemma NoMoreGrabbed(g: Grab, used: set<nat>, total: nat, k: nat, n: nat)
    requires Grabbed(g, used, total, k) && FirstFree(g.used, total, 0) == total && k < n
    ensures g.frames == Take(used, total, n) && |g.frames| < n
  {
    TakeGrows(used, total, k);
    TakeStops(used, total, k, n);
  }

  function Consecutive(f: nat, k: nat): seq<nat>
    decreases k
  {
    if k == 0 then [] else [f] + Consecutive(f + 1, k - 1)
  }

  predicate FreeAt(used: set<nat>, total: nat, g: nat) {
    g < total && g !in used
  }

  /** The `k` frames from `f` on are all free. */
  ghost predicate FreeRange(used: set<nat>, total: nat, f: nat, k: nat) {
    forall g: nat :: f <= g < f + k ==> FreeAt(used, total, g)
  }

  lemma FreeRangeStep(used: set<nat>, total: nat, f: nat, k: nat)
    requires k > 0 && FreeAt(used, total, f)
    ensures FreeRange(used, total, f, k) <==> FreeRange(used + {f}, total, f + 1, k - 1)
  {
    if FreeRange(used + {f}, total, f + 1, k - 1) {
      forall g: nat | f <= g < f + k ensures FreeAt(used, total, g) {
        assert g != f ==> FreeAt(used + {f}, total, g);
      }
    }
    if FreeRange(used, total, f, k) {
      forall g: nat | f + 1 <= g < f + k ensures FreeAt(used + {f}, total, g) {
        assert FreeAt(used, total, g);
      }
    }
  }

  lemma SameHead(f: nat, a: seq<nat>, b: seq<nat>)
    ensures [f] + a == [f] + b <==> a == b
  {
    assert ([f] + a)[1..] == a && ([f] + b)[1..] == b;
  }

  /**
   Callers that keep only the first address rely on successive frames being consecutive.  They
   are exactly when the frames right after the lowest free one are free as well.
   */
  lemma {:induction false} TakeIsConsecutive(used: set<nat>, total: nat, k: nat)
    requires FirstFree(used, total, 0) < total
    ensures var f := FirstFree(used, total, 0);
      Take(used, total, k) == Consecutive(f, k) <==> FreeRange(used, total, f, k)
    decreases k
  {
    hide FirstFree;
    var f := FirstFree(used, total, 0);
    if k > 1 {
      var used2 := used + {f};
      var f2 := FirstFree(used2, total, 0);
      var rest := Take(used2, total, k - 1);
      assert Take(used, total, k) == [f] + rest;
      assert Consecutive(f, k) == [f] + Consecutive(f + 1, k - 1);
      SameHead(f, rest, Consecutive(f + 1, k - 1));
      if f + 1 < total && f + 1 !in used {
        assert f2 == f + 1;
        TakeIsConsecutive(used2, total, k - 1);
        FreeRangeStep(used, total, f, k);
      } else {
        assert Consecutive(f + 1, k - 1)[0] == f + 1;
        assert rest != [] ==> rest[0] == f2 != f + 1;
        assert FreeRange(used, total, f, k) ==> FreeAt(used, total, f + 1);
      }
    } else if k == 1 {
      assert Take(used + {f}, total, 0) == [];
      assert Consecutive(f + 1, 0) == [];
    }
  }

  lemma {:induction false} ConsecutiveElems(f: nat, k: nat)
    ensures |Consecutive(f, k)| == k && Elems(Consecutive(f, k)) == Range(f, f + k)
    ensures k > 0 ==> Consecutive(f, k)[0] == f
    decreases k
  {
    if k != 0 {
      ConsecutiveElems(f + 1, k - 1);
      assert Consecutive(f, k) == [f] + Consecutive(f + 1, k - 1);
      assert Range(f, f + k) == {f} + Range(f + 1, f + k);
      assert Elems([f] + Consecutive(f + 1, k - 1)) == {f} + Elems(Consecutive(f + 1, k - 1));
    } else {
      assert Consecutive(f, 0) == [] && Range(f, f) == {};
    }
  }

  lemma {:induction false} AscendingInRange(fs: seq<nat>, f: nat, n: nat)
    requires |fs| == n && forall i, j :: 0 <= i < j < |fs| ==> fs[i] < fs[j]
    requires forall i :: 0 <= i < |fs| ==> f <= fs[i] < f + n
    ensures fs == Consecutive(f, n)
    decreases n
  {
    if n != 0 {
      var rest := fs[1..];
      forall i | 0 <= i < |rest| ensures f + 1 <= rest[i] < f + n {
        assert rest[i] == fs[i + 1] > fs[0];
      }
      AscendingInRange(rest, f + 1, n - 1);
      ConsecutiveElems(f + 1, n - 1);
      assert n > 1 ==> fs[0] < fs[1] == rest[0] == f + 1;
      assert fs == [fs[0]] + rest == [f] + Consecutive(f + 1, n - 1);
    }
  }

  /** The region from the first of `k` frames taken is what was taken exactly when the frames after it were free too. */
  lemma TakeIsRange(used: set<nat>, total: nat, k: nat)
    requires k > 0 && |Take(used, total, k)| == k
    ensures var fs := Take(used, total, k);
      Elems(fs) == Range(fs[0], fs[0] + k) <==> FreeRange(used, total, fs[0], k)
  {
    var fs, f := Take(used, total, k), FirstFree(used, total, 0);
    assert fs[0] == f;
    TakeIsConsecutive(used, total, k);
    ConsecutiveElems(f, k);
    if Elems(fs) == Range(f, f + k) {
      TakeAscending(used, total, k);
      forall i | 0 <= i < |fs| ensures f <= fs[i] < f + k {
        assert fs[i] in Elems(fs);
      }
      AscendingInRange(fs, f, k);
    }
  }

  // ---- Runs of allocations and releases ----

  /** What callers hold beside what initialisation reserved, and the frames handed out so far, in order. */
  datatype Books = Books(total: nat, reserved: set<nat>, held: set<nat>, used: set<nat>, handedOut: seq<nat>)

  datatype Call = Allocating | Freeing(frame: nat)

  ghost predicate Balanced(s: Books) {
    && s.used == s.reserved + s.held
    && s.reserved !! s.held
    && s.used <= Range(0, s.total)
    && forall i :: 0 <= i < |s.handedOut| ==> s.handedOut[i] < s.total && s.handedOut[i] !in s.reserved
  }

  /** The calls as `AllocFrame` and `FreeFrame` perform them. */
  ghost function After(s: Books, call: Call): Books {
    match call
    case Allocating =>
      var f := FirstFree(s.used, s.total, 0);
      if f == s.total then s
      else s.(used := s.used + {f}, held := s.held + {f}, handedOut := s.handedOut + [f])
    case Freeing(f) => s.(used := s.used - {f}, held := s.held - {f})
  }

  /** Callers free only frames that they hold. */
  ghost predicate Honest(s: Books, calls: seq<Call>)
    decreases |calls|
  {
    |calls| > 0 ==> (calls[0].Freeing? ==> calls[0].frame in s.held) && Honest(After(s, calls[0]), calls[1..])
  }

  ghost function AfterAll(s: Books, calls: seq<Call>): Books
    decreases |calls|
  {
    if |calls| == 0 then s else AfterAll(After(s, calls[0]), calls[1..])
  }

  /**
   Over every honest run the bitmap is the reserved frames plus the held ones, with no frame in
   both, and no reserved frame is ever handed out.
   */
  lemma {:induction false} RunsStayBalanced(s: Books, calls: seq<Call>)
    requires Balanced(s) && Honest(s, calls)
    ensures Balanced(AfterAll(s, calls))
    ensures AfterAll(s, calls).reserved == s.reserved && AfterAll(s, calls).total == s.total
    decreases |calls|
  {
    if |calls| != 0 {
      RunsStayBalanced(After(s, calls[0]), calls[1..]);
    }
  }

  /**
   From a proper initialisation on, where only the first MiB and the kernel frames are taken, no
   run hands out one of those, and the free count stays what memory has less what is taken.
   */
  lemma KernelIsNeverHandedOut(total: nat, first: nat, last: nat, calls: seq<Call>)
    requires RESERVED_FRAMES <= total && last <= total
    requires var reserved := Range(0, RESERVED_FRAMES) + Range(first, last);
      Honest(Books(total, reserved, {}, reserved, []), calls)
    ensures var reserved := Range(0, RESERVED_FRAMES) + Range(first, last);
      var s := AfterAll(Books(total, reserved, {}, reserved, []), calls);
      && (forall i :: 0 <= i < |s.handedOut| ==>
            RESERVED_FRAMES <= s.handedOut[i] < total && !(first <= s.handedOut[i] < last))
      && |s.used| == |reserved| + |s.held| <= total
  {
    var reserved := Range(0, RESERVED_FRAMES) + Range(first, last);
    var start := Books(total, reserved, {}, reserved, []);
    RunsStayBalanced(start, calls);
    var s := AfterAll(start, calls);
    forall i | 0 <= i < |s.handedOut|
      ensures RESERVED_FRAMES <= s.handedOut[i] < total && !(first <= s.handedOut[i] < last)
    {
      assert s.handedOut[i] !in s.reserved;
      assert s.handedOut[i] !in Range(0, RESERVED_FRAMES) && s.handedOut[i] !in Range(first, last);
    }
    RangeSize(0, total);
    SubsetSize(s.used, Range(0, total));
  }

  // ---- The allocator ----

  /** A counter modulo 2^64. */
  function Wrapped(x: int): nat {
    x % WORD_MOD
  }

  lemma WrappedStep(x: int)
    ensures Wrapped(x - 1) == if Wrapped(x) == 0 then WORD_MOD - 1 else Wrapped(x) - 1
  {
  }

  /** The reserved first MiB and the frames `[first, last)` of the kernel lie in memory. */
  predicate FitsMemory(first: nat, last: nat, total: nat) {
    RESERVED_FRAMES <= total && (first < last ==> last <= total)
  }

  /** What is taken after initialisation when `before` was taken already. */
  function TakenByInit(before: set<nat>, first: nat, last: nat): set<nat> {
    before + Range(0, RESERVED_FRAMES) + Range(first, last)
  }

  function CounterByInit(before: set<nat>, first: nat, last: nat, total: nat): nat {
    Wrapped(total - RESERVED_FRAMES - |Range(first, last) - (before + Range(0, RESERVED_FRAMES))|)
  }

  lemma WrappedTwice(x: int, k: int)
    ensures Wrapped(Wrapped(x) - k) == Wrapped(x - k)
  {
  }

  /** By how much the counter exceeds the number of free frames of memory. */
  ghost function Excess(used: set<nat>, total: nat, free: nat): nat {
    Wrapped(free - |Range(0, total) - used|)
  }

  /** What initialisation on a used bitmap got wrong stays: allocating or freeing a frame of memory keeps the excess. */
  lemma ExcessStays(used: set<nat>, total: nat, free: nat, f: nat)
    requires f < total
    ensures f !in used ==> Excess(used + {f}, total, Wrapped(free - 1)) == Excess(used, total, free)
    ensures f in used ==> Excess(used - {f}, total, Wrapped(free + 1)) == Excess(used, total, free)
  {
    var unused := Range(0, total) - used;
    if f in used {
      assert Range(0, total) - (used - {f}) == unused + {f};
      WrappedTwice(free + 1, |unused + {f}|);
    } else {
      assert Range(0, total) - (used + {f}) == unused - {f};
      WrappedTwice(free - 1, |unused - {f}|);
    }
  }

  class FrameAllocator {
    const bitmap: array<bv8>
    var totalFrames: nat
    var freeFrames: nat
    ghost var used: set<nat> // the frames the bitmap marks as taken

    /** The `.bss` image: an all-clear bitmap and zero counters. */
    constructor ()
      ensures Synced() && fresh(bitmap)
      ensures used == {} && totalFrames == 0 && freeFrames == 0
    {
      bitmap := new bv8[BITMAP_SIZE](i => 0);
      totalFrames, freeFrames, used := 0, 0, {};
      new;
      forall f: nat | f < MAX_FRAMES ensures !TestBit(bitmap[..], f) {
        assert bitmap[..][f / 8] == 0;
      }
    }

    ghost predicate Synced()
      reads this, bitmap
    {
      Marks(bitmap[..], used)
    }

    /** Nothing is taken beyond the end of memory, and the counter is the number of clear bits below it. */
    ghost predicate Valid()
      reads this, bitmap
    {
      && Synced()
      && totalFrames <= MAX_FRAMES
      && used <= Range(0, totalFrames)
      && freeFrames == totalFrames - |used|
    }

    lemma FreeFramesCountsClearBits()
      requires Valid()
      ensures freeFrames == |set f: nat | f < totalFrames && !TestBit(bitmap[..], f)|
    {
      var clear := set f: nat | f < totalFrames && !TestBit(bitmap[..], f);
      RangeSize(0, totalFrames);
      SubsetSize(used, Range(0, totalFrames));
      forall f: nat ensures f in clear <==> f in Range(0, totalFrames) - used {
        assert f < totalFrames ==> (TestBit(bitmap[..], f) <==> f in used);
      }
      assert clear == Range(0, totalFrames) - used;
    }

    method SetBit(frame: nat)
      requires Synced() && frame < MAX_FRAMES
      modifies this`used, bitmap
      ensures Synced()
      ensures used == old(used) + {frame}
    {
      ghost var before := bitmap[..];
      bitmap[frame / 8] := bitmap[frame / 8] | Mask(frame % 8);
      forall f: nat | f < MAX_FRAMES
        ensures TestBit(bitmap[..], f) <==> f == frame || TestBit(before, f)
      {
        SetBitSeen(before, frame, f);
      }
      used := used + {frame};
    }

    method ClearBit(frame: nat)
      requires Synced() && frame < MAX_FRAMES
      modifies this`used, bitmap
      ensures Synced()
      ensures used == old(used) - {frame}
    {
      ghost var before := bitmap[..];
      bitmap[frame / 8] := bitmap[frame / 8] & !Mask(frame % 8);
      forall f: nat | f < MAX_FRAMES
        ensures TestBit(bitmap[..], f) <==> f != frame && TestBit(before, f)
      {
        ClearBitSeen(before, frame, f);
      }
      used := used - {frame};
    }

    method IsTaken(frame: nat) returns (taken: bool)
      requires Synced() && frame < MAX_FRAMES
      ensures taken <==> frame in used
    {
      taken := TestBit(bitmap[..], frame);
    }

    /**
     Initialisation does not clear the bitmap, so its effect is stated for any previous content.  A
     kernel that ends beyond the bitmap stops the machine.  The counter wraps below zero and comes
     out too large by the number of frames that were taken before above the first MiB.  The
     allocator is consistent exactly when there were none and the reserved ranges lie in memory.
     */
    method Init(memorySize: nat, kernelStart: nat, kernelEnd: nat) returns (out: Outcome<()>)
      requires Synced()
      modifies this, bitmap
      ensures Synced()
      ensures totalFrames == Min(memorySize / 4096, MAX_FRAMES)
      ensures var first, last := kernelStart / 4096, AlignUp(kernelEnd) / 4096;
        && (out.Panicked? <==> first < last && last > MAX_FRAMES)
        && (out.Returned? ==>
              && used == TakenByInit(old(used), first, last)
              && freeFrames == CounterByInit(old(used), first, last, totalFrames)
              && (Valid() <==> FitsMemory(first, last, totalFrames) && old(used) <= Range(0, RESERVED_FRAMES))
              && (FitsMemory(first, last, totalFrames) ==>
                    freeFrames ==
                      |Range(0, totalFrames) - used| + |old(used) * Range(RESERVED_FRAMES, totalFrames)|))
    {
      var total := Min(memorySize / 4096, MAX_FRAMES);
      totalFrames, freeFrames := total, total;
      out := Reserve(kernelStart / 4096, AlignUp(kernelEnd) / 4096);
    }

    method Reserve(first: nat, last: nat) returns (out: Outcome<()>)
      requires Synced() && freeFrames == totalFrames <= MAX_FRAMES
      modifies this`freeFrames, this`used, bitmap
      ensures Synced()
      ensures out.Panicked? <==> first < last && last > MAX_FRAMES
      ensures out.Returned? ==>
        && used == TakenByInit(old(used), first, last)
        && freeFrames == CounterByInit(old(used), first, last, totalFrames)
        && (Valid() <==> FitsMemory(first, last, totalFrames) && old(used) <= Range(0, RESERVED_FRAMES))
        && (FitsMemory(first, last, totalFrames) ==>
              freeFrames == |Range(0, totalFrames) - used| + |old(used) * Range(RESERVED_FRAMES, totalFrames)|)
    {
      ReserveFirstMegabyte();
      out := ReserveKernel(first, last);
      WrappedTwice(totalFrames - RESERVED_FRAMES, |Range(first, last) - (old(used) + Range(0, RESERVED_FRAMES))|);
      hide Range, Wrapped, Synced, Valid, FitsMemory;
      if out.Returned? {
        InitValid(old(used), first, last);
      }
    }

    lemma InitValid(before: set<nat>, first: nat, last: nat)
      requires Synced() && totalFrames <= MAX_FRAMES && used == TakenByInit(before, first, last)
      requires freeFrames == CounterByInit(before, first, last, totalFrames)
      ensures Valid() <==> FitsMemory(first, last, totalFrames) && before <= Range(0, RESERVED_FRAMES)
      ensures FitsMemory(first, last, totalFrames) ==>
        freeFrames == |Range(0, totalFrames) - used| + |before * Range(RESERVED_FRAMES, totalFrames)|
    {
      hide Range, Wrapped, Synced, TakenByInit, CounterByInit, FitsMemory;
      InitCounts(before, first, last, totalFrames);
      if FitsMemory(first, last, totalFrames) {
        CounterTooLarge(before, first, last, totalFrames);
      }
    }

    static lemma CounterTooLarge(before: set<nat>, first: nat, last: nat, total: nat)
      requires FitsMemory(first, last, total) && total <= MAX_FRAMES
      ensures CounterByInit(before, first, last, total) ==
        |Range(0, total) - TakenByInit(before, first, last)| + |before * Range(RESERVED_FRAMES, total)|
    {
      assert Range(first, last) <= Range(0, total);
      SetsTooLarge(before, Range(first, last), total);
    }

    static lemma SetsTooLarge(before: set<nat>, kernel: set<nat>, total: nat)
      requires RESERVED_FRAMES <= total <= MAX_FRAMES && kernel <= Range(0, total)
      ensures var low := Range(0, RESERVED_FRAMES);
        Wrapped(total - RESERVED_FRAMES - |kernel - (before + low)|) ==
          |Range(0, total) - (before + low + kernel)| + |before * Range(RESERVED_FRAMES, total)|
    {
      var low, all, extra := Range(0, RESERVED_FRAMES), Range(0, total), before * Range(RESERVED_FRAMES, total);
      var added := kernel - (before + low);
      RangeSize(0, RESERVED_FRAMES);
      RangeSize(0, total);
      assert all - (before + low + kernel) == all - (low + added + extra);
      SubsetSize(low + added + extra, all);
      assert |low + added + extra| == |low| + |added| + |extra|;
    }

    method CountDown()
      modifies this`freeFrames
      ensures freeFrames == if old(freeFrames) == 0 then WORD_MOD - 1 else old(freeFrames) - 1
    {
      freeFrames := if freeFrames == 0 then WORD_MOD - 1 else freeFrames - 1;
    }

    method ReserveFirstMegabyte()
      requires Synced() && freeFrames <= MAX_FRAMES
      modifies this`freeFrames, this`used, bitmap
      ensures Synced()
      ensures used == old(used) + Range(0, RESERVED_FRAMES)
      ensures freeFrames == Wrapped(old(freeFrames) - RESERVED_FRAMES)
    {
      for i := 0 to RESERVED_FRAMES
        invariant Synced()
        invariant used == old(used) + Range(0, i)
        invariant freeFrames == Wrapped(old(freeFrames) - i)
      {
        SetBit(i);
        CountDown();
        WrappedStep(old(freeFrames) - i);
        assert Range(0, i + 1) == Range(0, i) + {i};
      }
    }

    /** Marks the kernel image, counting only the frames that were not taken before. */
    method ReserveKernel(first: nat, last: nat) returns (out: Outcome<()>)
      requires Synced() && freeFrames < WORD_MOD
      modifies this`freeFrames, this`used, bitmap
      ensures Synced()
      ensures out.Panicked? <==> first < last && last > MAX_FRAMES
      ensures out.Returned? ==>
        && used == old(used) + Range(first, last)
        && freeFrames == Wrapped(old(freeFrames) - |Range(first, last) - old(used)|)
    {
      ghost var before := used;
      var i := first;
      while i < last
        invariant Synced()
        invariant i == first || first <= i <= last
        invariant i > first ==> i <= MAX_FRAMES
        invariant used == before + Range(first, i)
        invariant freeFrames == Wrapped(old(freeFrames) - |Range(first, i) - before|)
      {
        if i >= MAX_FRAMES {
          return Panicked;
        }
        ReserveOne(i, before, first, old(freeFrames));
        i := i + 1;
      }
      assert Range(first, i) == Range(first, last);
      return Returned(());
    }

    method ReserveOne(i: nat, ghost before: set<nat>, ghost first: nat, ghost start: nat)
      requires Synced() && first <= i < MAX_FRAMES && used == before + Range(first, i)
      requires freeFrames == Wrapped(start - |Range(first, i) - before|)
      modifies this`freeFrames, this`used, bitmap
      ensures Synced() && used == before + Range(first, i + 1)
      ensures freeFrames == Wrapped(start - |Range(first, i + 1) - before|)
    {
      TakenStep(before, first, i);
      WrappedStep(start - |Range(first, i) - before|);
      var inUse := IsTaken(i);
      if !inUse {
        SetBit(i);
        CountDown();
      }
    }

    static lemma TakenStep(before: set<nat>, first: nat, i: nat)
      requires first <= i
      ensures Range(first, i + 1) == Range(first, i) + {i} && i !in Range(first, i)
      ensures |Range(first, i + 1) - before| == |Range(first, i) - before| + if i in before then 0 else 1
    {
      assert Range(first, i + 1) == Range(first, i) + {i};
      assert Range(first, i + 1) - before == (Range(first, i) - before) + if i in before then {} else {i};
    }

    /** The counter is right exactly when nothing above the first MiB was taken before and the ranges lie in memory. */
    static lemma InitCounts(before: set<nat>, first: nat, last: nat, total: nat)
      requires total <= MAX_FRAMES
      ensures var after := TakenByInit(before, first, last);
        (after <= Range(0, total) && CounterByInit(before, first, last, total) == total - |after|)
        <==> FitsMemory(first, last, total) && before <= Range(0, RESERVED_FRAMES)
    {
      var low, kernel := Range(0, RESERVED_FRAMES), Range(first, last);
      InMemoryIff(before, first, last, total);
      if TakenByInit(before, first, last) <= Range(0, total) {
        AfterSize(before, low, kernel, total);
        RangeSize(0, RESERVED_FRAMES);
        NothingElse(before, low);
        hide Range;
        CounterRight(total, |before - low|, |kernel - (before + low)|);
      } else if before <= low {
        assert RESERVED_FRAMES <= total ==> before <= Range(0, total);
      }
    }

    static lemma NothingElse(before: set<nat>, low: set<nat>)
      ensures |before - low| == 0 <==> before <= low
    {
      if before <= low {
        assert before - low == {};
      } else {
        var f :| f in before && f !in low;
        assert f in before - low;
      }
    }

    static lemma AfterSize(before: set<nat>, low: set<nat>, kernel: set<nat>, total: nat)
      requires before + low + kernel <= Range(0, total)
      ensures |before + low + kernel| == |low| + |before - low| + |kernel - (before + low)| <= total
    {
      RangeSize(0, total);
      hide Range;
      SubsetSize(before + low + kernel, Range(0, total));
      assert before + low + kernel == low + (before - low) + (kernel - (before + low));
    }

    static lemma CounterRight(total: nat, extra: nat, added: nat)
      requires RESERVED_FRAMES + extra + added <= total <= MAX_FRAMES
      ensures Wrapped(total - RESERVED_FRAMES - added) == total - (RESERVED_FRAMES + extra + added) <==> extra == 0
    {
    }

    static lemma InMemoryIff(before: set<nat>, first: nat, last: nat, total: nat)
      ensures TakenByInit(before, first, last) <= Range(0, total) <==>
        before <= Range(0, total) && FitsMemory(first, last, total)
    {
      assert RESERVED_FRAMES - 1 in Range(0, RESERVED_FRAMES);
      assert first < last ==> last - 1 in Range(first, last);
    }

    /** The bitmap is readable, whatever it marks and whatever the counter says. */
    ghost predicate Usable()
      reads this, bitmap
    {
      Synced() && totalFrames <= MAX_FRAMES && freeFrames < WORD_MOD
    }

    /**
     First fit: the lowest free frame, or `None` exactly when every frame of memory is taken.  Also after an
     initialisation that found frames taken, when the counter, modulo 2^64, does not say so.
     */
    method AllocFrame() returns (addr: Option<nat>)
      requires Usable()
      modifies this`freeFrames, this`used, bitmap
      ensures Usable()
      ensures var f := FirstFree(old(used), totalFrames, 0);
        if f == totalFrames then addr.None? && used == old(used) && freeFrames == old(freeFrames)
        else
          && addr == Some(f * 4096) && used == old(used) + {f}
          && freeFrames == Wrapped(old(freeFrames) - 1)
      ensures old(Valid()) ==> Valid()
      ensures old(Valid()) ==> (addr.None? <==> old(freeFrames) == 0)
      ensures old(Valid()) && addr.Some? ==> freeFrames == old(freeFrames) - 1
    {
      hide FirstFree;
      var f := FindFree();
      if f < totalFrames {
        if used <= Range(0, totalFrames) {
          SomeFree(used, totalFrames, f);
        }
        SetBit(f);
        CountDown();
        WrappedStep(old(freeFrames));
        return Some(f * 4096);
      }
      AllTaken(used, totalFrames);
      return None;
    }

    /** The search loop. */
    method FindFree() returns (f: nat)
      requires Usable()
      ensures f == FirstFree(used, totalFrames, 0)
    {
      for i := 0 to totalFrames
        invariant FirstFree(used, totalFrames, 0) == FirstFree(used, totalFrames, i)
      {
        var inUse := IsTaken(i);
        if !inUse {
          return i;
        }
      }
      return totalFrames;
    }

    static lemma AllTaken(used: set<nat>, total: nat)
      requires FirstFree(used, total, 0) == total
      ensures used <= Range(0, total) ==> |used| == total
    {
      RangeSize(0, total);
      if used <= Range(0, total) {
        assert used == Range(0, total);
      }
    }

    static lemma SomeFree(used: set<nat>, total: nat, f: nat)
      requires used <= Range(0, total) && f < total && f !in used
      ensures |used| < total
      ensures |used + {f}| == |used| + 1
    {
      RangeSize(0, total);
      SubsetSize(used + {f}, Range(0, total));
    }

    /** Freeing a frame that is not taken changes nothing; an address beyond the bitmap stops the machine. */
    method FreeFrame(addr: nat) returns (out: Outcome<()>)
      requires Usable()
      modifies this`freeFrames, this`used, bitmap
      ensures Usable()
      ensures out.Panicked? <==> addr / 4096 >= MAX_FRAMES
      ensures used == old(used) - {addr / 4096}
      ensures freeFrames == if addr / 4096 in old(used) then Wrapped(old(freeFrames) + 1) else old(freeFrames)
      ensures old(Valid()) ==> Valid()
      ensures old(Valid()) ==> freeFrames == old(freeFrames) + if addr / 4096 in old(used) then 1 else 0
    {
      var frame := addr / 4096;
      if frame >= MAX_FRAMES {
        return Panicked;
      }
      var inUse := IsTaken(frame);
      if inUse {
        ClearBit(frame);
        freeFrames := if freeFrames == WORD_MOD - 1 then 0 else freeFrames + 1;
      }
      return Returned(());
    }
  }
}
