/** The page-granular kernel heap of the Linux shim: kmalloc, kfree and the side table of sizes. */
module Kmalloc {
  import opened Common
  import opened Phys

  const MAX_ALLOC_ENTRIES: nat := 256
  const MAX_PAGES: nat := 64

  /** Address 0 marks a free slot. */
  datatype AllocEntry = AllocEntry(addr: nat, pages: nat)

  const NO_ENTRY: AllocEntry := AllocEntry(0, 0)

  type Table = seq<AllocEntry>

  datatype Heap = Heap(used: set<nat>, total: nat, table: Table)

  /** The first entry for this address at or after `i`, or the table size. */
  function Find(t: Table, addr: nat, i: nat): (k: nat)
    requires i <= |t|
    ensures i <= k <= |t|
    ensures k < |t| ==> t[k].addr == addr
    ensures forall j :: i <= j < k ==> t[j].addr != addr
    decreases |t| - i
  {
    if i == |t| || t[i].addr == addr then i else Find(t, addr, i + 1)
  }

  /** Nothing is recorded when the table is full. */
  function Inserted(t: Table, addr: nat, pages: nat): Table {
    var k := Find(t, 0, 0);
    if k == |t| then t else t[k := AllocEntry(addr, pages)]
  }

  function Removed(t: Table, addr: nat): (Table, nat) {
    var k := Find(t, addr, 0);
    if k == |t| then (t, 0) else (t[k := NO_ENTRY], t[k].pages)
  }

  function PagesFor(size: nat): nat {
    AlignUp(size) / 4096
  }

  /** `None` for the null pointer. */
  ghost function Malloc(h: Heap, size: nat): (Heap, Option<nat>) {
    var n := PagesFor(size);
    var fs := Take(h.used, h.total, n);
    if size == 0 || n > MAX_PAGES || |fs| < n then (h, None)
    else
      (Heap(h.used + Elems(fs), h.total, Inserted(h.table, fs[0] * 4096, n)), Some(fs[0] * 4096))
  }

  /** The page-aligned address is what counts; an unknown one frees a single frame. */
  ghost function Free(h: Heap, ptr: nat): Heap {
    if ptr == 0 then h
    else
      var f := ptr / 4096;
      var (t, pages) := Removed(h.table, f * 4096);
      Heap(h.used - Range(f, f + if pages == 0 then 1 else pages), h.total, t)
  }

  /** An allocation gets as many pages as its size needs, and no more. */
  lemma PagesCoverSize(size: nat)
    ensures size <= 4096 * PagesFor(size)
    ensures size > 0 ==> 4096 * (PagesFor(size) - 1) < size
  {
  }

  predicate FirstBlank(t: Table, k: nat) {
    k < |t| && t[k].addr == 0 && forall j :: 0 <= j < k ==> t[j].addr != 0
  }

  /** A successful allocation is recorded in the lowest free entry with its address and page count, if there is one. */
  lemma AllocationIsRecorded(h: Heap, size: nat)
    requires Malloc(h, size).1.Some?
    ensures var (h2, ptr) := Malloc(h, size);
      && h2.total == h.total && |h2.table| == |h.table|
      && ((forall j :: 0 <= j < |h.table| ==> h.table[j].addr != 0) ==> h2.table == h.table)
      && forall k: nat :: FirstBlank(h.table, k) ==> h2.table == h.table[k := AllocEntry(ptr.value, PagesFor(size))]
  {
    hide Take, Elems;
  }

  /** Entry `k` is the first for this address, and has pages. */
  predicate FirstRecord(t: Table, addr: nat, k: nat) {
    k < |t| && t[k].addr == addr && t[k].pages > 0 && forall j :: 0 <= j < k ==> t[j].addr != addr
  }

  /** What `kfree` gives back: nothing for null, the recorded pages, or one page for an address not recorded. */
  lemma WhatFreeReturns(h: Heap, ptr: nat)
    ensures Free(h, 0) == h
    ensures ptr != 0 && (forall j :: 0 <= j < |h.table| ==> h.table[j].addr != ptr / 4096 * 4096) ==>
      Free(h, ptr) == h.(used := h.used - {ptr / 4096})
    ensures forall k: nat :: ptr != 0 && FirstRecord(h.table, ptr / 4096 * 4096, k) ==>
      Free(h, ptr) ==
        Heap(h.used - Range(ptr / 4096, ptr / 4096 + h.table[k].pages), h.total, h.table[k := NO_ENTRY])
  {
    assert Range(ptr / 4096, ptr / 4096 + 1) == {ptr / 4096};
  }

  // ---- What the table says ----

  predicate Recorded(t: Table, k: nat) {
    k < |t| && t[k].addr != 0
  }

  /** The frames entry `k` stands for. */
  function FramesOf(e: AllocEntry): set<nat> {
    Range(e.addr / 4096, e.addr / 4096 + e.pages)
  }

  /** The recorded allocations are disjoint ranges of taken frames; free slots are blank; frame 0 is reserved. */
  ghost predicate Ledger(h: Heap) {
    && |h.table| == MAX_ALLOC_ENTRIES && 0 in h.used
    && (forall k :: 0 <= k < |h.table| ==>
          if h.table[k].addr == 0 then h.table[k] == NO_ENTRY
          else h.table[k].addr % 4096 == 0 && h.table[k].pages > 0 && FramesOf(h.table[k]) <= h.used)
    && (forall j, k :: 0 <= j < k < |h.table| && h.table[j].addr != 0 && h.table[k].addr != 0 ==>
          FramesOf(h.table[j]) !! FramesOf(h.table[k]))
  }

  /** The lowest free frames that an allocation of this size takes are consecutive. */
  ghost predicate Fits(h: Heap, size: nat) {
    Take(h.used, h.total, PagesFor(size)) == Consecutive(FirstFree(h.used, h.total, 0), PagesFor(size))
  }

  /** What a successful allocation hands out: free frames of memory, the lowest first. */
  lemma MallocFrames(h: Heap, size: nat)
    requires 0 in h.used && Malloc(h, size).1.Some?
    ensures var fs, f := Take(h.used, h.total, PagesFor(size)), FirstFree(h.used, h.total, 0);
      && PagesFor(size) > 0 && |fs| == PagesFor(size) && fs[0] == f && f > 0
      && Malloc(h, size).1 == Some(f * 4096)
      && Elems(fs) !! h.used && f in Elems(fs)
  {
    var n := PagesFor(size);
    TakeAscending(h.used, h.total, n);
    assert n > 0;
    assert Take(h.used, h.total, n)[0] == FirstFree(h.used, h.total, 0);
  }

  /** An allocation fails exactly when it asks for nothing, too much, or more than is free; it then changes nothing. */
  lemma MallocFailsIff(h: Heap, size: nat)
    requires h.used <= Range(0, h.total)
    ensures Malloc(h, size).1.None? <==>
      size == 0 || size > 64 * 4096 || h.total - |h.used| < PagesFor(size)
    ensures Malloc(h, size).1.None? ==> Malloc(h, size).0 == h
  {
    TakeCount(h.used, h.total, PagesFor(size));
    PagesCoverSize(size);
  }

  /** Taking away a range again leaves what was there exactly when the range is what was added. */
  lemma TakenAndGiven(used: set<nat>, fs: set<nat>, range: set<nat>)
    requires fs !! used
    ensures used + fs - range == used <==> fs <= range && range !! used
  {
    if used + fs - range == used {
      assert forall x :: x in fs ==> x in used + fs;
      assert forall x :: x in used ==> x in used + fs - range;
    }
  }

  /**
   Allocating and freeing again restores bitmap, counter and table exactly when the frames were
   consecutive and the table had room, or a full table had only one page to forget.
   */
  lemma MallocThenFree(h: Heap, size: nat)
    requires Ledger(h) && Malloc(h, size).1.Some?
    ensures var (h2, ptr) := Malloc(h, size);
      Free(h2, ptr.value) == h <==>
        if Find(h.table, 0, 0) < |h.table| then Fits(h, size) else PagesFor(size) == 1
  {
    var n, f := PagesFor(size), FirstFree(h.used, h.total, 0);
    MallocFrames(h, size);
    NotRecorded(h, f);
    hide Take, Elems, Range, FirstFree, FramesOf;
    if Find(h.table, 0, 0) < |h.table| {
      InsertedThenRemoved(h.table, f * 4096, n);
      WholeBlockBack(h, n);
    } else {
      assert Find(h.table, f * 4096, 0) == |h.table|;
      FirstPageBack(h, n);
    }
  }

  lemma NotRecorded(h: Heap, f: nat)
    requires Ledger(h) && f > 0 && f !in h.used
    ensures forall j :: 0 <= j < |h.table| ==> h.table[j].addr != f * 4096
  {
    forall j | 0 <= j < |h.table| ensures h.table[j].addr != f * 4096 {
      assert h.table[j].addr == f * 4096 ==> f in FramesOf(h.table[j]);
    }
  }

  lemma WholeBlockBack(h: Heap, n: nat)
    requires n > 0 && |Take(h.used, h.total, n)| == n
    ensures var fs, f := Take(h.used, h.total, n), FirstFree(h.used, h.total, 0);
      h.used + Elems(fs) - Range(f, f + n) == h.used <==> fs == Consecutive(f, n)
  {
    var fs, f := Take(h.used, h.total, n), FirstFree(h.used, h.total, 0);
    TakeAscending(h.used, h.total, n);
    ConsecutiveElems(f, n);
    TakenAndGiven(h.used, Elems(fs), Range(f, f + n));
    if Elems(fs) <= Range(f, f + n) {
      forall i | 0 <= i < |fs| ensures f <= fs[i] < f + n {
        assert fs[i] in Elems(fs);
      }
      AscendingInRange(fs, f, n);
    }
  }

  lemma FirstPageBack(h: Heap, n: nat)
    requires n > 0 && |Take(h.used, h.total, n)| == n
    ensures var fs, f := Take(h.used, h.total, n), FirstFree(h.used, h.total, 0);
      h.used + Elems(fs) - Range(f, f + 1) == h.used <==> n == 1
  {
    var fs, f := Take(h.used, h.total, n), FirstFree(h.used, h.total, 0);
    TakeAscending(h.used, h.total, n);
    assert fs[0] == f;
    TakenAndGiven(h.used, Elems(fs), Range(f, f + 1));
    if n > 1 {
      assert fs[1] in Elems(fs) && fs[1] !in Range(f, f + 1);
    }
  }

  lemma InsertedThenRemoved(t: Table, addr: nat, pages: nat)
    requires addr != 0 && pages > 0 && Find(t, 0, 0) < |t|
    requires t[Find(t, 0, 0)] == NO_ENTRY && forall j :: 0 <= j < |t| ==> t[j].addr != addr
    ensures Removed(Inserted(t, addr, pages), addr) == (t, pages)
  {
    var k, t2 := Find(t, 0, 0), Inserted(t, addr, pages);
    assert t2[k] == AllocEntry(addr, pages) && forall j :: 0 <= j < |t| && j != k ==> t2[j] == t[j];
    assert Find(t2, addr, 0) == k;
    assert t2[k := NO_ENTRY] == t;
  }

  // ---- The zero fill ----

  function Cleared(m: seq<byte>, at: nat, n: nat): (m2: seq<byte>)
    ensures |m2| == |m|
  {
    seq(|m|, i requires 0 <= i < |m| => if at <= i < at + n then 0 else m[i])
  }

  /** Cleared bytes read zero, and all others are as they were. */
  lemma ClearedReadsZero(m: seq<byte>, at: nat, n: nat, i: nat)
    requires i < |m|
    ensures Cleared(m, at, n)[i] == if at <= i < at + n then 0 else m[i]
  {
  }

  function FrameOfByte(i: nat): nat {
    i / 4096
  }

  /** Clearing these bytes changes no byte of a taken frame, whatever memory holds. */
  ghost predicate SparesTaken(used: set<nat>, at: nat, n: nat) {
    forall m: seq<byte>, i: nat :: i < |m| && FrameOfByte(i) in used ==> Cleared(m, at, n)[i] == m[i]
  }

  /** A clearing allocation spares everybody else's bytes exactly when the frames after the lowest free one are free. */
  lemma ZeroFillSparesOthersIff(h: Heap, size: nat)
    requires 0 in h.used && Malloc(h, size).1.Some?
    ensures SparesTaken(h.used, Malloc(h, size).1.value, PagesFor(size) * 4096) <==>
      FreeRange(h.used, h.total, FirstFree(h.used, h.total, 0), PagesFor(size))
  {
    var n, f := PagesFor(size), FirstFree(h.used, h.total, 0);
    MallocFrames(h, size);
    LastInMemory(h.used, h.total, n);
    hide Take, FirstFree, Malloc;
    if SparesTaken(h.used, f * 4096, n * 4096) {
      forall g: nat | f <= g < f + n ensures FreeAt(h.used, h.total, g) {
        var m: seq<byte>, i := seq((f + n) * 4096, k => 1), g * 4096;
        assert Cleared(m, f * 4096, n * 4096)[i] == 0 && FrameOfByte(i) == g;
      }
    }
    if FreeRange(h.used, h.total, f, n) {
      forall m: seq<byte>, i: nat | i < |m| && FrameOfByte(i) in h.used
        ensures Cleared(m, f * 4096, n * 4096)[i] == m[i]
      {
        assert f <= FrameOfByte(i) < f + n ==> FreeAt(h.used, h.total, FrameOfByte(i));
      }
    }
  }

  // ---- Runs ----

  /** A frame of a recorded allocation. */
  ghost predicate InLedger(t: Table, f: nat) {
    exists k :: 0 <= k < |t| && t[k].addr != 0 && f in FramesOf(t[k])
  }

  /** The frames taken by anything but the heap. */
  ghost predicate Foreign(h: Heap, f: nat) {
    f in h.used && !InLedger(h.table, f)
  }

  datatype Op = Allocate(size: nat) | Release(ptr: nat)

  /** Allocations that succeed are consecutive and get recorded; callers release what is recorded. */
  ghost predicate Enabled(h: Heap, op: Op) {
    match op
    case Allocate(size) => Malloc(h, size).1.Some? ==> Fits(h, size) && Find(h.table, 0, 0) < |h.table|
    case Release(ptr) => ptr != 0 ==> exists k: nat :: Recorded(h.table, k) && h.table[k].addr == ptr / 4096 * 4096
  }

  ghost function Step(h: Heap, op: Op): Heap {
    match op
    case Allocate(size) => Malloc(h, size).0
    case Release(ptr) => Free(h, ptr)
  }

  /** Writing entry `k` for the frames `[f, f + n)` and taking them. */
  lemma EntryAdded(h: Heap, k: nat, f: nat, n: nat)
    requires Ledger(h) && k < |h.table| && h.table[k] == NO_ENTRY && f > 0 && n > 0
    requires Range(f, f + n) !! h.used
    ensures var h2 := Heap(h.used + Range(f, f + n), h.total, h.table[k := AllocEntry(f * 4096, n)]);
      Ledger(h2) && forall g: nat :: Foreign(h2, g) <==> Foreign(h, g)
  {
    var e := AllocEntry(f * 4096, n);
    var h2 := Heap(h.used + Range(f, f + n), h.total, h.table[k := e]);
    assert FramesOf(e) == Range(f, f + n);
    assert forall j :: 0 <= j < |h.table| && j != k ==> h2.table[j] == h.table[j];
    forall j | 0 <= j < |h.table| && j != k && h.table[j].addr != 0 ensures FramesOf(h.table[j]) !! FramesOf(e) {
      assert FramesOf(h.table[j]) <= h.used;
    }
    forall g: nat ensures InLedger(h2.table, g) <==> g in FramesOf(e) || InLedger(h.table, g) {
      if g in FramesOf(e) {
        assert h2.table[k].addr != 0;
      } else if InLedger(h.table, g) {
        var j :| 0 <= j < |h.table| && h.table[j].addr != 0 && g in FramesOf(h.table[j]);
        assert h2.table[j] == h.table[j];
      }
    }
  }

  /** Blanking entry `k` and giving back its frames. */
  lemma EntryRemoved(h: Heap, k: nat)
    requires Ledger(h) && Recorded(h.table, k)
    ensures var h2 := Heap(h.used - FramesOf(h.table[k]), h.total, h.table[k := NO_ENTRY]);
      Ledger(h2) && forall g: nat :: Foreign(h2, g) <==> Foreign(h, g)
  {
    var e := h.table[k];
    var h2 := Heap(h.used - FramesOf(e), h.total, h.table[k := NO_ENTRY]);
    forall j | 0 <= j < |h.table| && j != k && h.table[j].addr != 0 ensures FramesOf(h.table[j]) !! FramesOf(e) {
      assert if j < k then FramesOf(h.table[j]) !! FramesOf(h.table[k])
        else FramesOf(h.table[k]) !! FramesOf(h.table[j]);
    }
    forall g: nat ensures InLedger(h.table, g) <==> g in FramesOf(e) || InLedger(h2.table, g) {
      if InLedger(h.table, g) && g !in FramesOf(e) {
        var j :| 0 <= j < |h.table| && h.table[j].addr != 0 && g in FramesOf(h.table[j]);
        assert h2.table[j] == h.table[j];
      }
      if InLedger(h2.table, g) {
        var j :| 0 <= j < |h.table| && h2.table[j].addr != 0 && g in FramesOf(h2.table[j]);
        assert h.table[j] == h2.table[j];
      }
    }
  }

  lemma StepKeepsLedger(h: Heap, op: Op)
    requires Ledger(h) && Enabled(h, op)
    ensures Ledger(Step(h, op)) && forall g: nat :: Foreign(Step(h, op), g) <==> Foreign(h, g)
  {
    match op
    case Allocate(size) =>
      if Malloc(h, size).1.Some? {
        MallocFrames(h, size);
        ConsecutiveElems(FirstFree(h.used, h.total, 0), PagesFor(size));
        EntryAdded(h, Find(h.table, 0, 0), FirstFree(h.used, h.total, 0), PagesFor(size));
      }
    case Release(ptr) =>
      if ptr != 0 {
        var j: nat :| Recorded(h.table, j) && h.table[j].addr == ptr / 4096 * 4096;
        EntryRemoved(h, Find(h.table, ptr / 4096 * 4096, 0));
      }
  }

  ghost predicate Legal(h: Heap, ops: seq<Op>)
    decreases |ops|
  {
    |ops| > 0 ==> Enabled(h, ops[0]) && Legal(Step(h, ops[0]), ops[1..])
  }

  ghost function Run(h: Heap, ops: seq<Op>): Heap
    decreases |ops|
  {
    if |ops| == 0 then h else Run(Step(h, ops[0]), ops[1..])
  }

  /**
   Over every such run the live allocations are disjoint ranges of taken frames, one for each table
   entry, and no frame that belongs to anyone else is taken or freed.
   */
  lemma {:induction false} RunKeepsLedger(h: Heap, ops: seq<Op>)
    requires Ledger(h) && Legal(h, ops)
    ensures Ledger(Run(h, ops)) && forall g: nat :: Foreign(Run(h, ops), g) <==> Foreign(h, g)
    decreases |ops|
  {
    if |ops| != 0 {
      StepKeepsLedger(h, ops[0]);
      RunKeepsLedger(Step(h, ops[0]), ops[1..]);
    }
  }

  // ---- A gap that is too small ----

  /** The heap at boot, over 16 frames of which the first is reserved. */
  function Fresh(): Heap {
    Heap({0}, 16, seq(MAX_ALLOC_ENTRIES, i => NO_ENTRY))
  }

  /**
   From boot, three calls leave a gap of one page.  Two pages allocated then start in the gap: freeing
   them again does not restore the heap, and clearing them clears a page of somebody else.
   */
  lemma SmallGapIsReached()
    ensures var ops := [Allocate(4096), Allocate(4096), Release(4096)];
      var h := Run(Fresh(), ops);
      && Ledger(Fresh()) && Legal(Fresh(), ops) && Ledger(h) && h.used == {0, 2}
      && Malloc(h, 8192).1 == Some(4096)
      && Free(Malloc(h, 8192).0, 4096) != h
      && !SparesTaken(h.used, 4096, 8192)
  {
    hide Malloc, Free, Take, FirstFree, Find, SparesTaken, Fits;
    var h0 := Fresh();
    var t1 := h0.table[0 := AllocEntry(4096, 1)];
    var t2 := t1[1 := AllocEntry(8192, 1)];
    var h1, h2, h := Heap({0, 1}, 16, t1), Heap({0, 1, 2}, 16, t2), Heap({0, 2}, 16, t2[0 := NO_ENTRY]);
    assert {0} + {1} == {0, 1} && {0, 1} + {2} == {0, 1, 2} && {0, 1, 2} - {1} == {0, 2};
    OnePage(h0, 1, 0);
    OnePage(h1, 2, 1);
    PageBack(h2, 1, 0);
    var a, r := Allocate(4096), Release(4096);
    FirstCall(h0, [a, a, r], [a, r]);
    FirstCall(h1, [a, r], [r]);
    FirstCall(h2, [r], []);
    RunKeepsLedger(h0, [a, a, r]);
    TwoPagesInGap(h);
  }

  lemma LowestFree(used: set<nat>, total: nat, f: nat)
    requires f < total && f !in used && forall g :: 0 <= g < f ==> g in used
    ensures FirstFree(used, total, 0) == f
    ensures Take(used, total, 1) == [f]
  {
    assert Take(used + {f}, total, 0) == [];
  }

  lemma FirstEntry(t: Table, addr: nat, k: nat)
    requires k < |t| && t[k].addr == addr && forall j :: 0 <= j < k ==> t[j].addr != addr
    ensures Find(t, addr, 0) == k
  {
  }

  lemma OnePage(h: Heap, f: nat, k: nat)
    requires 0 < f < h.total && f !in h.used && forall g :: 0 <= g < f ==> g in h.used
    requires k < |h.table| && h.table[k].addr == 0 && forall j :: 0 <= j < k ==> h.table[j].addr != 0
    ensures Step(h, Allocate(4096)) == Heap(h.used + {f}, h.total, h.table[k := AllocEntry(f * 4096, 1)])
    ensures Enabled(h, Allocate(4096))
  {
    hide Take, FirstFree, Find;
    LowestFree(h.used, h.total, f);
    FirstEntry(h.table, 0, k);
    assert PagesFor(4096) == 1 && Elems([f]) == {f};
    assert Consecutive(f + 1, 0) == [] && Consecutive(f, 1) == [f];
  }

  lemma PageBack(h: Heap, f: nat, k: nat)
    requires f > 0 && k < |h.table| && h.table[k] == AllocEntry(f * 4096, 1)
    requires forall j :: 0 <= j < k ==> h.table[j].addr != f * 4096
    ensures Step(h, Release(f * 4096)) == Heap(h.used - {f}, h.total, h.table[k := NO_ENTRY])
    ensures Enabled(h, Release(f * 4096))
  {
    hide Find;
    FirstEntry(h.table, f * 4096, k);
    assert f * 4096 / 4096 == f && Range(f, f + 1) == {f};
    assert Recorded(h.table, k);
  }

  lemma FirstCall(h: Heap, ops: seq<Op>, rest: seq<Op>)
    requires |ops| > 0 && ops[1..] == rest
    ensures Run(h, ops) == Run(Step(h, ops[0]), rest) && Run(h, []) == h && Legal(h, [])
    ensures Legal(h, ops) <==> Enabled(h, ops[0]) && Legal(Step(h, ops[0]), rest)
  {
  }

  lemma TwoPagesInGap(h: Heap)
    requires Ledger(h) && h.used == {0, 2} && h.total == 16 && h.table[0].addr == 0
    ensures Malloc(h, 8192).1 == Some(4096) && Free(Malloc(h, 8192).0, 4096) != h
    ensures !SparesTaken(h.used, 4096, 8192)
  {
    hide Take, FirstFree, Malloc, Free, SparesTaken;
    assert PagesFor(8192) == 2;
    RangeSize(0, 16);
    LowestFree(h.used, 16, 1);
    MallocFailsIff(h, 8192);
    MallocFrames(h, 8192);
    FirstEntry(h.table, 0, 0);
    TakeIsConsecutive(h.used, 16, 2);
    MallocThenFree(h, 8192);
    ZeroFillSparesOthersIff(h, 8192);
    assert !FreeAt(h.used, 16, 2);
  }

  // ---- The calls ----

  /** The first `k` addresses are those of the frames taken. */
  ghost predicate Addresses(addrs: seq<nat>, g: Grab, k: nat) {
    match g
    case Grab(fs, _) => k <= |addrs| && k == |fs| && forall j :: 0 <= j < k ==> addrs[j] == fs[j] * 4096
  }

  /** All the frames or none: what was taken is given back when memory runs out. */
  method TakeFrames(phys: FrameAllocator, pages: nat) returns (first: Option<nat>)
    requires phys.Valid() && 0 < pages <= MAX_PAGES
    modifies phys`freeFrames, phys`used, phys.bitmap
    ensures phys.Valid()
    ensures var fs := Take(old(phys.used), phys.totalFrames, pages);
      && first == (if |fs| == pages then Some(fs[0] * 4096) else None)
      && phys.used == old(phys.used) + (if |fs| == pages then Elems(fs) else {})
  {
    ghost var used, total := phys.used, phys.totalFrames;
    var frames := new nat[MAX_PAGES](k => 0);
    hide Grabbed, Addresses, Elems, Take, FrameAllocator.Valid;
    var all;
    ghost var g;
    all, g := TakeAll(phys, frames, pages);
    if !all {
      return None;
    }
    AllGrabbed(frames[..], g, used, total, pages);
    return Some(frames[0]);
  }

  method TakeAll(phys: FrameAllocator, frames: array<nat>, pages: nat) returns (all: bool, ghost g: Grab)
    requires phys.Valid() && pages <= frames.Length && (frames as object) != phys.bitmap
    modifies frames, phys`freeFrames, phys`used, phys.bitmap
    ensures phys.Valid()
    ensures if all then phys.used == g.used && Grabbed(g, old(phys.used), phys.totalFrames, pages)
                        && Addresses(frames[..], g, pages)
      else phys.used == old(phys.used) && |Take(phys.used, phys.totalFrames, pages)| < pages
  {
    ghost var used, total := phys.used, phys.totalFrames;
    g := Grab([], used);
    NothingGrabbed(used, total);
    NoAddresses(frames[..], used);
    hide Grabbed, Addresses, Elems, Take, FrameAllocator.Valid;
    var i := 0;
    while i < pages
      invariant i <= pages && phys.Valid() && phys.totalFrames == total && phys.used == g.used
      invariant Grabbed(g, used, total, i) && Addresses(frames[..], g, i)
    {
      var more;
      more, g := TakeNext(phys, frames, i, g, used);
      if !more {
        NoMoreGrabbed(g, used, total, i, pages);
        GiveBack(phys, frames, i, g, used);
        return false, g;
      }
      i := i + 1;
    }
    return true, g;
  }

  method TakeNext(phys: FrameAllocator, frames: array<nat>, i: nat, ghost g: Grab, ghost used: set<nat>)
    returns (more: bool, ghost g2: Grab)
    requires phys.Valid() && i < frames.Length && (frames as object) != phys.bitmap && phys.used == g.used
    requires Grabbed(g, used, phys.totalFrames, i) && Addresses(frames[..], g, i)
    modifies frames, phys`freeFrames, phys`used, phys.bitmap
    ensures phys.Valid() && phys.used == g2.used
    ensures if more then Grabbed(g2, used, phys.totalFrames, i + 1) && Addresses(frames[..], g2, i + 1)
      else g2 == g && Addresses(frames[..], g, i) && FirstFree(g.used, phys.totalFrames, 0) == phys.totalFrames
  {
    hide Grabbed, Addresses, Elems, Take, FrameAllocator.Valid;
    ghost var addrs := frames[..];
    var addr := TakeOne(phys);
    assert frames[..] == addrs;
    if addr.None? {
      return false, g;
    }
    ghost var f := FirstFree(g.used, phys.totalFrames, 0);
    OneMoreAddress(addrs, g, i, f);
    frames[i] := addr.value;
    OneMoreGrabbed(g, used, phys.totalFrames, i, f);
    return true, Grab(g.frames + [f], g.used + {f});
  }

  lemma NoAddresses(addrs: seq<nat>, used: set<nat>)
    ensures Addresses(addrs, Grab([], used), 0)
  {
  }

  lemma OneMoreAddress(addrs: seq<nat>, g: Grab, k: nat, f: nat)
    requires Addresses(addrs, g, k) && k < |addrs|
    ensures Addresses(addrs[k := f * 4096], Grab(g.frames + [f], g.used + {f}), k + 1)
  {
  }

  lemma AllGrabbed(addrs: seq<nat>, g: Grab, used: set<nat>, total: nat, k: nat)
    requires Grabbed(g, used, total, k) && Addresses(addrs, g, k) && k > 0
    ensures var fs := Take(used, total, k);
      |fs| == k && |addrs| > 0 && addrs[0] == fs[0] * 4096 && g.used == used + Elems(fs)
  {
  }

  method TakeOne(phys: FrameAllocator) returns (addr: Option<nat>)
    requires phys.Valid()
    modifies phys`freeFrames, phys`used, phys.bitmap
    ensures phys.Valid()
    ensures var f := FirstFree(old(phys.used), phys.totalFrames, 0);
      if f == phys.totalFrames then addr.None? && phys.used == old(phys.used)
      else addr == Some(f * 4096) && phys.used == old(phys.used) + {f}
  {
    RangeSize(0, phys.totalFrames);
    SubsetSize(phys.used, Range(0, phys.totalFrames));
    addr := phys.AllocFrame();
  }

  method GiveBack(phys: FrameAllocator, frames: array<nat>, taken: nat, ghost g: Grab, ghost used: set<nat>)
    requires phys.Valid() && (frames as object) != phys.bitmap && phys.used == g.used
    requires Addresses(frames[..], g, taken) && Grabbed(g, used, phys.totalFrames, taken)
    modifies phys`freeFrames, phys`used, phys.bitmap
    ensures phys.Valid() && phys.used == used
  {
    hide Grabbed, Addresses, Elems, Take;
    ghost var addrs, total := frames[..], phys.totalFrames;
    NoneGivenBack(g, used, total, taken);
    for j := 0 to taken
      invariant phys.Valid() && phys.totalFrames == total && frames[..] == addrs
      invariant phys.used == StillTaken(g, used, j)
    {
      OneMoreGivenBack(addrs, g, used, total, taken, j);
      var ignored := phys.FreeFrame(frames[j]);
    }
    AllGivenBack(g, used, total, taken);
  }

  /** What remains taken once the first `j` frames are back. */
  ghost function StillTaken(g: Grab, used: set<nat>, j: nat): set<nat> {
    used + Elems(if j <= |g.frames| then g.frames[j..] else [])
  }

  lemma NoneGivenBack(g: Grab, used: set<nat>, total: nat, k: nat)
    requires Grabbed(g, used, total, k)
    ensures StillTaken(g, used, 0) == g.used
  {
    assert g.frames[0..] == g.frames;
  }

  lemma AllGivenBack(g: Grab, used: set<nat>, total: nat, k: nat)
    requires Grabbed(g, used, total, k)
    ensures StillTaken(g, used, k) == used
  {
  }

  lemma OneMoreGivenBack(addrs: seq<nat>, g: Grab, used: set<nat>, total: nat, k: nat, j: nat)
    requires Grabbed(g, used, total, k) && Addresses(addrs, g, k) && j < k && total <= MAX_FRAMES
    ensures k <= |addrs| && addrs[j] / 4096 < MAX_FRAMES
    ensures StillTaken(g, used, j) - {addrs[j] / 4096} == StillTaken(g, used, j + 1)
  {
    assert addrs[j] == g.frames[j] * 4096;
    OneFewer(g.frames, used, j);
  }

  lemma OneFewer(fs: seq<nat>, used: set<nat>, j: nat)
    requires j < |fs| && Elems(fs) !! used && forall i, k :: 0 <= i < k < |fs| ==> fs[i] < fs[k]
    ensures used + Elems(fs[j..]) - {fs[j]} == used + Elems(fs[j + 1..])
  {
    var rest := fs[j + 1..];
    assert Elems(fs[j..]) == {fs[j]} + Elems(rest) by {
      assert fs[j..] == [fs[j]] + rest;
    }
    assert fs[j] !in used by {
      assert fs[j] in Elems(fs);
    }
    forall x | x in Elems(rest) ensures x != fs[j] {
      var i :| 0 <= i < |rest| && rest[i] == x;
      assert rest[i] == fs[j + 1 + i];
    }
  }

  method FreePages(phys: FrameAllocator, frameAddr: nat, pages: nat, ghost f: nat)
    requires phys.Valid() && frameAddr == f * 4096 && f + pages <= MAX_FRAMES
    modifies phys`freeFrames, phys`used, phys.bitmap
    ensures phys.Valid() && phys.used == old(phys.used) - Range(f, f + pages)
  {
    hide FrameAllocator.Valid, Range;
    ghost var used := phys.used;
    OneFrameMore(used, f, 0);
    for i := 0 to pages
      invariant phys.Valid() && phys.used == used - Range(f, f + i)
    {
      OneFrameMore(used, f, i);
      FreeOne(phys, frameAddr + i * 4096, f + i);
    }
  }

  /** What `kfree` does with the page count of the table; an unknown address counts as one page. */
  method FreeRecorded(phys: FrameAllocator, frameAddr: nat, pages: nat, ghost f: nat) returns (out: Outcome<()>)
    requires phys.Valid() && frameAddr == f * 4096 && (pages > 0 ==> f + pages <= phys.totalFrames)
    modifies phys`freeFrames, phys`used, phys.bitmap
    ensures phys.Valid() && phys.used == old(phys.used) - Range(f, f + if pages == 0 then 1 else pages)
    ensures out.Panicked? <==> pages == 0 && f >= MAX_FRAMES
  {
    assert phys.totalFrames <= MAX_FRAMES;
    OneFrameRange(f);
    hide FrameAllocator.Valid, Range;
    if pages == 0 {
      out := phys.FreeFrame(frameAddr);
    } else {
      FreePages(phys, frameAddr, pages, f);
      out := Returned(());
    }
  }

  lemma OneFrameRange(f: nat)
    ensures Range(f, f + 1) == {f}
  {
  }

  method FreeOne(phys: FrameAllocator, addr: nat, ghost f: nat)
    requires phys.Valid() && addr == f * 4096 && f < MAX_FRAMES
    modifies phys`freeFrames, phys`used, phys.bitmap
    ensures phys.Valid() && phys.used == old(phys.used) - {f}
  {
    var ignored := phys.FreeFrame(addr);
  }

  lemma OneFrameMore(used: set<nat>, f: nat, i: nat)
    ensures used - Range(f, f) == used
    ensures used - Range(f, f + i) - {f + i} == used - Range(f, f + (i + 1))
  {
  }

  /** The range of pages starting at the first frame taken lies in memory. */
  lemma LastInMemory(used: set<nat>, total: nat, n: nat)
    requires n > 0 && |Take(used, total, n)| == n
    ensures Take(used, total, n)[0] + n <= total
  {
    TakeAscending(used, total, n);
    Spread(Take(used, total, n), total);
  }

  lemma {:induction false} Spread(fs: seq<nat>, total: nat)
    requires |fs| > 0 && (forall i, j :: 0 <= i < j < |fs| ==> fs[i] < fs[j]) && forall x :: x in fs ==> x < total
    ensures fs[0] + |fs| <= total
    decreases |fs|
  {
    assert fs[0] in fs;
    if |fs| > 1 {
      var rest := fs[1..];
      assert forall x :: x in rest ==> x in fs;
      Spread(rest, total);
    }
  }

  predicate EntryInMemory(e: AllocEntry, total: nat) {
    e.addr / 4096 + e.pages <= total
  }

  ghost predicate InMemory(t: Table, total: nat) {
    forall k :: 0 <= k < |t| ==> EntryInMemory(t[k], total)
  }

  class Shim {
    const phys: FrameAllocator
    const table: array<AllocEntry>
    const mem: array<byte>

    constructor (phys: FrameAllocator, mem: array<byte>)
      requires phys.Valid() && 0 in phys.used
      requires phys.totalFrames * 4096 <= mem.Length && (mem as object) != phys.bitmap
      ensures Valid() && this.phys == phys && this.mem == mem && fresh(table) && Ledger(Value())
    {
      this.phys, this.mem := phys, mem;
      table := new AllocEntry[MAX_ALLOC_ENTRIES](k => NO_ENTRY);
    }

    /** Recorded ranges lie in memory, so freeing them stays inside the bitmap. */
    ghost predicate Valid()
      reads this, table, phys, phys.bitmap
    {
      && phys.Valid() && table.Length == MAX_ALLOC_ENTRIES && (table as object) != phys.bitmap
      && InMemory(table[..], phys.totalFrames)
      && phys.totalFrames * 4096 <= mem.Length && (mem as object) != table && (mem as object) != phys.bitmap
    }

    ghost function Value(): Heap
      reads this, table, phys
    {
      Heap(phys.used, phys.totalFrames, table[..])
    }

    method TableInsert(addr: nat, pages: nat)
      requires Valid() && addr / 4096 + pages <= phys.totalFrames
      modifies table
      ensures Valid() && table[..] == Inserted(old(table[..]), addr, pages)
    {
      for i := 0 to MAX_ALLOC_ENTRIES
        invariant Find(table[..], 0, 0) == Find(table[..], 0, i)
        invariant table[..] == old(table[..])
      {
        if table[i].addr == 0 {
          table[i] := AllocEntry(addr, pages);
          return;
        }
      }
    }

    method TableRemove(addr: nat) returns (pages: nat)
      requires Valid()
      modifies table
      ensures Valid() && Removed(old(table[..]), addr) == (table[..], pages)
      ensures pages > 0 ==> addr / 4096 + pages <= phys.totalFrames
    {
      for i := 0 to MAX_ALLOC_ENTRIES
        invariant Find(table[..], addr, 0) == Find(table[..], addr, i)
        invariant table[..] == old(table[..])
      {
        if table[i].addr == addr {
          assert EntryInMemory(table[..][i], phys.totalFrames);
          pages := table[i].pages;
          table[i] := NO_ENTRY;
          return;
        }
      }
      return 0;
    }

    /** `kmalloc`, with `zero` for the flag `GFP_ZERO` that `kzalloc` sets; `None` is the null pointer. */
    method Allocate(size: nat, zero: bool) returns (ptr: Option<nat>)
      requires Valid()
      modifies table, mem, phys`freeFrames, phys`used, phys.bitmap
      ensures Valid() && Malloc(old(Value()), size) == (Value(), ptr)
      ensures ptr.None? <==> size == 0 || PagesFor(size) > MAX_PAGES || old(phys.freeFrames) < PagesFor(size)
      ensures ptr.None? ==> Value() == old(Value()) && phys.freeFrames == old(phys.freeFrames)
      ensures mem[..] ==
        if ptr.Some? && zero then Cleared(old(mem[..]), ptr.value, PagesFor(size) * 4096) else old(mem[..])
    {
      hide Malloc, FrameAllocator.Valid, InMemory, Cleared, PagesFor;
      ptr := AllocatePages(size);
      if ptr.Some? && zero {
        Clear(ptr.value, AlignUp(size) / 4096 * 4096);
      }
    }

    /** The allocation without the zero fill. */
    method AllocatePages(size: nat) returns (ptr: Option<nat>)
      requires Valid()
      modifies table, phys`freeFrames, phys`used, phys.bitmap
      ensures Valid() && Malloc(old(Value()), size) == (Value(), ptr)
      ensures ptr.None? <==> size == 0 || PagesFor(size) > MAX_PAGES || old(phys.freeFrames) < PagesFor(size)
      ensures ptr.None? ==> Value() == old(Value()) && phys.freeFrames == old(phys.freeFrames)
      ensures PagesFor(size) == AlignUp(size) / 4096
      ensures ptr.Some? ==> ptr.value + PagesFor(size) * 4096 <= mem.Length
    {
      MallocFailsIff(Value(), size);
      if size == 0 {
        return None;
      }
      var pages := AlignUp(size) / 4096;
      if pages > MAX_PAGES {
        return None;
      }
      ghost var used := phys.used;
      TakeAscending(used, phys.totalFrames, pages);
      hide Take, Elems;
      ptr := TakeFrames(phys, pages);
      if ptr.Some? {
        LastInMemory(used, phys.totalFrames, pages);
        TableInsert(ptr.value, pages);
      }
    }

    /** `write_bytes` with zero */
    method Clear(at: nat, n: nat)
      requires at + n <= mem.Length
      modifies mem
      ensures mem[..] == Cleared(old(mem[..]), at, n)
    {
      for i := 0 to n
        invariant forall k :: 0 <= k < mem.Length ==> mem[k] == if at <= k < at + i then 0 else old(mem[k])
      {
        mem[at + i] := 0;
      }
    }

    /** An address that is neither recorded nor covered by the bitmap stops the machine. */
    method Release(ptr: nat) returns (out: Outcome<()>)
      requires Valid()
      modifies table, phys`freeFrames, phys`used, phys.bitmap
      ensures Valid() && Value() == Free(old(Value()), ptr)
      ensures out.Panicked? <==>
        ptr / 4096 >= MAX_FRAMES && Removed(old(table[..]), ptr / 4096 * 4096).1 == 0
    {
      if ptr == 0 {
        return Returned(());
      }
      hide InMemory, Removed, Range, FrameAllocator.Valid;
      var frameAddr := ptr / 4096 * 4096;
      var pages := TableRemove(frameAddr);
      out := FreeRecorded(phys, frameAddr, pages, ptr / 4096);
    }
  }
}
