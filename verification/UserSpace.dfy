/** User address spaces: creation from the running kernel's tables and mapping of user pages. */
module UserSpace {
  import opened Common
  import opened Bytes
  import opened PageTables
  import opened Paging

  const MAX_IMAGE_PAGES: nat := 256
  const USER_IMAGE_BASE: nat := 0x40_0000
  const USER_STACK_TOP: nat := 0x7FFF_FFFF_0000
  const USER_STACK_SIZE: nat := 0x1_0000
  const STACK_PAGE: nat := 0x7_FFFF_FFE0 // the lowest page of the user stack

  /** `map_user_pages` returns true, returns false, or stops the kernel inside `map_page`. */
  datatype MapOutcome = Success | Refused | Panic

  // ---- The content of an address space ----

  /** The content of virtual page `vp` as the address space of `r` sees it. */
  function PageAt(m: seq<byte>, r: nat, vp: nat): Option<seq<byte>> {
    match Translate(m, r, vp)
    case None => None
    case Some(mp) => if InMem(m, mp.frame) then Some(FrameOf(m, mp.frame)) else None
  }

  /** Page `i` of `data`, padded with zeros; a zero page past its end. */
  function PageSlice(data: seq<byte>, i: nat): (s: seq<byte>)
    ensures |s| == 4096
  {
    var lo, hi := Min(4096 * i, |data|), Min(4096 * i + 4096, |data|);
    data[lo..hi] + seq(4096 - (hi - lo), k => 0)
  }

  lemma PageSliceByte(data: seq<byte>, i: nat, k: nat)
    requires k < 4096
    ensures PageSlice(data, i)[k] == if 4096 * i + k < |data| then data[4096 * i + k] else 0
  {
  }

  function PageCount(size: nat): nat {
    (size + 4095) / 4096
  }

  /** As many pages as the size needs, and no more. */
  lemma PagesCoverSize(size: nat)
    ensures size <= 4096 * PageCount(size)
    ensures size > 0 ==> 4096 * (PageCount(size) - 1) < size
  {
  }

  /** Pages `first` to `last` of `data`, laid out so that page 0 would be at `base`. */
  datatype Layout = Layout(base: nat, first: nat, last: nat, data: seq<byte>) {
    predicate Covers(vp: nat) {
      base + first <= vp < base + last
    }

    function At(vp: nat): seq<byte>
      requires base <= vp
    {
      PageSlice(data, vp - base)
    }
  }

  /** Later layers hide earlier ones, as later mappings of a page replace earlier ones. */
  function ContentAt(layers: seq<Layout>, vp: nat): Option<seq<byte>> {
    if |layers| == 0 then None
    else
      var x := layers[|layers| - 1];
      if x.Covers(vp) then Some(x.At(vp)) else ContentAt(layers[..|layers| - 1], vp)
  }

  lemma TopLayer(layers: seq<Layout>, x: Layout, vp: nat)
    ensures ContentAt(layers + [x], vp) == if x.Covers(vp) then Some(x.At(vp)) else ContentAt(layers, vp)
  {
    assert (layers + [x])[..|layers|] == layers;
  }

  // ---- The isolation invariant ----

  /** Which page of which address space a data frame backs. */
  type Backing = map<nat, (nat, nat)>

  ghost predicate UserRoot(a: Snapshot, kr: nat, r: nat) {
    IsRoot(a.owner, r) && r != kr
  }

  /**
   Every mapped user page is user-writable at all four levels and leads to a frame of its own,
   which is allocated and is no table; the upper half of every address space is the kernel's.
   */
  ghost predicate Isolated(a: Snapshot, kr: nat, pages: Backing) {
    && (forall r, vp :: UserRoot(a, kr, r) && 0 <= vp < USER_PAGES ==> Plain(a.mem, 4, r, vp))
    && (forall r, vp :: UserRoot(a, kr, r) && 0 <= vp < USER_PAGES ==> Backed(a, pages, r, vp))
    && (forall f :: f in pages ==> f in a.used && f !in a.owner && InMem(a.mem, f))
    && (forall r, i :: IsRoot(a.owner, r) && 256 <= i < 512 ==> SharedTop(a, kr, r, i))
  }

  ghost predicate Backed(a: Snapshot, pages: Backing, r: nat, vp: nat) {
    var mp := Translate(a.mem, r, vp);
    mp.Some? ==>
      && mp.value.writable && mp.value.user
      && mp.value.frame in pages && pages[mp.value.frame] == (r, vp)
  }

  ghost predicate SharedTop(a: Snapshot, kr: nat, r: nat, i: nat)
    requires i < 512
  {
    InMem(a.mem, r) && InMem(a.mem, kr) ==> Entry(a.mem, r, i) == Entry(a.mem, kr, i)
  }

  /** No two mapped user pages, of one address space or of two, share a frame. */
  lemma NoSharedFrames(a: Snapshot, kr: nat, pages: Backing, r: nat, vp: nat, s: nat, vq: nat)
    requires Isolated(a, kr, pages)
    requires UserRoot(a, kr, r) && UserRoot(a, kr, s) && vp < USER_PAGES && vq < USER_PAGES
    requires Translate(a.mem, r, vp).Some? && Translate(a.mem, s, vq).Some?
    requires Translate(a.mem, r, vp).value.frame == Translate(a.mem, s, vq).value.frame
    ensures r == s && vp == vq
  {
    assert Backed(a, pages, r, vp) && Backed(a, pages, s, vq);
  }

  // ---- One page ----

  /** A free frame `f` was taken and written. */
  ghost predicate NewFrame(a: Snapshot, b: Snapshot, f: nat) {
    && f !in a.used && InMem(b.mem, f)
    && SameExcept(a.mem, b.mem, {f})
    && b.owner == a.owner && b.used == a.used + {f} && b.free == a.free - 1
  }

  /** Filling a frame that was free touches no address space. */
  lemma FreshFrameIsInvisible(a: Snapshot, b: Snapshot, kr: nat, pages: Backing, f: nat)
    requires Good(a, kr) && Isolated(a, kr, pages)
    requires NewFrame(a, b, f)
    ensures Good(b, kr) && Isolated(b, kr, pages)
    ensures forall r, vp :: IsRoot(a.owner, r) ==> Missing(b.mem, 4, r, vp) == Missing(a.mem, 4, r, vp)
    ensures forall r, vp :: IsRoot(a.owner, r) ==> Path(b.mem, 4, r, vp) == Path(a.mem, 4, r, vp)
    ensures forall r, vp :: IsRoot(a.owner, r) ==> Translate(b.mem, r, vp) == Translate(a.mem, r, vp)
    ensures forall r, vp :: UserRoot(a, kr, r) && 0 <= vp < USER_PAGES ==> PageAt(b.mem, r, vp) == PageAt(a.mem, r, vp)
  {
    assert SameTables(a.mem, b.mem, a.owner);
    ShapeReadsTables(a.mem, b.mem, a.owner, kr);
    forall r, vp | IsRoot(a.owner, r)
      ensures Translate(b.mem, r, vp) == Translate(a.mem, r, vp)
      ensures Plain(b.mem, 4, r, vp) == Plain(a.mem, 4, r, vp)
      ensures Missing(b.mem, 4, r, vp) == Missing(a.mem, 4, r, vp)
      ensures Path(b.mem, 4, r, vp) == Path(a.mem, 4, r, vp)
    {
      TranslationReadsTables(a.mem, b.mem, a.owner, kr, r, vp);
      WalkReadsTables(a.mem, b.mem, a.owner, kr, 4, r, vp);
    }
    forall r, vp | UserRoot(a, kr, r) && 0 <= vp < USER_PAGES
      ensures Backed(b, pages, r, vp)
      ensures PageAt(b.mem, r, vp) == PageAt(a.mem, r, vp)
    {
      assert Backed(a, pages, r, vp);
    }
    forall r, i | IsRoot(a.owner, r) && 256 <= i < 512 ensures SharedTop(b, kr, r, i) {
      assert SharedTop(a, kr, r, i);
    }
  }

  /** Mapping a frame of its own at one user page keeps the isolation. */
  lemma MappedKeepsIsolation(a: Snapshot, b: Snapshot, kr: nat, pages: Backing, r: nat, vp: nat, f: nat)
    requires Good(a, kr) && Good(b, kr) && Isolated(a, kr, pages)
    requires UserRoot(a, kr, r) && vp < USER_PAGES
    requires f in a.used && f !in a.owner && f !in pages && InMem(a.mem, f)
    requires Mapped(a, b, r, vp, f, true)
    ensures Isolated(b, kr, pages[f := (r, vp)])
  {
    hide Path, Translate, LinkRights, Missing;
    var pages2 := pages[f := (r, vp)];
    UserHalf(vp);
    PlainWalk(a.mem, 4, r, vp);
    forall s, vq | UserRoot(b, kr, s) && 0 <= vq < USER_PAGES ensures Backed(b, pages2, s, vq) {
      assert UserRoot(a, kr, s);
      assert Backed(a, pages, s, vq);
    }
    forall s, i | IsRoot(b.owner, s) && 256 <= i < 512 ensures SharedTop(b, kr, s, i) {
      assert IsRoot(a.owner, s);
      assert SharedTop(a, kr, s, i);
    }
  }

  /** From `a` to `b` the pages of `x` were laid over the lower half of `r`; all other user pages read the same. */
  ghost predicate Overlaid(a: Snapshot, b: Snapshot, kr: nat, r: nat, x: Layout) {
    forall s, vq :: UserRoot(a, kr, s) && 0 <= vq < USER_PAGES ==>
      PageAt(b.mem, s, vq) == if s == r && x.Covers(vq) then Some(x.At(vq)) else PageAt(a.mem, s, vq)
  }

  /** No page translates differently, except pages of `r` covered by `x`. */
  ghost predicate OnlyPages(a: Snapshot, b: Snapshot, r: nat, x: Layout) {
    forall s, vq :: IsRoot(a.owner, s) && 0 <= vq < PAGES && (s != r || !x.Covers(vq)) ==>
      Translate(b.mem, s, vq) == Translate(a.mem, s, vq)
  }

  /** Mapping one page updates one page of one address space. */
  lemma MappedUpdatesPages(a: Snapshot, b: Snapshot, kr: nat, pages: Backing, r: nat, vp: nat, f: nat, x: Layout)
    requires Good(a, kr) && Isolated(a, kr, pages)
    requires UserRoot(a, kr, r) && vp < USER_PAGES
    requires f in a.used && f !in a.owner && InMem(a.mem, f)
    requires Mapped(a, b, r, vp, f, true)
    requires x.last == x.first + 1 && vp == x.base + x.first && FrameOf(a.mem, f) == PageSlice(x.data, x.first)
    ensures Overlaid(a, b, kr, r, x)
    ensures OnlyPages(a, b, r, x)
  {
    hide Path;
    forall s, vq | UserRoot(a, kr, s) && 0 <= vq < USER_PAGES && !(s == r && vq == vp)
      ensures PageAt(b.mem, s, vq) == PageAt(a.mem, s, vq)
    {
      assert Backed(a, pages, s, vq);
    }
    assert FrameOf(b.mem, f) == FrameOf(a.mem, f);
  }

  // ---- Several pages ----

  /** The forest only grew, without new roots. */
  ghost predicate KeepsPlaces(a: Snapshot, b: Snapshot) {
    && (forall t :: t in a.owner ==> t in b.owner && b.owner[t] == a.owner[t])
    && (forall t :: t in b.owner && b.owner[t].Root? ==> t in a.owner)
  }

  /** The frames of user pages added since `pa`. */
  ghost function NewFrames(b: Snapshot, pa: Backing, pb: Backing): set<nat> {
    set f | f in b.used && f in pb && f !in pa
  }

  ghost function NewTables(a: Snapshot, b: Snapshot): set<nat> {
    set f | f in b.used && f in b.owner && f !in a.owner
  }

  /** The frames taken from `a` to `b` were free, and are new tables and `n` frames of user pages. */
  ghost predicate Taken(a: Snapshot, pa: Backing, b: Snapshot, pb: Backing, n: nat) {
    && (forall f :: f in pa ==> f in pb)
    && (forall f :: f in b.used <==> f in a.used || f in b.owner || f in pb)
    && (forall f :: f in b.owner && f !in a.owner ==> f !in a.used && f !in pb)
    && (forall f :: f in pb && f !in pa ==> f !in a.used)
    && |NewFrames(b, pa, pb)| == n
  }

  lemma TakenOneMore(a: Snapshot, pa: Backing, b: Snapshot, pb: Backing, c: Snapshot, n: nat, f: nat, page: (nat, nat))
    requires KeepsPlaces(b, c) && KeepsPlaces(a, b)
    requires forall g :: g in pb ==> g in b.used
    requires forall t :: t in b.owner ==> t in b.used
    requires Taken(a, pa, b, pb, n) && Taken(b, pb, c, pb[f := page], 1)
    requires f !in pb
    ensures Taken(a, pa, c, pb[f := page], n + 1)
  {
    assert NewFrames(c, pa, pb[f := page]) == NewFrames(b, pa, pb) + {f};
  }

  lemma DisjointSizes(x: set<nat>, y: set<nat>, z: set<nat>)
    ensures x !! y && x !! z && y !! z ==> |x + y + z| == |x| + |y| + |z|
  {
  }

  lemma CountTaken(a: Snapshot, pa: Backing, b: Snapshot, pb: Backing, n: nat)
    requires Taken(a, pa, b, pb, n)
    requires forall f :: f in pa || f in a.owner ==> f in a.used
    ensures |b.used| == |a.used| + n + |NewTables(a, b)|
  {
    var tables, frames := NewTables(a, b), NewFrames(b, pa, pb);
    DisjointSizes(a.used, tables, frames);
    forall f ensures f in b.used <==> f in a.used + tables + frames {
    }
    assert b.used == a.used + tables + frames;
  }

  /**
   From `a` to `b` the pages of `x` were laid over the lower half of `r`, and no other page of
   any address space changed translation or content.  The frames taken are new tables and one
   frame for each of `n` mapped pages.
   */
  ghost predicate Filled(a: Snapshot, pa: Backing, b: Snapshot, pb: Backing, kr: nat, r: nat, x: Layout, n: nat) {
    match b
    case Snapshot(mem, owner, used, free) =>
      && Overlaid(a, b, kr, r, x)
      && OnlyPages(a, b, r, x)
      && KeepsPlaces(a, b)
      && Taken(a, pa, b, pb, n)
  }

  lemma NextPageFilled(a: Snapshot, pa: Backing, b: Snapshot, pb: Backing, c: Snapshot, f: nat, page: (nat, nat),
                       kr: nat, r: nat, base: nat, data: seq<byte>, i: nat)
    requires Good(b, kr) && Isolated(b, kr, pb) && f !in pb
    requires Filled(a, pa, b, pb, kr, r, Layout(base, 0, i, data), i)
    requires Filled(b, pb, c, pb[f := page], kr, r, Layout(base, i, i + 1, data), 1)
    ensures Filled(a, pa, c, pb[f := page], kr, r, Layout(base, 0, i + 1, data), i + 1)
  {
    TakenOneMore(a, pa, b, pb, c, i, f, page);
    PagesOneMore(a, b, c, kr, r, base, data, i);
  }

  lemma PagesOneMore(a: Snapshot, b: Snapshot, c: Snapshot, kr: nat, r: nat, base: nat, data: seq<byte>, i: nat)
    requires KeepsPlaces(a, b)
    requires Overlaid(a, b, kr, r, Layout(base, 0, i, data)) && Overlaid(b, c, kr, r, Layout(base, i, i + 1, data))
    requires OnlyPages(a, b, r, Layout(base, 0, i, data)) && OnlyPages(b, c, r, Layout(base, i, i + 1, data))
    ensures Overlaid(a, c, kr, r, Layout(base, 0, i + 1, data))
    ensures OnlyPages(a, c, r, Layout(base, 0, i + 1, data))
  {
    var x, y, z := Layout(base, 0, i, data), Layout(base, i, i + 1, data), Layout(base, 0, i + 1, data);
    OverlaidTwice(a, b, c, kr, r, x, y, z);
    OnlyPagesTwice(a, b, c, r, x, y, z);
  }

  /** `z` is `x` and `y` together, with the same data. */
  ghost predicate Joined(x: Layout, y: Layout, z: Layout) {
    && x.base == y.base == z.base && x.data == y.data == z.data
    && forall vq: nat :: z.Covers(vq) <==> x.Covers(vq) || y.Covers(vq)
  }

  lemma OverlaidTwice(a: Snapshot, b: Snapshot, c: Snapshot, kr: nat, r: nat, x: Layout, y: Layout, z: Layout)
    requires KeepsPlaces(a, b) && Joined(x, y, z)
    requires Overlaid(a, b, kr, r, x) && Overlaid(b, c, kr, r, y)
    ensures Overlaid(a, c, kr, r, z)
  {
    hide PageAt, Translate;
    forall s, vq | UserRoot(a, kr, s) && 0 <= vq < USER_PAGES
      ensures PageAt(c.mem, s, vq) == if s == r && z.Covers(vq) then Some(z.At(vq)) else PageAt(a.mem, s, vq)
    {
      assert UserRoot(b, kr, s);
    }
  }

  lemma OnlyPagesTwice(a: Snapshot, b: Snapshot, c: Snapshot, r: nat, x: Layout, y: Layout, z: Layout)
    requires KeepsPlaces(a, b) && Joined(x, y, z)
    requires OnlyPages(a, b, r, x) && OnlyPages(b, c, r, y)
    ensures OnlyPages(a, c, r, z)
  {
    hide Translate;
    forall s, vq | IsRoot(a.owner, s) && 0 <= vq < PAGES && (s != r || !z.Covers(vq))
      ensures Translate(c.mem, s, vq) == Translate(a.mem, s, vq)
    {
      assert IsRoot(b.owner, s);
      assert s != r || (!x.Covers(vq) && !y.Covers(vq));
    }
  }

  /** A filled frame, then mapped: one page is laid over the address space. */
  lemma OnePageFilled(a: Snapshot, b: Snapshot, c: Snapshot,
                      kr: nat, pages: Backing, r: nat, vp: nat, f: nat, x: Layout)
    requires Good(a, kr) && Isolated(a, kr, pages) && UserRoot(a, kr, r) && vp < USER_PAGES
    requires NewFrame(a, b, f)
    requires Good(c, kr) && Mapped(b, c, r, vp, f, true)
    requires x.last == x.first + 1 && vp == x.base + x.first && FrameOf(b.mem, f) == PageSlice(x.data, x.first)
    ensures f !in pages
    ensures Isolated(c, kr, pages[f := (r, vp)])
    ensures Filled(a, pages, c, pages[f := (r, vp)], kr, r, x, 1)
  {
    hide PageAt, Translate, Path;
    FreshFrameIsInvisible(a, b, kr, pages, f);
    MappedKeepsIsolation(b, c, kr, pages, r, vp, f);
    MappedUpdatesPages(b, c, kr, pages, r, vp, f, x);
    OneFrameTaken(a, b, c, pages, r, vp, f);
    FillThenMap(a, b, c, kr, r, x);
  }

  lemma OneFrameTaken(a: Snapshot, b: Snapshot, c: Snapshot, pages: Backing, r: nat, vp: nat, f: nat)
    requires NewFrame(a, b, f) && Extends(b, c)
    requires forall g :: g in pages ==> g in a.used
    requires forall t :: t in c.owner ==> t in c.used
    requires f !in c.owner && forall t :: t in a.owner ==> t in a.used
    ensures Taken(a, pages, c, pages[f := (r, vp)], 1) && KeepsPlaces(a, c)
  {
    assert NewFrames(c, pages, pages[f := (r, vp)]) == {f};
  }

  /** Filling a free frame is invisible, so the whole step does what the mapping does. */
  lemma FillThenMap(a: Snapshot, b: Snapshot, c: Snapshot, kr: nat, r: nat, x: Layout)
    requires b.owner == a.owner && Overlaid(b, c, kr, r, x) && OnlyPages(b, c, r, x)
    requires forall s, vq :: IsRoot(a.owner, s) ==> Translate(b.mem, s, vq) == Translate(a.mem, s, vq)
    requires forall s, vq :: UserRoot(a, kr, s) && 0 <= vq < USER_PAGES ==> PageAt(b.mem, s, vq) == PageAt(a.mem, s, vq)
    ensures Overlaid(a, c, kr, r, x) && OnlyPages(a, c, r, x)
  {
    hide PageAt, Translate;
  }

  // ---- Counting frames ----

  lemma PageOfOffset(virtBase: u64, i: nat)
    requires virtBase / 4096 + i < USER_PAGES
    ensures virtBase + 4096 * i < 0x1_0000_0000_0000_0000
    ensures PageOf(virtBase + 4096 * i) == virtBase / 4096 + i
  {
    assert (virtBase + 4096 * i) / 4096 == virtBase / 4096 + i;
  }

  /** How many last-level tables the pages `[base, base + n)` spread over. */
  function Groups(base: nat, n: nat): (g: nat)
    ensures n <= 257 ==> g <= 2
  {
    if n == 0 then 0 else (base + n - 1) / 512 - base / 512 + 1
  }

  /** The next page of a contiguous run either needs no table or opens a new group. */
  lemma NextPageTables(m: seq<byte>, r: nat, base: nat, i: nat, last: nat, vp: nat)
    requires vp == base + i
    requires i > 0 ==> last + 1 == vp && Path(m, 4, r, last).Leaf?
    ensures Missing(m, 4, r, vp) <= 3 * (Groups(base, i + 1) - Groups(base, i))
    ensures Groups(base, i) <= Groups(base, i + 1)
  {
    if i > 0 && last / 512 == vp / 512 {
      NeighbourWalk(m, 4, r, last, vp);
    }
  }

  /** A turn that stops with `free` frames left had fewer than its budget to start from. */
  lemma BudgetLeft(start: nat, free: nat, base: nat, i: nat)
    requires free >= start - i - 3 * Groups(base, i)
    ensures i <= MAX_IMAGE_PAGES ==> free + i + 6 >= start
  {
  }

  lemma BudgetSpent(start: nat, free: nat, missing: nat, i: nat, g: nat, g2: nat)
    requires free >= start - i - 3 * g && missing <= 3 * (g2 - g) && free <= missing
    ensures start < i + 1 + 3 * g2
  {
  }

  /** A turn below `n` pages cannot run out when there were `n + 6` frames to start from. */
  lemma BudgetEnough(start: nat, base: nat, i: nat, n: nat)
    requires start < i + 1 + 3 * Groups(base, i + 1) && i < n <= MAX_IMAGE_PAGES
    ensures start < n + 6
  {
  }

  /** The first `n` pages of `data` were laid over `r` from page `base`; frames went to them and to new tables only. */
  ghost predicate MappedImage(a: Snapshot, pa: Backing, b: Snapshot, pb: Backing,
                              kr: nat, r: nat, base: nat, data: seq<byte>, n: nat) {
    && Filled(a, pa, b, pb, kr, r, Layout(base, 0, n, data), n)
    && a.free - b.free == n + |NewTables(a, b)|
  }

  lemma NothingMapped(a: Snapshot, pa: Backing, kr: nat, r: nat, base: nat, data: seq<byte>)
    requires Good(a, kr) && Isolated(a, kr, pa)
    ensures MappedImage(a, pa, a, pa, kr, r, base, data, 0)
  {
    assert NewTables(a, a) == {};
    assert NewFrames(a, pa, pa) == {};
  }

  lemma ImageMapped(a: Snapshot, pa: Backing, b: Snapshot, pb: Backing,
                    kr: nat, r: nat, base: nat, data: seq<byte>, n: nat, total: nat)
    requires Good(a, kr) && Isolated(a, kr, pa)
    requires Filled(a, pa, b, pb, kr, r, Layout(base, 0, n, data), n)
    requires a.free == total - |a.used| && b.free == total - |b.used|
    ensures MappedImage(a, pa, b, pb, kr, r, base, data, n)
  {
    CountTaken(a, pa, b, pb, n);
  }

  // ---- A new address space ----

  /** `f` became the root of an address space with an empty lower half and the upper half of `cur`. */
  ghost predicate NewSpace(a: Snapshot, b: Snapshot, kr: nat, cur: nat, f: nat) {
    && f !in a.used
    && b.owner == a.owner[f := Root] && b.used == a.used + {f} && b.free == a.free - 1
    && (forall vp :: 0 <= vp < USER_PAGES ==> Translate(b.mem, f, vp) == None)
    && (forall vp :: USER_PAGES <= vp < PAGES ==> Translate(b.mem, f, vp) == Translate(a.mem, cur, vp))
    && (forall s, vq :: IsRoot(a.owner, s) && 0 <= vq < PAGES ==> Translate(b.mem, s, vq) == Translate(a.mem, s, vq))
    && (forall s, vq :: UserRoot(a, kr, s) && 0 <= vq < USER_PAGES ==> PageAt(b.mem, s, vq) == PageAt(a.mem, s, vq))
  }

  /** `b` is `a` with the frame `f` filled as `create_address_space` fills it. */
  ghost predicate RootFilled(a: Snapshot, b: Snapshot, cur: nat, f: nat) {
    && f !in a.used && InMem(a.mem, f) && InMem(a.mem, cur)
    && SameExcept(a.mem, b.mem, {f})
    && b.owner == a.owner[f := Root] && b.used == a.used + {f} && b.free == a.free - 1
    && (forall j :: 0 <= j < 256 ==> !Entry(b.mem, f, j).present)
    && (forall j :: 256 <= j < 512 ==> Entry(b.mem, f, j) == Entry(a.mem, cur, j))
  }

  lemma NewRootKeepsShape(a: Snapshot, b: Snapshot, kr: nat, cur: nat, f: nat)
    requires Good(a, kr) && IsRoot(a.owner, cur) && RootFilled(a, b, cur, f)
    ensures Good(b, kr)
  {
    forall t, j | t in b.owner && b.owner[t].Level() >= 2 && 0 <= j < 512 && Links(b.mem, b.owner[t].Level(), t, j)
      ensures var child := Entry(b.mem, t, j).target;
        child in b.owner && b.owner[child] == Table(b.owner[t].Level() - 1, ParentOf(b.owner, kr, t, j), j)
    {
      if t == f {
        assert Links(a.mem, 4, cur, j);
      } else {
        assert FrameOf(b.mem, t) == FrameOf(a.mem, t);
        assert Links(a.mem, a.owner[t].Level(), t, j);
      }
    }
  }

  /** The walks of the new root: none below 2^47, those of `cur` above. */
  lemma NewRootWalks(a: Snapshot, b: Snapshot, kr: nat, cur: nat, f: nat, vp: nat)
    requires Good(a, kr) && IsRoot(a.owner, cur) && RootFilled(a, b, cur, f) && vp < PAGES
    ensures vp < USER_PAGES ==> Translate(b.mem, f, vp) == None && Plain(b.mem, 4, f, vp)
    ensures vp >= USER_PAGES ==> Translate(b.mem, f, vp) == Translate(a.mem, cur, vp)
  {
    UserHalf(vp);
    if vp >= USER_PAGES {
      assert SameTables(a.mem, b.mem, a.owner);
      TranslationReadsTables(a.mem, b.mem, a.owner, kr, cur, vp);
      assert FrameOf(b.mem, cur) == FrameOf(a.mem, cur);
      assert Path(b.mem, 4, f, vp) == Path(b.mem, 4, cur, vp);
    }
  }

  lemma NewRootKeepsIsolation(a: Snapshot, b: Snapshot, kr: nat, pages: Backing, cur: nat, f: nat)
    requires Good(a, kr) && Isolated(a, kr, pages) && IsRoot(a.owner, cur) && RootFilled(a, b, cur, f)
    ensures Good(b, kr) && Isolated(b, kr, pages)
    ensures NewSpace(a, b, kr, cur, f)
  {
    var c := b.(owner := a.owner);
    FreshFrameIsInvisible(a, c, kr, pages, f);
    NewRootKeepsShape(a, b, kr, cur, f);
    forall vp | 0 <= vp < PAGES
      ensures vp < USER_PAGES ==> Translate(b.mem, f, vp) == None && Plain(b.mem, 4, f, vp)
      ensures vp >= USER_PAGES ==> Translate(b.mem, f, vp) == Translate(a.mem, cur, vp)
    {
      NewRootWalks(a, b, kr, cur, f, vp);
    }
    forall r, vp | UserRoot(b, kr, r) && 0 <= vp < USER_PAGES
      ensures Backed(b, pages, r, vp) && Plain(b.mem, 4, r, vp)
    {
      assert r != f ==> UserRoot(c, kr, r) && Backed(c, pages, r, vp);
    }
    forall r, i | IsRoot(b.owner, r) && 256 <= i < 512 ensures SharedTop(b, kr, r, i) {
      assert SharedTop(a, kr, cur, i);
      assert FrameOf(b.mem, kr) == FrameOf(a.mem, kr);
      assert r != f ==> SharedTop(c, kr, r, i);
    }
  }

  // ---- The address spaces of a machine ----

  class UserSpaces {
    const k: Machine
    ghost var pages: Backing // the frames behind mapped user pages

    /** At boot there are no user address spaces. */
    constructor (k: Machine)
      requires k.Valid()
      requires forall r :: IsRoot(k.owner, r) ==> r == k.kernelRoot
      ensures Valid() && this.k == k && pages == map[]
    {
      this.k, pages := k, map[];
    }

    ghost predicate Valid()
      reads this, k, k.phys, k.phys.bitmap, k.mem
    {
      k.Valid() && Isolated(k.Snap(), k.kernelRoot, pages)
    }

    ghost predicate IsSpace(r: nat)
      reads this, k, k.phys
    {
      UserRoot(k.Snap(), k.kernelRoot, r)
    }

    /** A fresh frame holding page `i` of `data`. */
    method LoadFrame(f: nat, data: seq<byte>, i: nat)
      requires k.Ready() && InMem(k.m, f)
      modifies k`m, k.mem
      ensures k.Ready() && k.Snap() == old(k.Snap()).(mem := k.m)
      ensures SameExcept(old(k.m), k.m, {f})
      ensures FrameOf(k.m, f) == PageSlice(data, i)
    {
      ZeroFrame(k.mem, f);
      var start, end := 4096 * i, Min(4096 * i + 4096, |data|);
      if start < |data| {
        CopyInto(k.mem, f, data[start..end]);
      }
      k.m := k.mem[..];
      assert FrameOf(k.m, f) == PageSlice(data, i);
    }

    ghost method Record(f: nat, root: nat, vp: nat)
      requires k.Ready()
      modifies this`pages
      ensures pages == old(pages)[f := (root, vp)]
      ensures k.Ready() && k.Snap() == old(k.Snap())
    {
      pages := pages[f := (root, vp)];
    }

    /** Allocates a frame and fills it; no address space notices. */
    method NewDataFrame(data: seq<byte>, i: nat) returns (frame: Option<nat>)
      requires Valid()
      modifies k`m, k.mem, k.phys`freeFrames, k.phys`used, k.phys.bitmap
      ensures Valid()
      ensures frame.None? ==> old(k.phys.freeFrames) == 0 && k.Snap() == old(k.Snap())
      ensures frame.Some? ==>
        && old(k.phys.freeFrames) > 0 && frame.value < TARGETS
        && NewFrame(old(k.Snap()), k.Snap(), frame.value)
        && FrameOf(k.m, frame.value) == PageSlice(data, i)
    {
      ghost var a := k.Snap();
      frame := k.AllocFrame();
      if frame.Some? {
        LoadFrame(frame.value, data, i);
        FreshFrameIsInvisible(a, k.Snap(), k.kernelRoot, pages, frame.value);
      }
    }

    /** One turn of the loop of `map_user_pages`, for page `vp == base + i`. */
    method MapDataPage(root: nat, virt: u64, data: seq<byte>, i: nat, ghost base: nat, ghost vp: nat)
      returns (out: MapOutcome, ghost f: nat)
      requires Valid() && IsSpace(root)
      requires vp == PageOf(virt) < USER_PAGES && vp == base + i
      modifies this`pages, k`m, k`owner, k.mem, k.phys`freeFrames, k.phys`used, k.phys.bitmap
      ensures out == Refused <==> old(k.phys.freeFrames) == 0
      ensures out == Panic <==> 0 < old(k.phys.freeFrames) <= Missing(old(k.m), 4, root, vp)
      ensures out != Panic ==> Valid()
      ensures out == Refused ==> k.Snap() == old(k.Snap()) && pages == old(pages)
      ensures out == Success ==>
        && f !in old(pages) && pages == old(pages)[f := (root, vp)]
        && Filled(old(k.Snap()), old(pages), k.Snap(), old(pages)[f := (root, vp)],
                  k.kernelRoot, root, Layout(base, i, i + 1, data), 1)
        && k.phys.freeFrames == old(k.phys.freeFrames) - 1 - Missing(old(k.m), 4, root, vp)
        && Path(k.m, 4, root, vp).Leaf?
    {
      ghost var a := k.Snap();
      f := 0;
      var frame := NewDataFrame(data, i);
      if frame.None? {
        return Refused, f;
      }
      f := frame.value;
      ghost var b := k.Snap();
      FrameAddress(f);
      assert Missing(b.mem, 4, root, vp) == Missing(a.mem, 4, root, vp) && !Path(b.mem, 4, root, vp).Large? by {
        FreshFrameIsInvisible(a, b, k.kernelRoot, pages, f);
        PlainWalk(b.mem, 4, root, vp);
      }
      var mapped := k.MapPage(root, virt, frame.value * 4096, true);
      if mapped.Panicked? {
        return Panic, f;
      }
      OnePageFilled(a, b, k.Snap(), k.kernelRoot, pages, root, vp, f, Layout(base, i, i + 1, data));
      Record(f, root, vp);
      return Success, f;
    }

    /** `i` pages of `data` were mapped since `a`, using at most three tables for each group of pages. */
    ghost predicate Progress(a: Snapshot, pa: Backing, root: nat, x: Layout, last: nat)
      reads this, k, k.phys, k.phys.bitmap, k.mem
    {
      match x
      case Layout(base, first, i, data) =>
        && Valid() && IsSpace(root)
        && Filled(a, pa, k.Snap(), pages, k.kernelRoot, root, x, i)
        && (i > 0 ==> last + 1 == base + i && Path(k.m, 4, root, last).Leaf?)
        && k.phys.freeFrames >= a.free - i - 3 * Groups(base, i)
    }

    method MapNextPage(ghost a: Snapshot, ghost pa: Backing, root: nat, virt: u64, data: seq<byte>, i: nat,
                       ghost base: nat, ghost last: nat, ghost vp: nat)
      returns (out: MapOutcome)
      requires vp == base + i && vp == PageOf(virt) && vp < USER_PAGES
      requires Progress(a, pa, root, Layout(base, 0, i, data), last)
      modifies this`pages, k`m, k`owner, k.mem, k.phys`freeFrames, k.phys`used, k.phys.bitmap
      ensures out == Success ==> Progress(a, pa, root, Layout(base, 0, i + 1, data), vp)
      ensures out == Refused ==> Progress(a, pa, root, Layout(base, 0, i, data), last)
      ensures out != Success ==> a.free < i + 1 + 3 * Groups(base, i + 1)
    {
      NextPageTables(k.m, root, base, i, last, vp);
      ghost var b, pb, missing := k.Snap(), pages, Missing(k.m, 4, root, vp);
      ghost var f;
      out, f := MapDataPage(root, virt, data, i, base, vp);
      if out == Success {
        NextPageFilled(a, pa, b, pb, k.Snap(), f, (root, vp), k.kernelRoot, root, base, data, i);
      } else {
        BudgetSpent(a.free, b.free, missing, i, Groups(base, i), Groups(base, i + 1));
      }
    }

    /** The loop of `map_user_pages` over `n` pages. */
    method MapPages(root: nat, virtBase: u64, data: seq<byte>, n: nat, ghost base: nat)
      returns (out: MapOutcome, ghost done: nat)
      requires Valid() && IsSpace(root)
      requires base == virtBase / 4096 && base + n <= USER_PAGES
      modifies this`pages, k`m, k`owner, k.mem, k.phys`freeFrames, k.phys`used, k.phys.bitmap
      ensures out != Panic ==>
        && done <= n && Valid() && IsSpace(root)
        && Filled(old(k.Snap()), old(pages), k.Snap(), pages, k.kernelRoot, root, Layout(base, 0, done, data), done)
      ensures out == Success ==> done == n
      ensures out == Success ==> k.phys.freeFrames >= old(k.phys.freeFrames) - n - 3 * Groups(base, n)
      ensures n <= MAX_IMAGE_PAGES && old(k.phys.freeFrames) >= n + 6 ==> out == Success
    {
      hide UserSpaces.Progress, Filled, Overlaid, OnlyPages, Taken, KeepsPlaces, Isolated, Good, Groups, PageOf;
      ghost var a, pa := k.Snap(), pages;
      ghost var last: nat := base;
      NoProgress(root, base, data);
      done := 0;
      var i := 0;
      while i != n
        invariant i <= n && done == i
        invariant Progress(a, pa, root, Layout(base, 0, i, data), last)
      {
        PageOfOffset(virtBase, i);
        ghost var vp := base + i;
        out := MapNextPage(a, pa, root, virtBase + 4096 * i, data, i, base, last, vp);
        if out != Success {
          if out == Refused {
            ProgressSoFar(a, pa, root, base, i, data, last);
          }
          if n <= MAX_IMAGE_PAGES {
            BudgetEnough(a.free, base, i, n);
          }
          return;
        }
        last := vp;
        done := done + 1;
        i := i + 1;
      }
      ProgressSoFar(a, pa, root, base, i, data, last);
      return Success, done;
    }

    lemma NoProgress(root: nat, base: nat, data: seq<byte>)
      requires Valid() && IsSpace(root)
      ensures Progress(k.Snap(), pages, root, Layout(base, 0, 0, data), base)
    {
      NothingMapped(k.Snap(), pages, k.kernelRoot, root, base, data);
    }

    lemma ProgressSoFar(a: Snapshot, pa: Backing, root: nat, base: nat, i: nat, data: seq<byte>, last: nat)
      requires Progress(a, pa, root, Layout(base, 0, i, data), last)
      ensures Valid() && IsSpace(root)
      ensures Filled(a, pa, k.Snap(), pages, k.kernelRoot, root, Layout(base, 0, i, data), i)
      ensures k.phys.freeFrames >= a.free - i - 3 * Groups(base, i)
    {
    }

    /**
     Maps `totalSize` bytes at `virtBase`, holding `data` padded with zeros.  More than 256 pages
     are refused.  Only pages of `root` in that range change, also when memory runs out half way;
     on success each page has a frame of its own, and the only other frames taken are new tables.
     `n + 6` free frames are always enough.
     */
    method MapUserPages(root: nat, virtBase: u64, data: seq<byte>, totalSize: nat)
      returns (out: MapOutcome, ghost done: nat)
      requires Valid() && IsSpace(root)
      requires PageCount(totalSize) <= MAX_IMAGE_PAGES ==> virtBase / 4096 + PageCount(totalSize) <= USER_PAGES
      modifies this`pages, k`m, k`owner, k.mem, k.phys`freeFrames, k.phys`used, k.phys.bitmap
      ensures PageCount(totalSize) > MAX_IMAGE_PAGES ==> out == Refused && done == 0
      ensures out == Success ==>
        done == PageCount(totalSize) && k.phys.freeFrames + done + 6 >= old(k.phys.freeFrames)
      ensures out != Panic ==>
        && done <= PageCount(totalSize) && Valid() && IsSpace(root)
        && MappedImage(old(k.Snap()), old(pages), k.Snap(), pages, k.kernelRoot, root, virtBase / 4096, data, done)
      ensures PageCount(totalSize) <= MAX_IMAGE_PAGES && old(k.phys.freeFrames) >= PageCount(totalSize) + 6 ==>
        out == Success
    {
      var n := PageCount(totalSize);
      if n > MAX_IMAGE_PAGES {
        NothingMapped(k.Snap(), pages, k.kernelRoot, root, virtBase / 4096, data);
        return Refused, 0;
      }
      ghost var a, pa := k.Snap(), pages;
      out, done := MapPages(root, virtBase, data, n, virtBase / 4096);
      if out != Panic {
        if out == Success {
          BudgetLeft(a.free, k.phys.freeFrames, virtBase / 4096, n);
        }
        ImageMapped(a, pa, k.Snap(), pages, k.kernelRoot, root, virtBase / 4096, data, done, k.phys.totalFrames);
      }
    }

    /** Sixteen zero pages below the top of the user half; the result is their upper end. */
    method AllocUserStack(root: nat) returns (out: MapOutcome, top: u64, ghost done: nat)
      requires Valid() && IsSpace(root)
      modifies this`pages, k`m, k`owner, k.mem, k.phys`freeFrames, k.phys`used, k.phys.bitmap
      ensures top == USER_STACK_TOP
      ensures out == Success ==> done == 16
      ensures out != Panic ==>
        && done <= 16 && Valid() && IsSpace(root)
        && MappedImage(old(k.Snap()), old(pages), k.Snap(), pages, k.kernelRoot, root, STACK_PAGE, [], done)
      ensures old(k.phys.freeFrames) >= 22 ==> out == Success
    {
      hide MappedImage, UserSpaces.Valid, UserSpaces.IsSpace;
      top := USER_STACK_TOP;
      out, done := MapUserPages(root, USER_STACK_TOP - USER_STACK_SIZE, [], USER_STACK_SIZE);
    }

    /**
     A new address space with an empty lower half and the upper half of the one in use.
     `None` exactly when memory is exhausted.
     */
    method CreateAddressSpace(current: nat) returns (root: Option<nat>)
      requires Valid() && IsRoot(k.owner, current)
      modifies k`m, k`owner, k.mem, k.phys`freeFrames, k.phys`used, k.phys.bitmap
      ensures Valid()
      ensures root.None? <==> old(k.phys.freeFrames) == 0
      ensures root.None? ==> k.Snap() == old(k.Snap())
      ensures root.Some? ==>
        && IsSpace(root.value)
        && NewSpace(old(k.Snap()), k.Snap(), k.kernelRoot, current, root.value)
    {
      ghost var a := k.Snap();
      var frame := k.AllocFrame();
      if frame.None? {
        return None;
      }
      var f := frame.value;
      ZeroFrame(k.mem, f);
      k.m := k.mem[..];
      CopyUpperHalf(a, current, f);
      k.owner := k.owner[f := Root];
      NewRootKeepsIsolation(a, k.Snap(), k.kernelRoot, pages, current, f);
      return Some(f);
    }

    /** Entries 256 to 511 of the current PML4, copied to the zeroed frame `f`. */
    method CopyUpperHalf(ghost a: Snapshot, current: nat, f: nat)
      requires k.Ready() && InMem(k.m, f) && InMem(k.m, current) && current != f
      requires SameExcept(a.mem, k.m, {f}) && FrameOf(k.m, f) == ZERO_PAGE
      modifies k`m, k.mem
      ensures k.Ready() && k.Snap() == old(k.Snap()).(mem := k.m)
      ensures SameExcept(a.mem, k.m, {f})
      ensures forall j :: 0 <= j < 256 ==> !Entry(k.m, f, j).present
      ensures forall j :: 256 <= j < 512 ==> Entry(k.m, f, j) == Entry(a.mem, current, j)
    {
      forall j | 0 <= j < 512 ensures !Entry(k.m, f, j).present {
        LEzero(FrameOf(k.m, f), 8 * j, 8);
      }
      assert FrameOf(k.m, current) == FrameOf(a.mem, current);
      for i := 256 to 512
        invariant k.Ready() && k.Snap() == old(k.Snap()).(mem := k.m)
        invariant SameExcept(a.mem, k.m, {f})
        invariant FrameOf(k.m, current) == FrameOf(a.mem, current)
        invariant forall j :: 0 <= j < 256 ==> !Entry(k.m, f, j).present
        invariant forall j :: 256 <= j < i ==> Entry(k.m, f, j) == Entry(a.mem, current, j)
      {
        assert Pow256(8) == 0x1_0000_0000_0000_0000;
        var w := LE(FrameOf(k.mem[..], current), 8 * i, 8);
        k.WriteEntry(f, i, w);
      }
    }
  }
}
