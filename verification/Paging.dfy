/**
 `map_page` and `unmap_page` over physical memory and the frame allocator.
 Tables are reached by physical address, as the identity-mapped kernel does.
 */
module Paging {
  import opened Common
  import opened Bytes
  import opened Phys
  import opened PageTables

  // ---- Indices taken from a virtual address ----

  function Pml4Index(virt: u64): nat { virt / 0x80_0000_0000 % 512 }
  function PdptIndex(virt: u64): nat { virt / 0x4000_0000 % 512 }
  function PdIndex(virt: u64): nat { virt / 0x20_0000 % 512 }
  function PtIndex(virt: u64): nat { virt / 0x1000 % 512 }

  /** The virtual page an address belongs to; the sign-extension bits are ignored. */
  function PageOf(virt: u64): nat { virt / 4096 % 0x10_0000_0000 }

  lemma IndicesOfPage(virt: u64)
    ensures Pml4Index(virt) == Index(4, PageOf(virt))
    ensures PdptIndex(virt) == Index(3, PageOf(virt))
    ensures PdIndex(virt) == Index(2, PageOf(virt))
    ensures PtIndex(virt) == Index(1, PageOf(virt))
  {
    IndexOfPage1(virt);
    IndexOfPage2(virt);
    IndexOfPage3(virt);
    IndexOfPage4(virt);
  }

  lemma IndexOfPage1(virt: u64)
    ensures PtIndex(virt) == Index(1, PageOf(virt))
  {
  }

  lemma IndexOfPage2(virt: u64)
    ensures PdIndex(virt) == Index(2, PageOf(virt))
  {
    var a := virt / 4096;
    assert virt / 0x20_0000 == a / 0x200;
    assert a == a / 0x10_0000_0000 * 0x10_0000_0000 + PageOf(virt);
    TakeOut(a / 0x10_0000_0000, PageOf(virt));
    Aligned(a / 0x10_0000_0000 * 0x4_0000, PageOf(virt) / 0x200);
  }

  lemma IndexOfPage3(virt: u64)
    ensures PdptIndex(virt) == Index(3, PageOf(virt))
  {
    var a := virt / 4096;
    assert virt / 0x4000_0000 == a / 0x4_0000;
    assert a == a / 0x10_0000_0000 * 0x10_0000_0000 + PageOf(virt);
    TakeOut(a / 0x10_0000_0000, PageOf(virt));
    Aligned(a / 0x10_0000_0000 * 0x200, PageOf(virt) / 0x4_0000);
  }

  lemma IndexOfPage4(virt: u64)
    ensures Pml4Index(virt) == Index(4, PageOf(virt))
  {
    var a := virt / 4096;
    assert virt / 0x80_0000_0000 == a / 0x800_0000;
    assert a == a / 0x10_0000_0000 * 0x10_0000_0000 + PageOf(virt);
    TakeOut(a / 0x10_0000_0000, PageOf(virt));
    Aligned(a / 0x10_0000_0000, PageOf(virt) / 0x800_0000);
  }

  lemma TakeOut(q: nat, v: nat)
    ensures (q * 0x10_0000_0000 + v) / 0x200 == q * 0x800_0000 + v / 0x200
    ensures (q * 0x10_0000_0000 + v) / 0x4_0000 == q * 0x4_0000 + v / 0x4_0000
    ensures (q * 0x10_0000_0000 + v) / 0x800_0000 == q * 0x200 + v / 0x800_0000
  {
  }

  lemma Aligned(k: nat, y: nat)
    ensures (k * 512 + y) % 512 == y % 512
  {
  }

  // ---- What building tables may change ----

  /** Everything the paging code can change. */
  datatype Snapshot = Snapshot(mem: seq<byte>, owner: Owners, used: set<nat>, free: nat)

  ghost predicate IsRoot(owner: Owners, r: nat) {
    r in owner && owner[r].Root?
  }

  ghost predicate Good(a: Snapshot, kr: nat) {
    Shaped(a.mem, a.owner, kr) && forall t :: t in a.owner ==> t in a.used
  }

  /** The forest only grew, by frames that were free: old tables keep their place and only tables were written. */
  ghost predicate Extends(a: Snapshot, b: Snapshot) {
    && |a.mem| == |b.mem|
    && (forall t :: t in a.owner ==> t in b.owner && b.owner[t] == a.owner[t])
    && (forall t :: t in b.owner && t !in a.owner ==> t !in a.used && !b.owner[t].Root?)
    && (forall f: nat :: f !in b.owner && InMem(a.mem, f) ==> FrameOf(b.mem, f) == FrameOf(a.mem, f))
    && (forall f :: f in b.used <==> f in a.used || f in b.owner)
  }

  ghost predicate SameTranslations(a: Snapshot, b: Snapshot) {
    forall s, vq :: IsRoot(a.owner, s) && 0 <= vq < PAGES ==> Translate(b.mem, s, vq) == Translate(a.mem, s, vq)
  }

  /** No translation changed except that of page `vp` of `r` (and, above 2^47, of that page of other roots). */
  ghost predicate OnlyPage(a: Snapshot, b: Snapshot, r: nat, vp: nat) {
    forall s, vq :: IsRoot(a.owner, s) && 0 <= vq < PAGES && (vq != vp || (s != r && vp < USER_PAGES)) ==>
      Translate(b.mem, s, vq) == Translate(a.mem, s, vq)
  }

  /** Walks that were user-writable above the last level still are. */
  ghost predicate KeepsPlain(a: Snapshot, b: Snapshot) {
    forall s, vq :: IsRoot(a.owner, s) && 0 <= vq < PAGES && Plain(a.mem, 4, s, vq) ==> Plain(b.mem, 4, s, vq)
  }

  /** No entry of an old table changed, except possibly entry `i` of `t`. */
  ghost predicate OnlyEntry(a: Snapshot, b: Snapshot, t: nat, i: nat) {
    forall s, j :: s in a.owner && InMem(a.mem, s) && InMem(b.mem, s) && 0 <= j < 512 && !(s == t && j == i) ==>
      Entry(b.mem, s, j) == Entry(a.mem, s, j)
  }

  /** No top-level entry changed, except possibly entry `i` of root `r`. */
  ghost predicate OnlyTop(a: Snapshot, b: Snapshot, r: nat, i: nat) {
    forall s, j :: IsRoot(a.owner, s) && InMem(a.mem, s) && InMem(b.mem, s) && 0 <= j < 512 && !(s == r && j == i) ==>
      Entry(b.mem, s, j) == Entry(a.mem, s, j)
  }

  /** A fresh frame `f` became the table behind entry `i` of `t`. */
  ghost predicate NewTable(a: Snapshot, b: Snapshot, kr: nat, t: nat, i: nat, f: nat, user: bool) {
    && f !in a.used
    && b.used == a.used + {f} && b.free == a.free - 1
    && Linked(a.mem, b.mem, t, i, f)
    && Entry(b.mem, t, i) == Pte(true, true, user, false, f)
    && t in a.owner && a.owner[t].Level() >= 2
    && b.owner == Grown(a.owner, kr, t, i, f)
  }

  lemma NewTableKeepsShape(a: Snapshot, b: Snapshot, kr: nat, t: nat, i: nat, f: nat, user: bool)
    requires Good(a, kr) && NewTable(a, b, kr, t, i, f, user)
    ensures Good(b, kr)
  {
    LinkKeepsShape(a.mem, b.mem, a.owner, kr, t, i, f);
  }

  lemma NewTableExtends(a: Snapshot, b: Snapshot, kr: nat, t: nat, i: nat, f: nat, user: bool)
    requires Good(a, kr) && NewTable(a, b, kr, t, i, f, user)
    ensures Extends(a, b) && OnlyEntry(a, b, t, i)
  {
    forall s, j | s in a.owner && InMem(a.mem, s) && 0 <= j < 512 && !(s == t && j == i)
      ensures Entry(b.mem, s, j) == Entry(a.mem, s, j)
    {
      assert s != t ==> FrameOf(b.mem, s) == FrameOf(a.mem, s);
    }
  }

  lemma NewTableIsInvisible(a: Snapshot, b: Snapshot, kr: nat, t: nat, i: nat, f: nat, user: bool)
    requires Good(a, kr) && NewTable(a, b, kr, t, i, f, user)
    ensures SameTranslations(a, b)
    ensures user ==> KeepsPlain(a, b)
  {
    forall s, vq | IsRoot(a.owner, s) && 0 <= vq < PAGES
      ensures Translate(b.mem, s, vq) == Translate(a.mem, s, vq)
    {
      LinkKeepsTranslations(a.mem, b.mem, a.owner, kr, t, i, f, s, vq);
    }
    forall s, vq | user && IsRoot(a.owner, s) && 0 <= vq < PAGES && Plain(a.mem, 4, s, vq)
      ensures Plain(b.mem, 4, s, vq)
    {
      LinkKeepsPlain(a.mem, b.mem, a.owner, kr, t, i, f, 4, s, vq);
    }
  }

  /** What one step down the walk of `vp` did at table `t`: followed a link, or made one. */
  ghost predicate Descended(a: Snapshot, b: Snapshot, kr: nat, t: nat, i: nat, next: nat, user: bool)
    requires InMem(a.mem, t) && i < 512
  {
    if Entry(a.mem, t, i).present then b == a && next == Entry(a.mem, t, i).target
    else NewTable(a, b, kr, t, i, next, user)
  }

  lemma DescendedEffect(a: Snapshot, b: Snapshot, kr: nat, t: nat, i: nat, next: nat, user: bool)
    requires Good(a, kr) && t in a.owner && i < 512 && Descended(a, b, kr, t, i, next, user)
    ensures Good(b, kr) && Extends(a, b) && OnlyEntry(a, b, t, i) && SameTranslations(a, b)
    ensures user ==> KeepsPlain(a, b)
  {
    if !Entry(a.mem, t, i).present {
      NewTableKeepsShape(a, b, kr, t, i, next, user);
      NewTableExtends(a, b, kr, t, i, next, user);
      NewTableIsInvisible(a, b, kr, t, i, next, user);
    }
  }

  /** After the step, the rest of the walk lacks the remaining tables and carries the remaining rights. */
  lemma DescendedWalk(a: Snapshot, b: Snapshot, kr: nat, level: nat, t: nat, vp: nat, next: nat, user: bool)
    requires Good(a, kr) && 2 <= level <= 4 && t in a.owner && a.owner[t].Level() == level
    requires !Path(a.mem, level, t, vp).Large?
    requires Descended(a, b, kr, t, Index(level, vp), next, user)
    ensures var e := Entry(a.mem, t, Index(level, vp));
      && (e.present ==> Links(a.mem, level, t, Index(level, vp)))
      && Missing(a.mem, level, t, vp) == Missing(b.mem, level - 1, next, vp) + (if e.present then 0 else 1)
      && b.free == a.free - (if e.present then 0 else 1)
    ensures next in b.owner && b.owner[next].Level() == level - 1
    ensures !Path(b.mem, level - 1, next, vp).Large?
    ensures InMem(b.mem, t) && Links(b.mem, level, t, Index(level, vp))
    ensures var e, r0 := Entry(b.mem, t, Index(level, vp)), LinkRights(a.mem, level, t, vp);
      var r := LinkRights(b.mem, level - 1, next, vp);
      && e.target == next
      && r0.writable == (e.writable && r.writable)
      && (user && r0.user) == (user && e.user && r.user)
  {
    var i := Index(level, vp);
    if Entry(a.mem, t, i).present {
      assert Links(a.mem, level, t, i);
    } else {
      EmptyTable(b.mem, level - 1, next, vp);
    }
  }

  /** The effect of growing the walk of page `vp` of root `r`. */
  ghost predicate Grew(a: Snapshot, b: Snapshot, r: nat, vp: nat, user: bool) {
    && Extends(a, b)
    && SameTranslations(a, b)
    && (user ==> KeepsPlain(a, b))
    && OnlyTop(a, b, r, Index(4, vp))
  }

  lemma GrewTransitive(a: Snapshot, b: Snapshot, c: Snapshot, r: nat, vp: nat, user: bool)
    requires Grew(a, b, r, vp, user) && Grew(b, c, r, vp, user)
    ensures Grew(a, c, r, vp, user)
  {
  }

  lemma DescendedGrew(a: Snapshot, b: Snapshot, kr: nat, r: nat, t: nat, level: nat, vp: nat, next: nat, user: bool)
    requires Good(a, kr) && 2 <= level <= 4 && t in a.owner && a.owner[t].Level() == level
    requires level == 4 ==> t == r
    requires level < 4 ==> !a.owner[t].Root?
    requires Descended(a, b, kr, t, Index(level, vp), next, user)
    ensures Grew(a, b, r, vp, user) && OnlyEntry(a, b, t, Index(level, vp))
  {
    DescendedEffect(a, b, kr, t, Index(level, vp), next, user);
  }

  /** Overwriting the last-level entry that serves page `vp` of root `r`. */
  lemma LeafWriteEffect(a: Snapshot, b: Snapshot, kr: nat, r: nat, vp: nat)
    requires Good(a, kr) && IsRoot(a.owner, r) && vp < PAGES
    requires Path(a.mem, 4, r, vp).Leaf?
    requires b == a.(mem := b.mem)
    requires EntryWritten(a.mem, b.mem, Path(a.mem, 4, r, vp).table, Index(1, vp), {})
    ensures Good(b, kr) && Extends(a, b) && KeepsPlain(a, b) && OnlyPage(a, b, r, vp)
    ensures OnlyTop(a, b, r, Index(4, vp))
    ensures Path(b.mem, 4, r, vp) == Path(a.mem, 4, r, vp)
    ensures var route := Path(a.mem, 4, r, vp);
      InMem(b.mem, route.table) &&
      var e := Entry(b.mem, route.table, Index(1, vp));
      Translate(b.mem, r, vp) ==
        if e.present then Some(Mapping(e.target, route.writable && e.writable, route.user && e.user)) else None
  {
    var x, i := Path(a.mem, 4, r, vp).table, Index(1, vp);
    LeafIsTable(a.mem, a.owner, kr, 4, r, vp);
    LeafWriteKeepsShape(a.mem, b.mem, a.owner, kr, x, i);
    forall s, vq | IsRoot(a.owner, s) && 0 <= vq < PAGES
      ensures Path(b.mem, 4, s, vq) == Path(a.mem, 4, s, vq)
      ensures Plain(b.mem, 4, s, vq) == Plain(a.mem, 4, s, vq)
    {
      LeafWriteKeepsPath(a.mem, b.mem, a.owner, kr, x, i, 4, s, vq);
    }
    forall s, vq | IsRoot(a.owner, s) && 0 <= vq < PAGES && (vq != vp || (s != r && vp < USER_PAGES))
      ensures Translate(b.mem, s, vq) == Translate(a.mem, s, vq)
    {
      LeafWriteIsLocal(a.mem, b.mem, a.owner, kr, r, vp, s, vq);
    }
    forall s, j | IsRoot(a.owner, s) && InMem(a.mem, s) && 0 <= j < 512
      ensures Entry(b.mem, s, j) == Entry(a.mem, s, j)
    {
      assert FrameOf(b.mem, s) == FrameOf(a.mem, s);
    }
  }

  /** The three links of a complete walk, put together. */
  lemma WalkOfLinks(m: seq<byte>, t4: nat, t3: nat, t2: nat, t1: nat, vp: nat)
    requires Links(m, 4, t4, Index(4, vp)) && Entry(m, t4, Index(4, vp)).target == t3
    requires Links(m, 3, t3, Index(3, vp)) && Entry(m, t3, Index(3, vp)).target == t2
    requires Links(m, 2, t2, Index(2, vp)) && Entry(m, t2, Index(2, vp)).target == t1
    ensures var e4, e3, e2 := Entry(m, t4, Index(4, vp)), Entry(m, t3, Index(3, vp)), Entry(m, t2, Index(2, vp));
      Path(m, 4, t4, vp) ==
        Leaf(t1, e4.writable && e3.writable && e2.writable, e4.user && e3.user && e2.user)
  {
    assert Path(m, 1, t1, vp) == Leaf(t1, true, true);
    assert Path(m, 2, t2, vp).Leaf?;
    assert Path(m, 3, t3, vp).Leaf?;
  }

  /** The walk of `vp` is complete in `b`; its rights are those of the links it already had in `a`. */
  ghost predicate WalkComplete(a: Snapshot, b: Snapshot, r: nat, vp: nat, user: bool, table: nat) {
    var rights, route := LinkRights(a.mem, 4, r, vp), Path(b.mem, 4, r, vp);
    && b.free == a.free - Missing(a.mem, 4, r, vp)
    && InMem(b.mem, table)
    && route.Leaf? && route.table == table
    && route.writable == rights.writable
    && (user && route.user) == (user && rights.user)
  }

  lemma TwoSteps(s0: Snapshot, s1: Snapshot, s2: Snapshot, kr: nat, r: nat, t3: nat, t2: nat, vp: nat, user: bool)
    requires Good(s0, kr) && IsRoot(s0.owner, r) && !Path(s0.mem, 4, r, vp).Large?
    requires Descended(s0, s1, kr, r, Index(4, vp), t3, user)
    requires InMem(s1.mem, t3) && Descended(s1, s2, kr, t3, Index(3, vp), t2, user)
    ensures Good(s1, kr) && t3 in s1.owner && s1.owner[t3].Level() == 3 && !s1.owner[t3].Root?
    ensures Grew(s0, s2, r, vp, user) && Good(s2, kr)
  {
    DescendedWalk(s0, s1, kr, 4, r, vp, t3, user);
    DescendedGrew(s0, s1, kr, r, r, 4, vp, t3, user);
    DescendedEffect(s0, s1, kr, r, Index(4, vp), t3, user);
    DescendedGrew(s1, s2, kr, r, t3, 3, vp, t2, user);
    DescendedEffect(s1, s2, kr, t3, Index(3, vp), t2, user);
    GrewTransitive(s0, s1, s2, r, vp, user);
  }

  lemma ThreeSteps(s0: Snapshot, s1: Snapshot, s2: Snapshot, s3: Snapshot,
                   kr: nat, r: nat, t3: nat, t2: nat, t1: nat, vp: nat, user: bool)
    requires Good(s0, kr) && IsRoot(s0.owner, r) && !Path(s0.mem, 4, r, vp).Large?
    requires Descended(s0, s1, kr, r, Index(4, vp), t3, user)
    requires InMem(s1.mem, t3) && Descended(s1, s2, kr, t3, Index(3, vp), t2, user)
    requires InMem(s2.mem, t2) && Descended(s2, s3, kr, t2, Index(2, vp), t1, user)
    ensures Grew(s0, s3, r, vp, user)
    ensures WalkComplete(s0, s3, r, vp, user, t1)
  {
    TwoSteps(s0, s1, s2, kr, r, t3, t2, vp, user);
    DescendedWalk(s0, s1, kr, 4, r, vp, t3, user);
    DescendedWalk(s1, s2, kr, 3, t3, vp, t2, user);
    DescendedWalk(s2, s3, kr, 2, t2, vp, t1, user);
    assert Grew(s0, s3, r, vp, user) by {
      DescendedGrew(s2, s3, kr, r, t2, 2, vp, t1, user);
      GrewTransitive(s0, s2, s3, r, vp, user);
    }
    assert WalkComplete(s0, s3, r, vp, user, t1) by {
      DescendedEffect(s2, s3, kr, t2, Index(2, vp), t1, user);
      LinksStay(s1, s2, s3, kr, r, t3, t2, t1, vp, user);
      WalkOfLinks(s3.mem, r, t3, t2, t1, vp);
    }
  }

  /** Steps further down leave the links above them alone. */
  lemma LinksStay(s1: Snapshot, s2: Snapshot, s3: Snapshot,
                  kr: nat, r: nat, t3: nat, t2: nat, t1: nat, vp: nat, user: bool)
    requires Good(s1, kr) && IsRoot(s1.owner, r) && t3 in s1.owner && s1.owner[t3].Level() == 3
    requires Descended(s1, s2, kr, t3, Index(3, vp), t2, user)
    requires Good(s2, kr) && t2 in s2.owner && s2.owner[t2].Level() == 2
    requires Descended(s2, s3, kr, t2, Index(2, vp), t1, user)
    ensures InMem(s3.mem, r) && Entry(s3.mem, r, Index(4, vp)) == Entry(s1.mem, r, Index(4, vp))
    ensures InMem(s2.mem, t3) && InMem(s3.mem, t3) && Entry(s3.mem, t3, Index(3, vp)) == Entry(s2.mem, t3, Index(3, vp))
  {
    DescendedEffect(s1, s2, kr, t3, Index(3, vp), t2, user);
    DescendedEffect(s2, s3, kr, t2, Index(2, vp), t1, user);
  }

  /** The effect of mapping page `vp` of root `r` to `frame`. */
  ghost predicate Mapped(a: Snapshot, b: Snapshot, r: nat, vp: nat, frame: nat, user: bool) {
    var rights := LinkRights(a.mem, 4, r, vp);
    && Extends(a, b)
    && OnlyPage(a, b, r, vp)
    && Translate(b.mem, r, vp) == Some(Mapping(frame, rights.writable, user && rights.user))
    && Path(b.mem, 4, r, vp).Leaf?
    && b.free == a.free - Missing(a.mem, 4, r, vp)
    && (user ==> KeepsPlain(a, b))
    && OnlyTop(a, b, r, Index(4, vp))
  }

  lemma LeafWriteMaps(a: Snapshot, b: Snapshot, c: Snapshot,
                      kr: nat, r: nat, vp: nat, frame: nat, user: bool, table: nat)
    requires IsRoot(a.owner, r) && vp < PAGES
    requires Good(b, kr) && Grew(a, b, r, vp, user) && WalkComplete(a, b, r, vp, user, table)
    requires c == b.(mem := c.mem) && EntryWritten(b.mem, c.mem, table, Index(1, vp), {})
    requires InMem(c.mem, table) && Entry(c.mem, table, Index(1, vp)) == Pte(true, true, user, false, frame)
    ensures Good(c, kr) && Mapped(a, c, r, vp, frame, user)
  {
    LeafWriteEffect(b, c, kr, r, vp);
  }

  lemma MapUnmapRestores(a: Snapshot, b: Snapshot, c: Snapshot, r: nat, vp: nat)
    requires IsRoot(a.owner, r) && vp < PAGES
    requires Extends(a, b) && OnlyPage(a, b, r, vp) && OnlyPage(b, c, r, vp)
    requires Translate(a.mem, r, vp) == None && Translate(c.mem, r, vp) == None
    ensures forall vq :: 0 <= vq < PAGES ==> Translate(c.mem, r, vq) == Translate(a.mem, r, vq)
    ensures vp < USER_PAGES ==> SameTranslations(a, c)
  {
  }

  class Machine {
    const phys: FrameAllocator
    const mem: array<byte>
    const kernelRoot: nat    // frame of the PML4 that CR3 holds
    ghost var m: seq<byte>   // the content of `mem`
    ghost var owner: Owners  // the place of every table frame

    ghost predicate Valid()
      reads this, phys, phys.bitmap, mem
    {
      Ready() && Good(Snap(), kernelRoot)
    }

    /** Memory and allocator are consistent, whatever the tables say. */
    ghost predicate Ready()
      reads this, phys, phys.bitmap, mem
    {
      && m == mem[..]
      && phys.Valid()
      && (mem as object) != phys.bitmap
      && phys.totalFrames * 4096 <= |m|
    }

    /** A machine whose tables, as the boot code left them, have the shape `owner`. */
    constructor (phys: FrameAllocator, mem: array<byte>, kernelRoot: nat, ghost owner: Owners)
      requires phys.Valid() && (mem as object) != phys.bitmap
      requires phys.totalFrames * 4096 <= mem.Length
      requires Shaped(mem[..], owner, kernelRoot) && forall t :: t in owner ==> t in phys.used
      ensures Valid()
      ensures this.phys == phys && this.mem == mem && this.kernelRoot == kernelRoot && this.owner == owner
    {
      this.phys, this.mem, this.kernelRoot, this.owner := phys, mem, kernelRoot, owner;
      m := mem[..];
    }

    ghost function Snap(): Snapshot
      reads this, phys
    {
      Snapshot(m, owner, phys.used, phys.freeFrames)
    }

    /** `phys::alloc_frame`, by frame number. */
    method AllocFrame() returns (frame: Option<nat>)
      requires Valid()
      modifies phys`freeFrames, phys`used, phys.bitmap
      ensures Valid()
      ensures frame.None? ==> old(phys.freeFrames) == 0 && Snap() == old(Snap())
      ensures frame.Some? ==>
        && old(phys.freeFrames) > 0
        && frame.value !in old(phys.used) && InMem(m, frame.value) && frame.value < TARGETS
        && Snap() == Snapshot(m, owner, old(phys.used) + {frame.value}, old(phys.freeFrames) - 1)
    {
      var addr := phys.AllocFrame();
      if addr.None? {
        return None;
      }
      return Some(addr.value / 4096);
    }

    method ReadEntry(t: nat, i: nat) returns (e: Pte)
      requires Ready() && InMem(m, t) && i < 512
      ensures e == Entry(m, t, i)
    {
      e := Entry(mem[..], t, i);
    }

    method WriteEntry(t: nat, i: nat, w: u64)
      requires Ready() && InMem(m, t) && i < 512
      modifies this`m, mem
      ensures Ready()
      ensures Snap() == old(Snap()).(mem := m)
      ensures EntryWritten(old(m), m, t, i, {})
      ensures Entry(m, t, i) == Decode(w)
    {
      StoreWord(mem, t, 8 * i, w);
      m := mem[..];
      forall j | 0 <= j < 512 && j != i ensures Entry(m, t, j) == Entry(old(m), t, j) {
        LEsame(FrameOf(m, t), FrameOf(old(m), t), 8 * j, 8);
      }
    }

    /** The zeroed frame `f` becomes the table behind the empty entry `i` of `t`. */
    method LinkEmptyTable(t: nat, i: nat, f: nat, user: bool)
      requires Ready() && InMem(m, t) && InMem(m, f) && t != f && f < TARGETS
      requires i < 512 && !Entry(m, t, i).present
      modifies this`m, mem
      ensures Ready()
      ensures Snap() == old(Snap()).(mem := m)
      ensures Linked(old(m), m, t, i, f)
      ensures Entry(m, t, i) == Pte(true, true, user, false, f)
    {
      ZeroFrame(mem, f);
      m := mem[..];
      ghost var m1 := m;
      WriteEntry(t, i, NewEntry(f * 4096, BaseFlags(user)));
      DecodeLink(f, user);
      ZeroThenWrite(old(m), m1, m, t, i, f);
    }

    static lemma ZeroThenWrite(m0: seq<byte>, m1: seq<byte>, m2: seq<byte>, t: nat, i: nat, f: nat)
      requires InMem(m0, t) && InMem(m0, f) && t != f && i < 512
      requires SameExcept(m0, m1, {f}) && FrameOf(m1, f) == ZERO_PAGE
      requires EntryWritten(m1, m2, t, i, {})
      ensures EntryWritten(m0, m2, t, i, {f})
      ensures forall j :: 0 <= j < 512 ==> !Entry(m2, f, j).present
      ensures Entry(m1, t, i) == Entry(m0, t, i)
    {
      assert FrameOf(m1, t) == FrameOf(m0, t);
      assert FrameOf(m2, f) == FrameOf(m1, f);
      forall j | 0 <= j < 512 ensures !Entry(m2, f, j).present {
        LEzero(FrameOf(m2, f), 8 * j, 8);
      }
      forall j | 0 <= j < 512 && j != i ensures Entry(m2, t, j) == Entry(m0, t, j) {
        assert Entry(m1, t, j) == Entry(m0, t, j);
      }
      assert SameExcept(m0, m2, {f} + {t});
    }

    /** One step down: the table behind entry `i`, allocated, zeroed and linked when the entry is empty. */
    method EnsureTable(t: nat, i: nat, user: bool) returns (next: Outcome<nat>)
      requires Valid()
      requires t in owner && owner[t].Level() >= 2 && i < 512
      requires Entry(m, t, i).present ==> Links(m, owner[t].Level(), t, i)
      modifies this`m, this`owner, mem, phys`freeFrames, phys`used, phys.bitmap
      ensures Valid()
      ensures next.Panicked? <==> !old(Entry(m, t, i)).present && old(phys.freeFrames) == 0
      ensures next.Panicked? ==> Snap() == old(Snap())
      ensures next.Returned? ==> Descended(old(Snap()), Snap(), kernelRoot, t, i, next.value, user)
    {
      var e := ReadEntry(t, i);
      if e.present {
        return Returned(e.target);
      }
      ghost var s0 := Snap();
      var frame := AllocFrame();
      if frame.None? {
        return Panicked; // `expect` on an exhausted allocator
      }
      var f := frame.value;
      LinkEmptyTable(t, i, f, user);
      owner := Grown(owner, kernelRoot, t, i, f);
      NewTableKeepsShape(s0, Snap(), kernelRoot, t, i, f, user);
      return Returned(f);
    }

    /**
     Growing the walk of page `virt` to its last-level table.  Nothing translates differently
     afterwards, and the call fails exactly when memory has fewer free frames than the walk lacks tables.
     */
    method EnsureWalk(root: nat, virt: u64, user: bool) returns (table: Outcome<nat>)
      requires Valid() && IsRoot(owner, root)
      requires !Path(m, 4, root, PageOf(virt)).Large?
      modifies this`m, this`owner, mem, phys`freeFrames, phys`used, phys.bitmap
      ensures Valid()
      ensures table.Panicked? <==> old(phys.freeFrames) < Missing(old(m), 4, root, PageOf(virt))
      ensures Grew(old(Snap()), Snap(), root, PageOf(virt), user)
      ensures table.Returned? ==> WalkComplete(old(Snap()), Snap(), root, PageOf(virt), user, table.value)
    {
      ghost var vp, s0 := PageOf(virt), Snap();
      IndicesOfPage(virt);
      var t3 := EnsureTable(root, Pml4Index(virt), user);
      if t3.Panicked? {
        return Panicked;
      }
      ghost var s1 := Snap();
      DescendedWalk(s0, s1, kernelRoot, 4, root, vp, t3.value, user);
      var t2 := EnsureTable(t3.value, PdptIndex(virt), user);
      if t2.Panicked? {
        DescendedGrew(s0, s1, kernelRoot, root, root, 4, vp, t3.value, user);
        return Panicked;
      }
      ghost var s2 := Snap();
      DescendedWalk(s1, s2, kernelRoot, 3, t3.value, vp, t2.value, user);
      var t1 := EnsureTable(t2.value, PdIndex(virt), user);
      if t1.Panicked? {
        TwoSteps(s0, s1, s2, kernelRoot, root, t3.value, t2.value, vp, user);
        return Panicked;
      }
      ThreeSteps(s0, s1, s2, Snap(), kernelRoot, root, t3.value, t2.value, t1.value, vp, user);
      return t1;
    }

    /**
     Mapping one page.  The page then leads to `physAddr`, with the rights its existing links
     allow: a user mapping below a link that lacks the user bit stays out of user reach.
     No other page of the address space moves, nor (below 2^47) any page of another one.
     */
    method MapPage(root: nat, virt: u64, physAddr: u64, user: bool) returns (out: Outcome<()>)
      requires Valid() && IsRoot(owner, root)
      requires !Path(m, 4, root, PageOf(virt)).Large?
      modifies this`m, this`owner, mem, phys`freeFrames, phys`used, phys.bitmap
      ensures Valid()
      ensures out.Panicked? <==> old(phys.freeFrames) < Missing(old(m), 4, root, PageOf(virt))
      ensures out.Panicked? ==> Grew(old(Snap()), Snap(), root, PageOf(virt), user)
      ensures out.Returned? ==> Mapped(old(Snap()), Snap(), root, PageOf(virt), physAddr / 4096 % 0x100_0000_0000, user)
    {
      ghost var vp, s0 := PageOf(virt), Snap();
      var table := EnsureWalk(root, virt, user);
      if table.Panicked? {
        return Panicked;
      }
      ghost var s1 := Snap();
      IndicesOfPage(virt);
      WriteEntry(table.value, PtIndex(virt), NewEntry(physAddr, BaseFlags(user)));
      DecodeNew(physAddr, user);
      LeafWriteMaps(s0, s1, Snap(), kernelRoot, root, vp, physAddr / 4096 % 0x100_0000_0000, user, table.value);
      return Returned(());
    }

    /** The read-only descent of `unmap_page`: the last-level table of the page, if the walk gets that far. */
    method FindLeafTable(root: nat, virt: u64) returns (table: Option<nat>)
      requires Valid() && IsRoot(owner, root)
      requires !Path(m, 4, root, PageOf(virt)).Large?
      ensures table.None? <==> Path(m, 4, root, PageOf(virt)).Fault?
      ensures table.Some? ==>
        Path(m, 4, root, PageOf(virt)).Leaf? && Path(m, 4, root, PageOf(virt)).table == table.value
      ensures table.Some? ==> table.value in owner
    {
      ghost var vp := PageOf(virt);
      IndicesOfPage(virt);
      var e4 := ReadEntry(root, Pml4Index(virt));
      if !e4.present { return None; }
      assert Links(m, 4, root, Index(4, vp));
      var e3 := ReadEntry(e4.target, PdptIndex(virt));
      if !e3.present { return None; }
      assert Links(m, 3, e4.target, Index(3, vp));
      var e2 := ReadEntry(e3.target, PdIndex(virt));
      if !e2.present {
        assert Path(m, 3, e4.target, vp).Fault?;
        return None;
      }
      assert Links(m, 2, e3.target, Index(2, vp));
      WalkOfLinks(m, root, e4.target, e3.target, e2.target, vp);
      LeafIsTable(m, owner, kernelRoot, 4, root, vp);
      return Some(e2.target);
    }

    /** Unmapping clears the last-level entry, when the walk gets that far. */
    method UnmapPage(root: nat, virt: u64)
      requires Valid() && IsRoot(owner, root)
      requires !Path(m, 4, root, PageOf(virt)).Large?
      modifies this`m, mem
      ensures Valid()
      ensures Snap() == old(Snap()).(mem := m)
      ensures Translate(m, root, PageOf(virt)) == None
      ensures Extends(old(Snap()), Snap()) && OnlyPage(old(Snap()), Snap(), root, PageOf(virt))
      ensures KeepsPlain(old(Snap()), Snap())
    {
      var table := FindLeafTable(root, virt);
      if table.Some? {
        ghost var s0 := Snap();
        IndicesOfPage(virt);
        WriteEntry(table.value, PtIndex(virt), 0);
        DecodeZero();
        LeafWriteEffect(s0, Snap(), kernelRoot, root, PageOf(virt));
      }
    }

    /** Mapping and then unmapping a page that was not mapped restores every translation. */
    method MapThenUnmap(root: nat, virt: u64, physAddr: u64, user: bool) returns (out: Outcome<()>)
      requires Valid() && IsRoot(owner, root)
      requires Translate(m, root, PageOf(virt)) == None
      modifies this`m, this`owner, mem, phys`freeFrames, phys`used, phys.bitmap
      ensures Valid()
      ensures forall vq :: 0 <= vq < PAGES ==> Translate(m, root, vq) == Translate(old(m), root, vq)
      ensures PageOf(virt) < USER_PAGES ==> SameTranslations(old(Snap()), Snap())
    {
      ghost var s0 := Snap();
      out := MapPage(root, virt, physAddr, user);
      if out.Returned? {
        ghost var s1 := Snap();
        UnmapPage(root, virt);
        MapUnmapRestores(s0, s1, Snap(), root, PageOf(virt));
      }
    }
  }
}
