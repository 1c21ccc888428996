/**
 Four-level page tables held in physical frames, and the processor's walk over them
 (Intel SDM volume 3A, sections 4.5 and 4.6).  Everything here is about the content `m` of
 physical memory; levels are numbered 4 (PML4), 3 (PDPT), 2 (PD), 1 (PT).
 */
module PageTables {
  import opened Common
  import opened Bytes

  const PAGES: nat := 0x10_0000_0000     // 2^36 virtual pages: 48-bit addresses
  const USER_PAGES: nat := 0x8_0000_0000 // 2^35 pages below 2^47
  const TARGETS: nat := 0x100_0000_0000  // 2^40 frame numbers: bits 12..51 of an entry

  const PRESENT: u64 := 1
  const WRITABLE: u64 := 2
  const USER: u64 := 4

  // ---- Entries ----

  /** A decoded entry. */
  datatype Pte = Pte(present: bool, writable: bool, user: bool, huge: bool, target: nat)

  function Decode(e: u64): Pte {
    Pte(Bit(e, 0), Bit(e, 1), Bit(e, 2), Bit(e, 7), Shr(e, 12) % 0x100_0000_0000)
  }

  predicate Bit(w: nat, k: nat) {
    Shr(w, k) % 2 == 1
  }

  /** `PageEntry::new`: the flags are below bit 12, so or-ing them in is adding them. */
  function NewEntry(physAddr: u64, flags: u64): u64
    requires flags < 4096
  {
    physAddr / 4096 % 0x100_0000_0000 * 4096 + flags
  }

  function BaseFlags(user: bool): u64 {
    PRESENT + WRITABLE + if user then USER else 0
  }

  lemma DecodeNew(physAddr: u64, user: bool)
    ensures Decode(NewEntry(physAddr, BaseFlags(user)))
         == Pte(true, true, user, false, physAddr / 4096 % 0x100_0000_0000)
  {
    var a, u := physAddr / 4096 % 0x100_0000_0000, if user then 1 else 0;
    var e := NewEntry(physAddr, BaseFlags(user));
    assert Shr(e, 0) == e == 4096 * a + 4 * u + 3;
    ShrStep(e, 0, 2048 * a + 2 * u + 1);
    ShrStep(e, 1, 1024 * a + u);
    ShrStep(e, 2, 512 * a);
    ShrStep(e, 3, 256 * a);
    ShrStep(e, 4, 128 * a);
    ShrStep(e, 5, 64 * a);
    ShrStep(e, 6, 32 * a);
    ShrStep(e, 7, 16 * a);
    ShrStep(e, 8, 8 * a);
    ShrStep(e, 9, 4 * a);
    ShrStep(e, 10, 2 * a);
    ShrStep(e, 11, a);
  }

  lemma DecodeZero()
    ensures !Decode(0).present
  {
    assert Shr(0, 0) == 0;
  }

  lemma {:induction false} ShrStep(w: nat, k: nat, q: nat)
    requires Shr(w, k) / 2 == q
    ensures Shr(w, k + 1) == q
    decreases k
  {
    if k != 0 {
      ShrStep(w / 2, k - 1, q);
    }
  }

  lemma FrameAddress(f: nat)
    requires f < TARGETS
    ensures f * 4096 < 0x1_0000_0000_0000_0000
    ensures f * 4096 / 4096 % 0x100_0000_0000 == f
  {
    assert f * 4096 / 4096 == f;
  }

  lemma DecodeLink(f: nat, user: bool)
    requires f < TARGETS
    ensures f * 4096 < 0x1_0000_0000_0000_0000
    ensures Decode(NewEntry(f * 4096, BaseFlags(user))) == Pte(true, true, user, false, f)
  {
    FrameAddress(f);
    DecodeNew(f * 4096, user);
  }

  /** The 9-bit index of virtual page `vp` at `level`. */
  function Index(level: nat, vp: nat): (i: nat)
    requires 1 <= level <= 4
    ensures i < 512
  {
    if level == 1 then vp % 512
    else if level == 2 then vp / 0x200 % 512
    else if level == 3 then vp / 0x4_0000 % 512
    else vp / 0x800_0000 % 512
  }

  lemma IndexInjective(vp: nat, vq: nat)
    requires vp < PAGES && vq < PAGES
    requires forall l :: 1 <= l <= 4 ==> Index(l, vp) == Index(l, vq)
    ensures vp == vq
  {
    assert Index(1, vp) == Index(1, vq) && Index(2, vp) == Index(2, vq);
    assert Index(3, vp) == Index(3, vq) && Index(4, vp) == Index(4, vq);
    IndexDigits(vp);
    IndexDigits(vq);
  }

  lemma IndexDigits(vp: nat)
    requires vp < PAGES
    ensures vp == Index(1, vp) + 0x200 * Index(2, vp) + 0x4_0000 * Index(3, vp) + 0x800_0000 * Index(4, vp)
  {
    var a, b, c := vp / 0x200, vp / 0x4_0000, vp / 0x800_0000;
    assert b == a / 0x200;
    assert c == b / 0x200;
    assert c < 0x200;
  }

  lemma UserHalf(vp: nat)
    requires vp < PAGES
    ensures Index(4, vp) < 256 <==> vp < USER_PAGES
  {
  }

  function Entry(m: seq<byte>, t: nat, i: nat): Pte
    requires InMem(m, t) && i < 512
  {
    assert Pow256(8) == 0x1_0000_0000_0000_0000;
    Decode(LE(FrameOf(m, t), 8 * i, 8))
  }

  // ---- The walk ----

  /** Where a virtual page leads, and whether every level allows writing and user access. */
  datatype Mapping = Mapping(frame: nat, writable: bool, user: bool)

  datatype Route =
    | Fault
    | Large(mapping: Mapping)
    | Leaf(table: nat, writable: bool, user: bool)
  {
    function Restrict(e: Pte): Route {
      match this
      case Fault => Fault
      case Large(mp) => Large(Mapping(mp.frame, mp.writable && e.writable, mp.user && e.user))
      case Leaf(t, w, u) => Leaf(t, w && e.writable, u && e.user)
    }
  }

  /** The frame of page `vp` inside a 1 GiB (level 3) or 2 MiB (level 2) page. */
  function LargeFrame(level: nat, target: nat, vp: nat): nat {
    if level == 3 then target / 0x4_0000 * 0x4_0000 + vp % 0x4_0000
    else target / 0x200 * 0x200 + vp % 0x200
  }

  /** The part of the walk above the last level, from table `t` at `level`. */
  function Path(m: seq<byte>, level: nat, t: nat, vp: nat): Route
    requires level <= 4
    decreases level
  {
    if level <= 1 then Leaf(t, true, true)
    else if !InMem(m, t) then Fault
    else
      var e := Entry(m, t, Index(level, vp));
      if !e.present then Fault
      else if e.huge && level <= 3 then
        Large(Mapping(LargeFrame(level, e.target, vp), e.writable, e.user))
      else Path(m, level - 1, e.target, vp).Restrict(e)
  }

  function LeafMapping(m: seq<byte>, route: Route, vp: nat): Option<Mapping> {
    match route
    case Fault => None
    case Large(mp) => Some(mp)
    case Leaf(t, w, u) =>
      if !InMem(m, t) then None
      else
        var e := Entry(m, t, Index(1, vp));
        if e.present then Some(Mapping(e.target, w && e.writable, u && e.user)) else None
  }

  /** Translation of virtual page `vp` in the address space rooted at `root`. */
  function Translate(m: seq<byte>, root: nat, vp: nat): Option<Mapping> {
    LeafMapping(m, Path(m, 4, root, vp), vp)
  }

  /** How many tables the walk of `vp` lacks. */
  function Missing(m: seq<byte>, level: nat, t: nat, vp: nat): (n: nat)
    requires level <= 4
    ensures level >= 1 ==> n < level
    decreases level
  {
    if level <= 1 || !InMem(m, t) then 0
    else
      var e := Entry(m, t, Index(level, vp));
      if !e.present then level - 1
      else if e.huge && level <= 3 then 0
      else Missing(m, level - 1, e.target, vp)
  }

  /** Every entry present above the last level on the walk of `vp` is a user-writable table link. */
  predicate Plain(m: seq<byte>, level: nat, t: nat, vp: nat)
    requires level <= 4
    decreases level
  {
    level <= 1 || !InMem(m, t) ||
    var e := Entry(m, t, Index(level, vp));
    e.present ==> e.writable && e.user && !(e.huge && level <= 3) && Plain(m, level - 1, e.target, vp)
  }

  /** What the links present on the walk of `vp` allow, above the last level. */
  datatype Rights = Rights(writable: bool, user: bool)

  function LinkRights(m: seq<byte>, level: nat, t: nat, vp: nat): Rights
    requires level <= 4
    decreases level
  {
    if level <= 1 || !InMem(m, t) then Rights(true, true)
    else
      var e := Entry(m, t, Index(level, vp));
      if !e.present then Rights(true, true)
      else
        var below := LinkRights(m, level - 1, e.target, vp);
        Rights(e.writable && below.writable, e.user && below.user)
  }

  // ---- Shape ----

  /** A table is a root, or is linked from one entry of one parent table. */
  datatype Slot = Root | Table(level: nat, parent: nat, index: nat) {
    function Level(): nat {
      if Root? then 4 else level
    }
  }

  type Owners = map<nat, Slot>

  /** The upper halves of all roots link the tables of the kernel root `kr`. */
  function ParentOf(owner: Owners, kr: nat, t: nat, i: nat): nat
    requires t in owner
  {
    if owner[t].Root? && i >= 256 then kr else t
  }

  predicate Links(m: seq<byte>, level: nat, t: nat, i: nat)
    requires i < 512
  {
    InMem(m, t) &&
    var e := Entry(m, t, i);
    e.present && !(e.huge && level <= 3)
  }

  /**
   The tables form a forest: each is in memory, and a link leads to a table whose one
   recorded parent entry is that link.
   */
  ghost predicate Shaped(m: seq<byte>, owner: Owners, kr: nat) {
    && kr in owner && owner[kr].Root?
    && (forall t :: t in owner ==> InMem(m, t) && 1 <= owner[t].Level() <= 4)
    && (forall t, i :: t in owner && owner[t].Level() >= 2 && 0 <= i < 512 && Links(m, owner[t].Level(), t, i) ==>
          var child := Entry(m, t, i).target;
          && child in owner
          && owner[child] == Table(owner[t].Level() - 1, ParentOf(owner, kr, t, i), i))
  }

  lemma {:induction false} LeafIsTable(m: seq<byte>, owner: Owners, kr: nat, level: nat, t: nat, vp: nat)
    requires Shaped(m, owner, kr)
    requires t in owner && owner[t].Level() == level
    requires Path(m, level, t, vp).Leaf?
    ensures var x := Path(m, level, t, vp).table; x in owner && owner[x].Level() == 1
    decreases level
  {
    if level > 1 {
      assert Links(m, level, t, Index(level, vp));
      LeafIsTable(m, owner, kr, level - 1, Entry(m, t, Index(level, vp)).target, vp);
    }
  }

  /** Two walks that reach one last-level table agree on all indices above it, and on where they started. */
  lemma {:induction false} SharedLeaf(
      m: seq<byte>, owner: Owners, kr: nat, level: nat, t: nat, vp: nat, s: nat, vq: nat)
    requires Shaped(m, owner, kr)
    requires t in owner && s in owner && owner[t].Level() == owner[s].Level() == level
    requires Path(m, level, t, vp).Leaf? && Path(m, level, s, vq).Leaf?
    requires Path(m, level, t, vp).table == Path(m, level, s, vq).table
    ensures forall l :: 2 <= l <= level ==> Index(l, vp) == Index(l, vq)
    ensures t == s || (level == 4 && Index(4, vp) >= 256)
    decreases level
  {
    if level > 1 {
      var i, j := Index(level, vp), Index(level, vq);
      assert Links(m, level, t, i) && Links(m, level, s, j);
      SharedLeaf(m, owner, kr, level - 1, Entry(m, t, i).target, vp, Entry(m, s, j).target, vq);
    }
  }

  /** In one address space a last-level entry serves one page; below 2^47 it serves one address space. */
  lemma OnePageOneEntry(m: seq<byte>, owner: Owners, kr: nat, r: nat, vp: nat, s: nat, vq: nat)
    requires Shaped(m, owner, kr)
    requires r in owner && s in owner && owner[r].Root? && owner[s].Root?
    requires vp < PAGES && vq < PAGES
    requires Path(m, 4, r, vp).Leaf? && Path(m, 4, s, vq).Leaf?
    requires Path(m, 4, r, vp).table == Path(m, 4, s, vq).table
    requires Index(1, vp) == Index(1, vq)
    ensures vp == vq
    ensures vp < USER_PAGES ==> r == s
  {
    SharedLeaf(m, owner, kr, 4, r, vp, s, vq);
    IndexInjective(vp, vq);
    UserHalf(vp);
  }

  // ---- Writing a last-level entry ----

  /** `m2` is `m` with entry `i` of table `t` overwritten and the frames `fs` rewritten. */
  ghost predicate EntryWritten(m: seq<byte>, m2: seq<byte>, t: nat, i: nat, fs: set<nat>) {
    && SameExcept(m, m2, fs + {t})
    && InMem(m, t) && t !in fs
    && forall j :: 0 <= j < 512 && j != i ==> Entry(m2, t, j) == Entry(m, t, j)
  }

  lemma {:induction false} LeafWriteKeepsPath(m: seq<byte>, m2: seq<byte>, owner: Owners, kr: nat, x: nat, i: nat,
                                              level: nat, t: nat, vp: nat)
    requires Shaped(m, owner, kr) && EntryWritten(m, m2, x, i, {})
    requires x in owner && owner[x].Level() == 1
    requires t in owner && owner[t].Level() == level
    ensures Path(m2, level, t, vp) == Path(m, level, t, vp)
    ensures Missing(m2, level, t, vp) == Missing(m, level, t, vp)
    ensures Plain(m2, level, t, vp) == Plain(m, level, t, vp)
    decreases level
  {
    if level > 1 {
      assert FrameOf(m2, t) == FrameOf(m, t);
      if Links(m, level, t, Index(level, vp)) {
        LeafWriteKeepsPath(m, m2, owner, kr, x, i, level - 1, Entry(m, t, Index(level, vp)).target, vp);
      }
    }
  }

  lemma LeafWriteKeepsShape(m: seq<byte>, m2: seq<byte>, owner: Owners, kr: nat, x: nat, i: nat)
    requires Shaped(m, owner, kr) && EntryWritten(m, m2, x, i, {})
    requires x in owner && owner[x].Level() == 1
    ensures Shaped(m2, owner, kr)
  {
    forall t, j | t in owner && owner[t].Level() >= 2 && 0 <= j < 512 && Links(m2, owner[t].Level(), t, j)
      ensures var child := Entry(m2, t, j).target;
        child in owner && owner[child] == Table(owner[t].Level() - 1, ParentOf(owner, kr, t, j), j)
    {
      assert FrameOf(m2, t) == FrameOf(m, t);
      assert Links(m, owner[t].Level(), t, j);
    }
  }

  /** Writing the entry that serves page `vp` of `r` changes no other page, of `r` or (below 2^47) of another root. */
  lemma LeafWriteIsLocal(m: seq<byte>, m2: seq<byte>, owner: Owners, kr: nat, r: nat, vp: nat, s: nat, vq: nat)
    requires Shaped(m, owner, kr)
    requires r in owner && s in owner && owner[r].Root? && owner[s].Root?
    requires vp < PAGES && vq < PAGES && (if r == s then vp != vq else vp != vq || vp < USER_PAGES)
    requires Path(m, 4, r, vp).Leaf?
    requires EntryWritten(m, m2, Path(m, 4, r, vp).table, Index(1, vp), {})
    ensures Translate(m2, s, vq) == Translate(m, s, vq)
  {
    var x := Path(m, 4, r, vp).table;
    LeafIsTable(m, owner, kr, 4, r, vp);
    LeafWriteKeepsPath(m, m2, owner, kr, x, Index(1, vp), 4, s, vq);
    var route := Path(m, 4, s, vq);
    if route.Leaf? {
      LeafIsTable(m, owner, kr, 4, s, vq);
      if route.table == x {
        if Index(1, vq) == Index(1, vp) {
          OnePageOneEntry(m, owner, kr, r, vp, s, vq);
        }
      } else {
        assert FrameOf(m2, route.table) == FrameOf(m, route.table);
      }
    }
  }

  // ---- Linking a new table ----

  /** `m2` is `m` after the empty table `f` was linked into the empty entry `i` of table `t`. */
  ghost predicate Linked(m: seq<byte>, m2: seq<byte>, t: nat, i: nat, f: nat) {
    && EntryWritten(m, m2, t, i, {f})
    && InMem(m, f)
    && i < 512 && !Entry(m, t, i).present
    && (forall j :: 0 <= j < 512 ==> !Entry(m2, f, j).present)
    && var e := Entry(m2, t, i);
       e.present && !e.huge && e.target == f
  }

  function Grown(owner: Owners, kr: nat, t: nat, i: nat, f: nat): Owners
    requires t in owner && owner[t].Level() >= 2
  {
    owner[f := Table(owner[t].Level() - 1, ParentOf(owner, kr, t, i), i)]
  }

  lemma LinkKeepsShape(m: seq<byte>, m2: seq<byte>, owner: Owners, kr: nat, t: nat, i: nat, f: nat)
    requires Shaped(m, owner, kr) && Linked(m, m2, t, i, f)
    requires t in owner && owner[t].Level() >= 2 && f !in owner
    ensures Shaped(m2, Grown(owner, kr, t, i, f), kr)
  {
    var owner2 := Grown(owner, kr, t, i, f);
    forall s, j | s in owner2 && owner2[s].Level() >= 2 && 0 <= j < 512 && Links(m2, owner2[s].Level(), s, j)
      ensures var child := Entry(m2, s, j).target;
        child in owner2 && owner2[child] == Table(owner2[s].Level() - 1, ParentOf(owner2, kr, s, j), j)
    {
      if s != f && !(s == t && j == i) {
        assert s != t ==> FrameOf(m2, s) == FrameOf(m, s);
        assert Links(m, owner[s].Level(), s, j);
      }
    }
  }

  /** A new table only turns faults into walks that end in an empty table. */
  lemma {:induction false} LinkKeepsPath(m: seq<byte>, m2: seq<byte>, owner: Owners, kr: nat, t: nat, i: nat, f: nat,
                                         level: nat, s: nat, vp: nat)
    requires Shaped(m, owner, kr) && Linked(m, m2, t, i, f)
    requires t in owner && owner[t].Level() >= 2 && f !in owner
    requires s in owner && owner[s].Level() == level
    ensures !Path(m, level, s, vp).Fault? ==> Path(m2, level, s, vp) == Path(m, level, s, vp)
    ensures Path(m, level, s, vp).Fault? ==>
      var p := Path(m2, level, s, vp); p.Fault? || (p.Leaf? && p.table == f)
    decreases level
  {
    if level > 1 {
      var j := Index(level, vp);
      if s == t && j == i {
        EmptyTable(m2, level - 1, f, vp);
      } else {
        assert s != t ==> FrameOf(m2, s) == FrameOf(m, s);
        if Links(m, level, s, j) {
          LinkKeepsPath(m, m2, owner, kr, t, i, f, level - 1, Entry(m, s, j).target, vp);
        }
      }
    }
  }

  /** A user-writable link keeps walks user-writable. */
  lemma {:induction false} LinkKeepsPlain(m: seq<byte>, m2: seq<byte>, owner: Owners, kr: nat, t: nat, i: nat, f: nat,
                                          level: nat, s: nat, vp: nat)
    requires Shaped(m, owner, kr) && Linked(m, m2, t, i, f)
    requires t in owner && owner[t].Level() >= 2 && f !in owner
    requires s in owner && owner[s].Level() == level
    requires Entry(m2, t, i).writable && Entry(m2, t, i).user
    requires Plain(m, level, s, vp)
    ensures Plain(m2, level, s, vp)
    decreases level
  {
    if level > 1 {
      var j := Index(level, vp);
      if s == t && j == i {
        EmptyTable(m2, level - 1, f, vp);
      } else {
        assert s != t ==> FrameOf(m2, s) == FrameOf(m, s);
        if Links(m, level, s, j) {
          LinkKeepsPlain(m, m2, owner, kr, t, i, f, level - 1, Entry(m, s, j).target, vp);
        }
      }
    }
  }

  lemma EmptyTable(m: seq<byte>, level: nat, f: nat, vp: nat)
    requires 1 <= level <= 3 && InMem(m, f)
    requires forall j :: 0 <= j < 512 ==> !Entry(m, f, j).present
    ensures Path(m, level, f, vp) == if level == 1 then Leaf(f, true, true) else Fault
    ensures Missing(m, level, f, vp) == level - 1
    ensures LinkRights(m, level, f, vp) == Rights(true, true)
    ensures Plain(m, level, f, vp)
  {
  }

  lemma LinkKeepsTranslations(
      m: seq<byte>, m2: seq<byte>, owner: Owners, kr: nat, t: nat, i: nat, f: nat, s: nat, vp: nat)
    requires Shaped(m, owner, kr) && Linked(m, m2, t, i, f)
    requires t in owner && owner[t].Level() >= 2 && f !in owner
    requires s in owner && owner[s].Root?
    ensures Translate(m2, s, vp) == Translate(m, s, vp)
  {
    LinkKeepsPath(m, m2, owner, kr, t, i, f, 4, s, vp);
    var route := Path(m, 4, s, vp);
    if route.Leaf? {
      LeafIsTable(m, owner, kr, 4, s, vp);
      assert FrameOf(m2, route.table) == FrameOf(m, route.table);
    }
  }

  // ---- Writes that spare the tables ----

  ghost predicate SameTables(m: seq<byte>, m2: seq<byte>, owner: Owners) {
    |m| == |m2| && forall t :: t in owner && InMem(m, t) ==> FrameOf(m2, t) == FrameOf(m, t)
  }

  /** The walk depends on table frames only. */
  lemma {:induction false} WalkReadsTables(
      m: seq<byte>, m2: seq<byte>, owner: Owners, kr: nat, level: nat, t: nat, vp: nat)
    requires Shaped(m, owner, kr) && SameTables(m, m2, owner)
    requires t in owner && owner[t].Level() == level
    ensures Path(m2, level, t, vp) == Path(m, level, t, vp)
    ensures Missing(m2, level, t, vp) == Missing(m, level, t, vp)
    ensures Plain(m2, level, t, vp) == Plain(m, level, t, vp)
    decreases level
  {
    if level > 1 && Links(m, level, t, Index(level, vp)) {
      WalkReadsTables(m, m2, owner, kr, level - 1, Entry(m, t, Index(level, vp)).target, vp);
    }
  }

  lemma TranslationReadsTables(m: seq<byte>, m2: seq<byte>, owner: Owners, kr: nat, r: nat, vp: nat)
    requires Shaped(m, owner, kr) && SameTables(m, m2, owner)
    requires r in owner && owner[r].Root?
    ensures Translate(m2, r, vp) == Translate(m, r, vp)
  {
    WalkReadsTables(m, m2, owner, kr, 4, r, vp);
    if Path(m, 4, r, vp).Leaf? {
      LeafIsTable(m, owner, kr, 4, r, vp);
    }
  }

  lemma ShapeReadsTables(m: seq<byte>, m2: seq<byte>, owner: Owners, kr: nat)
    requires Shaped(m, owner, kr) && SameTables(m, m2, owner)
    ensures Shaped(m2, owner, kr)
  {
    forall t, j | t in owner && owner[t].Level() >= 2 && 0 <= j < 512 && Links(m2, owner[t].Level(), t, j)
      ensures var child := Entry(m2, t, j).target;
        child in owner && owner[child] == Table(owner[t].Level() - 1, ParentOf(owner, kr, t, j), j)
    {
      assert Links(m, owner[t].Level(), t, j);
    }
  }

  /** Below a user-writable walk nothing is a large page and the links allow everything. */
  lemma {:induction false} PlainWalk(m: seq<byte>, level: nat, t: nat, vp: nat)
    requires level <= 4 && Plain(m, level, t, vp)
    ensures !Path(m, level, t, vp).Large?
    ensures LinkRights(m, level, t, vp) == Rights(true, true)
    decreases level
  {
    if level > 1 && InMem(m, t) && Entry(m, t, Index(level, vp)).present {
      PlainWalk(m, level - 1, Entry(m, t, Index(level, vp)).target, vp);
    }
  }

  /** The walk above the last level is shared by the 512 pages of one last-level table. */
  lemma {:induction false} NeighbourWalk(m: seq<byte>, level: nat, t: nat, vp: nat, vq: nat)
    requires level <= 4 && vp / 512 == vq / 512
    requires Path(m, level, t, vp).Leaf?
    ensures Missing(m, level, t, vq) == 0
    decreases level
  {
    if level > 1 {
      SameUpperIndices(vp, vq);
      NeighbourWalk(m, level - 1, Entry(m, t, Index(level, vp)).target, vp, vq);
    }
  }

  lemma SameUpperIndices(vp: nat, vq: nat)
    requires vp / 512 == vq / 512
    ensures forall l :: 2 <= l <= 4 ==> Index(l, vp) == Index(l, vq)
  {
    assert vp / 0x4_0000 == vp / 512 / 512 && vq / 0x4_0000 == vq / 512 / 512;
    assert vp / 0x800_0000 == vp / 512 / 0x4_0000 && vq / 0x800_0000 == vq / 512 / 0x4_0000;
  }

  /** Where `map_page` and `unmap_page` come out: they follow every present entry as a link, a large page too. */
  function Descent(m: seq<byte>, level: nat, t: nat, vp: nat): Option<nat>
    requires level <= 4
    decreases level
  {
    if level <= 1 then Some(t)
    else if !InMem(m, t) then None
    else
      var e := Entry(m, t, Index(level, vp));
      if !e.present then None else Descent(m, level - 1, e.target, vp)
  }

  /** Without a large page the descent is the processor's walk. */
  lemma {:induction false} DescentIsWalk(m: seq<byte>, level: nat, t: nat, vp: nat)
    requires level <= 4 && !Path(m, level, t, vp).Large?
    ensures var route := Path(m, level, t, vp);
      Descent(m, level, t, vp) == if route.Leaf? then Some(route.table) else None
    decreases level
  {
    if level > 1 && InMem(m, t) && Entry(m, t, Index(level, vp)).present {
      DescentIsWalk(m, level - 1, Entry(m, t, Index(level, vp)).target, vp);
    }
  }

  /**
   On a page under a large-page entry the last write of `map_page` goes into the memory the descent
   came out at.  Unless that is a table, no translation changes in any address space: the page
   keeps its large mapping, and eight bytes of the mapped memory are lost.
   */
  lemma LargePageStays(m: seq<byte>, m2: seq<byte>, owner: Owners, kr: nat, r: nat, vp: nat, x: nat, s: nat, vq: nat)
    requires Shaped(m, owner, kr)
    requires r in owner && owner[r].Root? && s in owner && owner[s].Root?
    requires Path(m, 4, r, vp).Large? && Descent(m, 4, r, vp) == Some(x) && x !in owner
    requires EntryWritten(m, m2, x, Index(1, vp), {})
    ensures Translate(m2, r, vp) == Some(Path(m, 4, r, vp).mapping)
    ensures Translate(m2, s, vq) == Translate(m, s, vq)
  {
    assert SameTables(m, m2, owner);
    TranslationReadsTables(m, m2, owner, kr, s, vq);
    TranslationReadsTables(m, m2, owner, kr, r, vp);
  }
}
