/** The page tables the boot code builds before the kernel starts, and what a new address space has of them. */
module BootTables {
  import opened Common
  import opened Bytes
  import opened PageTables
  import opened Paging
  import opened UserSpace
  import opened Isolation

  const IDENTITY_PAGES: nat := 0x4_0000 // the first GiB

  /** The entries of a table as numbers. */
  function Words(m: seq<byte>, t: nat, i: nat): nat
    requires InMem(m, t) && i < 512
  {
    LE(FrameOf(m, t), 8 * i, 8)
  }

  /** Present and writable. */
  function LinkWord(t: nat): nat {
    t * 4096 + 3
  }

  /** Present, writable and large. */
  function LargeWord(i: nat): nat {
    i * 0x20_0000 + 0x83
  }

  /** Three tables: one link, one link, and 512 pages of 2 MiB in order. */
  ghost predicate BootLayout(m: seq<byte>, p4: nat, p3: nat, p2: nat) {
    && InMem(m, p4) && InMem(m, p3) && InMem(m, p2) && p4 != p3 && p3 != p2 && p2 != p4
    && p3 < 0x10_0000 && p2 < 0x10_0000
    && (forall i :: 0 <= i < 512 ==> Words(m, p4, i) == if i == 0 then LinkWord(p3) else 0)
    && (forall i :: 0 <= i < 512 ==> Words(m, p3, i) == if i == 0 then LinkWord(p2) else 0)
    && (forall i :: 0 <= i < 512 ==> Words(m, p2, i) == LargeWord(i))
  }

  function BootOwners(p4: nat, p3: nat, p2: nat): Owners {
    map[p4 := Root, p3 := Table(3, p4, 0), p2 := Table(2, p3, 0)]
  }

  // ---- The stores of the boot code ----

  /** The upper four bytes of each entry are zero from the start, so a store of four bytes is one of eight. */
  method StoreEntry(mem: array<byte>, t: nat, i: nat, w: u32)
    requires InMem(mem[..], t) && i < 512
    modifies mem
    ensures SameExcept(old(mem[..]), mem[..], {t})
    ensures Words(mem[..], t, i) == w
    ensures forall j :: 0 <= j < 512 && j != i ==> Words(mem[..], t, j) == old(Words(mem[..], t, j))
  {
    StoreWord(mem, t, 8 * i, w);
    forall j | 0 <= j < 512 && j != i ensures Words(mem[..], t, j) == old(Words(mem[..], t, j)) {
      LEsame(FrameOf(mem[..], t), old(FrameOf(mem[..], t)), 8 * j, 8);
    }
  }

  /** `setup_page_tables`, on the zeroed frames of the three tables. */
  method SetupPageTables(mem: array<byte>, p4: nat, p3: nat, p2: nat)
    requires InMem(mem[..], p4) && InMem(mem[..], p3) && InMem(mem[..], p2) && p4 != p3 && p3 != p2 && p2 != p4
    requires p3 < 0x10_0000 && p2 < 0x10_0000
    requires FrameOf(mem[..], p4) == ZERO_PAGE && FrameOf(mem[..], p3) == ZERO_PAGE && FrameOf(mem[..], p2) == ZERO_PAGE
    modifies mem
    ensures BootLayout(mem[..], p4, p3, p2)
    ensures SameExcept(old(mem[..]), mem[..], {p4, p3, p2})
  {
    ghost var m0 := mem[..];
    ZeroWords(m0, p4);
    ZeroWords(m0, p3);
    StoreEntry(mem, p4, 0, p3 * 4096 + 3);
    ghost var m1 := mem[..];
    SameWords(m0, m1, p3);
    assert forall j :: 0 < j < 512 ==> Words(m1, p4, j) == Words(m0, p4, j);
    StoreEntry(mem, p3, 0, p2 * 4096 + 3);
    ghost var m2 := mem[..];
    SameWords(m1, m2, p4);
    assert forall j :: 0 < j < 512 ==> Words(m2, p3, j) == Words(m1, p3, j);
    for i := 0 to 512
      invariant |mem[..]| == |m2| && SameExcept(m2, mem[..], {p2})
      invariant forall j :: 0 <= j < i ==> Words(mem[..], p2, j) == LargeWord(j)
    {
      StoreEntry(mem, p2, i, i * 0x20_0000 + 0x83);
    }
    SameWords(m2, mem[..], p4);
    SameWords(m2, mem[..], p3);
  }

  lemma SameWords(m: seq<byte>, m2: seq<byte>, t: nat)
    requires InMem(m, t) && InMem(m2, t) && FrameOf(m2, t) == FrameOf(m, t)
    ensures forall i :: 0 <= i < 512 ==> Words(m2, t, i) == Words(m, t, i)
  {
  }

  lemma ZeroWords(m: seq<byte>, t: nat)
    requires InMem(m, t) && FrameOf(m, t) == ZERO_PAGE
    ensures forall i :: 0 <= i < 512 ==> Words(m, t, i) == 0
  {
    forall i | 0 <= i < 512 ensures Words(m, t, i) == 0 {
      LEzero(FrameOf(m, t), 8 * i, 8);
    }
  }

  // ---- What the tables mean ----

  lemma DecodeLinkWord(t: nat)
    requires t < 0x10_0000
    ensures Decode(LinkWord(t)) == Pte(true, true, false, false, t)
  {
    assert BaseFlags(false) == 3;
    DecodeNew(t * 4096, false);
    assert NewEntry(t * 4096, 3) == LinkWord(t);
  }

  lemma DecodeLargeWord(i: nat)
    requires i < 512
    ensures Decode(LargeWord(i)) == Pte(true, true, false, true, i * 512)
  {
    var e := LargeWord(i);
    assert Shr(e, 0) == e;
    ShrStep(e, 0, 0x10_0000 * i + 0x41);
    ShrStep(e, 1, 0x8_0000 * i + 0x20);
    ShrStep(e, 2, 0x4_0000 * i + 0x10);
    ShrStep(e, 3, 0x2_0000 * i + 0x8);
    ShrStep(e, 4, 0x1_0000 * i + 0x4);
    ShrStep(e, 5, 0x8000 * i + 0x2);
    ShrStep(e, 6, 0x4000 * i + 0x1);
    ShrStep(e, 7, 0x2000 * i);
    ShrStep(e, 8, 0x1000 * i);
    ShrStep(e, 9, 0x800 * i);
    ShrStep(e, 10, 0x400 * i);
    ShrStep(e, 11, 0x200 * i);
  }

  lemma BootEntries(m: seq<byte>, p4: nat, p3: nat, p2: nat, i: nat)
    requires BootLayout(m, p4, p3, p2) && i < 512
    ensures if i == 0 then Entry(m, p4, i) == Pte(true, true, false, false, p3) else !Entry(m, p4, i).present
    ensures if i == 0 then Entry(m, p3, i) == Pte(true, true, false, false, p2) else !Entry(m, p3, i).present
    ensures Entry(m, p2, i) == Pte(true, true, false, true, i * 512)
  {
    assert Words(m, p4, i) == if i == 0 then LinkWord(p3) else 0;
    assert Words(m, p3, i) == if i == 0 then LinkWord(p2) else 0;
    assert Words(m, p2, i) == LargeWord(i);
    DecodeLinkWord(p3);
    DecodeLinkWord(p2);
    DecodeLargeWord(i);
    DecodeZero();
    hide Decode, LinkWord, LargeWord;
  }

  /** The boot tables are a forest as the paging code needs it. */
  lemma BootTablesAreShaped(m: seq<byte>, p4: nat, p3: nat, p2: nat)
    requires BootLayout(m, p4, p3, p2)
    ensures Shaped(m, BootOwners(p4, p3, p2), p4)
  {
    var owner := BootOwners(p4, p3, p2);
    forall t, i | t in owner && owner[t].Level() >= 2 && 0 <= i < 512 && Links(m, owner[t].Level(), t, i)
      ensures var child := Entry(m, t, i).target;
        child in owner && owner[child] == Table(owner[t].Level() - 1, ParentOf(owner, p4, t, i), i)
    {
      BootEntries(m, p4, p3, p2, i);
    }
  }

  /** The first GiB is mapped to itself, for the kernel alone, and nothing else is mapped. */
  lemma BootTablesAreIdentity(m: seq<byte>, p4: nat, p3: nat, p2: nat, vp: nat)
    requires BootLayout(m, p4, p3, p2) && vp < PAGES
    ensures Translate(m, p4, vp) == if vp < IDENTITY_PAGES then Some(Mapping(vp, true, false)) else None
  {
    var i4, i3, i2 := Index(4, vp), Index(3, vp), Index(2, vp);
    BootEntries(m, p4, p3, p2, i4);
    BootEntries(m, p4, p3, p2, i3);
    BootEntries(m, p4, p3, p2, i2);
    InFirstGiB(vp);
    hide BootLayout, Entry, Index;
    if i4 == 0 && i3 == 0 {
      LargePage(m, p2, vp);
      OneLink(m, 3, p3, vp);
    }
    OneLink(m, 4, p4, vp);
  }

  lemma InFirstGiB(vp: nat)
    requires vp < PAGES
    ensures vp < IDENTITY_PAGES <==> Index(4, vp) == 0 && Index(3, vp) == 0
    ensures vp < IDENTITY_PAGES ==> Index(2, vp) == vp / 0x200
  {
    IndexDigits(vp);
  }

  /** One level of the walk. */
  lemma OneLink(m: seq<byte>, level: nat, t: nat, vp: nat)
    requires 3 <= level <= 4 && InMem(m, t)
    requires Entry(m, t, Index(level, vp)).present ==>
      Entry(m, t, Index(level, vp)) == Pte(true, true, false, false, Entry(m, t, Index(level, vp)).target)
    ensures var e := Entry(m, t, Index(level, vp));
      Path(m, level, t, vp) == if e.present then Path(m, level - 1, e.target, vp).Restrict(e) else Fault
  {
  }

  lemma LargePage(m: seq<byte>, p2: nat, vp: nat)
    requires InMem(m, p2) && vp < IDENTITY_PAGES && Index(2, vp) == vp / 0x200
    requires Entry(m, p2, Index(2, vp)) == Pte(true, true, false, true, Index(2, vp) * 512)
    ensures Path(m, 2, p2, vp) == Large(Mapping(vp, true, false))
  {
  }

  // ---- New address spaces ----

  /** A new address space translates as the current one does exactly when that maps nothing below 2^47. */
  lemma NewSpaceKeepsAllIff(a: Snapshot, b: Snapshot, kr: nat, cur: nat, f: nat)
    requires NewSpace(a, b, kr, cur, f)
    ensures (forall vp :: 0 <= vp < PAGES ==> Translate(b.mem, f, vp) == Translate(a.mem, cur, vp))
       <==> forall vp :: 0 <= vp < USER_PAGES ==> Translate(a.mem, cur, vp) == None
  {
    hide Translate;
    assert forall vp :: 0 <= vp < USER_PAGES ==> 0 <= vp < PAGES && Translate(b.mem, f, vp) == None;
  }

  /**
   The boot code maps the kernel in the lower half, which `create_address_space` does not copy.
   After any run of creations and user mappings, no page at all translates in a space just created.
   */
  lemma NewSpaceLosesKernel(
      worlds: seq<World>, moves: seq<Move>, p4: nat, p3: nat, p2: nat, f: nat, vp: nat)
    requires Trace(worlds, moves, p4) && IsRoot(worlds[0].snap.owner, p4)
    requires BootLayout(worlds[0].snap.mem, p4, p3, p2)
    requires |moves| > 0 && moves[|moves| - 1] == Create(p4, f) && vp < PAGES
    ensures Translate(worlds[|moves|].snap.mem, f, vp) == None
  {
    hide Translate;
    var n := |moves| - 1;
    assert Moved(worlds[n], worlds[n + 1], p4, moves[n]);
    forall i | 0 <= i < n ensures moves[..n][i].Map? ==> moves[..n][i].root != p4 {
      assert Moved(worlds[i], worlds[i + 1], p4, moves[i]);
    }
    OthersTranslateAsBefore(worlds[..n + 1], moves[..n], p4, p4);
    BootTablesAreIdentity(worlds[0].snap.mem, p4, p3, p2, vp);
  }
}
