/** The RAM filesystem: creating entries in the tree, and the bytes of its one-page files. */
module Ramfs {
  import opened Common
  import opened Paths

  const MAX_INODES: nat := 256
  const MAX_NAME: nat := 63
  const PAGE: nat := 4096

  datatype InodeType = FileType | Directory | Symlink | Device | Pipe

  /** `page` is the address of the data page, 0 for none; `size` is `data_size`. */
  datatype Inode = Inode(itype: InodeType, active: bool, page: nat, size: nat)

  type Inodes = seq<Inode>

  /** The two tables a create works on. */
  datatype Names = Names(inodes: Inodes, dentries: Dentries)

  // ---- Creating an entry ----

  function StoredName(name: Name): Name {
    name[..Min(|name|, MAX_NAME)]
  }

  function FreeInode(inodes: Inodes, i: nat): nat
    requires i <= |inodes|
  {
    FirstSuch(inodes, (n: Inode) => !n.active, i)
  }

  function FreeDentry(ds: Dentries, i: nat): nat
    requires i <= |ds|
  {
    FirstSuch(ds, (d: Dentry) => !d.active, i)
  }

  /** The first active entry for this inode at or after `i`, or -1. */
  function EntryOfInode(ds: Dentries, inode: nat, i: nat): (r: int)
    requires i <= |ds|
    ensures r == -1 || (i <= r < |ds| && ds[r].active && ds[r].inode == inode)
    ensures forall j :: i <= j < (if r == -1 then |ds| else r) && ds[j].active ==> ds[j].inode != inode
    decreases |ds| - i
  {
    if i == |ds| then -1 else if ds[i].active && ds[i].inode == inode then i else EntryOfInode(ds, inode, i + 1)
  }

  /** `alloc_dentry`: the first inactive slot; `activates` says whether it is also marked as used. */
  function AllocDentry(ds: Dentries, activates: bool): (Dentries, Option<nat>) {
    var k := FreeDentry(ds, 0);
    if k == |ds| then (ds, None) else (ds[k := ds[k].(active := activates)], Some(k))
  }

  /** What is done through `get_dentry_mut`, which refuses an inactive slot. */
  function FillDentry(ds: Dentries, k: nat, name: Name, inode: nat, parent: int): (Dentries, bool) {
    if k < |ds| && ds[k].active then (ds[k := Dentry(StoredName(name), inode, parent, true)], true) else (ds, false)
  }

  /** The entry half of a create. */
  function AddDentry(ds: Dentries, name: Name, inode: nat, parent: int, activates: bool): (Dentries, Option<nat>) {
    match AllocDentry(ds, activates)
    case (_, None) => (ds, None)
    case (ds1, Some(k)) =>
      var (ds2, filled) := FillDentry(ds1, k, name, inode, parent);
      (ds2, if filled then Some(k) else None)
  }

  /** The inode of the directory a path leads to. */
  function DirectoryAt(s: Names, path: seq<byte>): Option<nat> {
    match Lookup(s.dentries, path)
    case None => None
    case Some(d) =>
      if d < |s.dentries| && s.dentries[d].active && IsDirectory(s, d) then Some(s.dentries[d].inode) else None
  }

  predicate IsDirectory(s: Names, d: nat) {
    && d < |s.dentries| && s.dentries[d].inode < |s.inodes|
    && s.inodes[s.dentries[d].inode].active && s.inodes[s.dentries[d].inode].itype == Directory
  }

  /** The page `alloc_frame` gave for a new file, 0 when it gave none or the new inode is no file. */
  function Create(s: Names, path: seq<byte>, name: Name, itype: InodeType, page: nat, activates: bool)
    : (Names, Option<nat>)
  {
    match DirectoryAt(s, path)
    case None => (s, None)
    case Some(dir) =>
      var i := FreeInode(s.inodes, 0);
      if i == |s.inodes| then (s, None)
      else
        var parent := EntryOfInode(s.dentries, dir, 0);
        var (ds, k) := AddDentry(s.dentries, name, i, parent, activates);
        (Names(s.inodes[i := Inode(itype, true, page, 0)], ds), k)
  }

  /** The path leads to a directory and an inode is left: the calls that take an inode. */
  predicate TakesInode(s: Names, path: seq<byte>) {
    DirectoryAt(s, path).Some? && FreeInode(s.inodes, 0) < |s.inodes|
  }

  /** As the kernel has it no create succeeds, in any state: the getter refuses the slot that was just allocated. */
  lemma AsWrittenNothingIsCreated(s: Names, path: seq<byte>, name: Name, itype: InodeType, page: nat)
    ensures var (t, k) := Create(s, path, name, itype, page, false);
      && k.None? && t.dentries == s.dentries
      && t.inodes ==
           if TakesInode(s, path) then s.inodes[FreeInode(s.inodes, 0) := Inode(itype, true, page, 0)] else s.inodes
  {
    var k := FreeDentry(s.dentries, 0);
    if k < |s.dentries| {
      assert s.dentries[k := s.dentries[k].(active := false)] == s.dentries;
    }
  }

  /** One request to create an entry. */
  datatype Request = Request(path: seq<byte>, name: Name, itype: InodeType, page: nat)

  function Created(s: Names, requests: seq<Request>, activates: bool): Names
    decreases |requests|
  {
    if |requests| == 0 then s
    else
      var r := requests[0];
      Created(Create(s, r.path, r.name, r.itype, r.page, activates).0, requests[1..], activates)
  }

  ghost predicate NoEntries(s: Names) {
    forall i :: 0 <= i < |s.dentries| ==> !s.dentries[i].active
  }

  /** Without entries no path leads to a directory, whatever the inodes are. */
  lemma NoDirectoryWithoutEntries(s: Names, path: seq<byte>)
    requires NoEntries(s)
    ensures DirectoryAt(s, path).None?
  {
  }

  /**
   The tables start without entries, and as written nothing ever adds one: over every run of
   creates all tables stay as they were, inodes and pages included.
   */
  lemma {:induction false} AsWrittenNothingChanges(s: Names, requests: seq<Request>)
    requires NoEntries(s)
    ensures Created(s, requests, false) == s
    decreases |requests|
  {
    hide DirectoryAt;
    if |requests| != 0 {
      NoDirectoryWithoutEntries(s, requests[0].path);
      AsWrittenNothingChanges(s, requests[1..]);
    }
  }

  lemma AsWrittenFromBoot(requests: seq<Request>)
    ensures Created(Blank(), requests, false) == Blank()
  {
    AsWrittenNothingChanges(Blank(), requests);
  }

  // ---- The tree ----

  /** The first `n` entries are in use; each but the root has a parent before it and an inode of its own. */
  ghost predicate Tree(s: Names, n: nat) {
    && |s.inodes| == MAX_INODES && |s.dentries| == MAX_DENTRIES && 0 < n <= MAX_DENTRIES
    && (forall i :: 0 <= i < MAX_DENTRIES ==> (s.dentries[i].active <==> i < n))
    && s.dentries[0].parent == -1
    && (forall i :: 0 < i < n ==> 0 <= s.dentries[i].parent < i)
    && (forall i :: 0 <= i < n ==> s.dentries[i].inode < MAX_INODES && s.inodes[s.dentries[i].inode].active)
    && (forall i, j :: 0 <= i < j < n ==> s.dentries[i].inode != s.dentries[j].inode)
  }

  lemma {:induction false} WalkStaysInTree(s: Names, n: nat, cur: nat, names: seq<Name>)
    requires Tree(s, n) && cur < n
    ensures Walk(s.dentries, cur, names).Some? ==> cur <= Walk(s.dentries, cur, names).value < n
    decreases |names|
  {
    if |names| != 0 {
      match FindChild(s.dentries, cur, names[0], 0) {
        case Some(child) => WalkStaysInTree(s, n, child, names[1..]);
        case None =>
      }
    }
  }

  lemma {:induction false} NextDentry(ds: Dentries, n: nat, i: nat)
    requires i <= n <= |ds| && forall j :: 0 <= j < |ds| ==> (ds[j].active <==> j < n)
    ensures FreeDentry(ds, i) == n
    decreases n - i
  {
    if i < n {
      NextDentry(ds, n, i + 1);
    }
  }

  lemma EntryAdded(s: Names, n: nat, name: Name, inode: nat, parent: int)
    requires Tree(s, n)
    ensures AddDentry(s.dentries, name, inode, parent, true) ==
      if n == MAX_DENTRIES then (s.dentries, None)
      else (s.dentries[n := Dentry(StoredName(name), inode, parent, true)], Some(n))
  {
    NextDentry(s.dentries, n, 0);
    if n < MAX_DENTRIES {
      var marked := s.dentries[n := s.dentries[n].(active := true)];
      var entry := Dentry(StoredName(name), inode, parent, true);
      assert marked[n := entry] == s.dentries[n := entry];
    }
  }

  lemma DirectoryInTree(s: Names, n: nat, path: seq<byte>)
    requires Tree(s, n) && DirectoryAt(s, path).Some?
    ensures Lookup(s.dentries, path).value < n
    ensures EntryOfInode(s.dentries, DirectoryAt(s, path).value, 0) == Lookup(s.dentries, path).value
  {
    WalkStaysInTree(s, n, 0, Components(path));
  }

  lemma OneEntryMore(s: Names, n: nat, i: nat, entry: Dentry, node: Inode)
    requires Tree(s, n) && n < MAX_DENTRIES && i < MAX_INODES && !s.inodes[i].active
    requires entry.active && entry.inode == i && 0 <= entry.parent < n && node.active
    ensures Tree(Names(s.inodes[i := node], s.dentries[n := entry]), n + 1)
  {
  }

  /** The inodes of the first `k` entries. */
  ghost function InodesOf(ds: Dentries, k: nat): set<nat>
    requires k <= |ds|
  {
    set i: nat | i < k :: ds[i].inode
  }

  lemma {:induction false} InodesDiffer(ds: Dentries, k: nat)
    requires k <= |ds| && forall i, j :: 0 <= i < j < k ==> ds[i].inode != ds[j].inode
    ensures |InodesOf(ds, k)| == k
  {
    if k == 0 {
      assert InodesOf(ds, 0) == {};
    } else {
      InodesDiffer(ds, k - 1);
      assert InodesOf(ds, k) == InodesOf(ds, k - 1) + {ds[k - 1].inode};
    }
  }

  /** A tree that fills the table has no inode left either, so an inode is never taken in vain. */
  lemma FullTreeUsesAllInodes(s: Names)
    requires Tree(s, MAX_DENTRIES)
    ensures FreeInode(s.inodes, 0) == |s.inodes|
  {
    var taken := InodesOf(s.dentries, MAX_DENTRIES);
    InodesDiffer(s.dentries, MAX_DENTRIES);
    RangeSize(0, MAX_INODES);
    SubsetSize(taken, Range(0, MAX_INODES));
    forall i | 0 <= i < MAX_INODES ensures s.inodes[i].active {
      assert i in Range(0, MAX_INODES);
    }
  }

  /**
   A create succeeds exactly when it takes an inode, and otherwise changes nothing.  The entry it
   adds is the next one, under the entry the path led to.
   */
  lemma CreateAddsEntry(s: Names, n: nat, path: seq<byte>, name: Name, itype: InodeType, page: nat)
    requires Tree(s, n)
    ensures var (t, k) := Create(s, path, name, itype, page, true);
      && (k.Some? <==> TakesInode(s, path))
      && (k.Some? ==>
            && n < MAX_DENTRIES && k.value == n && Tree(t, n + 1)
            && t.dentries == s.dentries[n := t.dentries[n]]
            && t.dentries[n].parent == Lookup(s.dentries, path).value < n
            && t.dentries[n].name == StoredName(name)
            && t.dentries[n].inode == FreeInode(s.inodes, 0)
            && t.inodes == s.inodes[t.dentries[n].inode := Inode(itype, true, page, 0)])
      && (k.None? ==> t == s)
  {
    if TakesInode(s, path) {
      if n == MAX_DENTRIES {
        FullTreeUsesAllInodes(s);
      }
      var i, d := FreeInode(s.inodes, 0), Lookup(s.dentries, path).value;
      DirectoryInTree(s, n, path);
      EntryAdded(s, n, name, i, d);
      assert |s.dentries| == MAX_DENTRIES && |s.inodes| == MAX_INODES && !s.inodes[i].active;
      hide AddDentry, DirectoryAt, EntryOfInode, Lookup, Tree;
      OneEntryMore(s, n, i, Dentry(StoredName(name), i, d, true), Inode(itype, true, page, 0));
    }
  }

  // ---- What a new entry changes for lookups ----

  /** `ds2` is `ds` with the new entry `n`, named `name`, under `d`. */
  ghost predicate Added(ds: Dentries, ds2: Dentries, n: nat, d: nat, name: Name) {
    && |ds2| == |ds| && d < n < |ds| && (forall i :: 0 <= i < |ds| ==> (ds[i].active <==> i < n))
    && (forall i :: 0 <= i < n ==> -1 <= ds[i].parent < i)
    && ds2 == ds[n := ds2[n]] && ds2[n].active && ds2[n].parent == d && ds2[n].name == name
  }

  lemma FindChildAfter(ds: Dentries, ds2: Dentries, n: nat, d: nat, name: Name, parent: nat, c: Name)
    requires Added(ds, ds2, n, d, name)
    ensures FindChild(ds2, parent, c, 0) ==
      if FindChild(ds, parent, c, 0).Some? then FindChild(ds, parent, c, 0)
      else if parent == d && c == name then Some(n)
      else None
  {
    var r, r2 := FindChild(ds, parent, c, 0), FindChild(ds2, parent, c, 0);
    assert forall j: nat :: j < |ds| && j != n ==> (IsChild(ds2, j, parent, c) <==> IsChild(ds, j, parent, c));
    assert !IsChild(ds, n, parent, c);
    assert IsChild(ds2, n, parent, c) <==> parent == d && c == name;
    assert r.Some? ==> r.value < n;
  }

  /** Whatever was found before is found now. */
  lemma {:induction false} WalkKept(ds: Dentries, ds2: Dentries, n: nat, d: nat, name: Name, cur: nat, names: seq<Name>)
    requires Added(ds, ds2, n, d, name)
    requires Walk(ds, cur, names).Some?
    ensures Walk(ds2, cur, names) == Walk(ds, cur, names)
    decreases |names|
  {
    if |names| != 0 {
      FindChildAfter(ds, ds2, n, d, name, cur, names[0]);
      WalkKept(ds, ds2, n, d, name, FindChild(ds, cur, names[0], 0).value, names[1..]);
    }
  }

  /** Indices only grow on the way down, so no walk that is past `d` reaches the new entry. */
  lemma {:induction false} PastTheParent(
      ds: Dentries, ds2: Dentries, n: nat, d: nat, name: Name, cur: nat, names: seq<Name>)
    requires Added(ds, ds2, n, d, name) && d < cur < n
    ensures Walk(ds2, cur, names) != Some(n)
    decreases |names|
  {
    if |names| != 0 {
      FindChildAfter(ds, ds2, n, d, name, cur, names[0]);
      match FindChild(ds, cur, names[0], 0) {
        case Some(child) => PastTheParent(ds, ds2, n, d, name, child, names[1..]);
        case None =>
      }
    }
  }

  /** From `d` the new entry is reached by its own name and nothing else, unless that was taken. */
  lemma WalkToNew(ds: Dentries, ds2: Dentries, n: nat, d: nat, name: Name, names: seq<Name>)
    requires Added(ds, ds2, n, d, name)
    ensures Walk(ds2, d, names) == Some(n) <==> names == [name] && FindChild(ds, d, name, 0).None?
  {
    if |names| != 0 {
      FindChildAfter(ds, ds2, n, d, name, d, names[0]);
      match FindChild(ds, d, names[0], 0) {
        case Some(child) => PastTheParent(ds, ds2, n, d, name, child, names[1..]);
        case None =>
          if |names| > 1 {
            FindChildAfter(ds, ds2, n, d, name, n, names[1]);
            assert FindChild(ds, n, names[1], 0).None?;
          }
      }
    }
  }

  /**
   After a successful create every earlier lookup still gives what it gave, and the new path leads
   to the new entry exactly when the name is its own single component once cut to 63 bytes and
   the directory had no entry of that name.
   */
  lemma CreateThenLookup(s: Names, n: nat, path: seq<byte>, name: Name, itype: InodeType, page: nat)
    requires Tree(s, n) && Create(s, path, name, itype, page, true).1.Some?
    ensures var (t, k) := Create(s, path, name, itype, page, true);
      && (forall q :: Lookup(s.dentries, q).Some? ==> Lookup(t.dentries, q) == Lookup(s.dentries, q))
      && (Lookup(t.dentries, path + [SLASH] + name) == k <==>
            && Components(name) == [StoredName(name)]
            && FindChild(s.dentries, Lookup(s.dentries, path).value, StoredName(name), 0).None?)
  {
    var (t, k) := Create(s, path, name, itype, page, true);
    CreateAddsEntry(s, n, path, name, itype, page);
    var d := Lookup(s.dentries, path).value;
    assert Added(s.dentries, t.dentries, n, d, StoredName(name));
    forall q | Lookup(s.dentries, q).Some? ensures Lookup(t.dentries, q) == Lookup(s.dentries, q) {
      WalkKept(s.dentries, t.dentries, n, d, StoredName(name), 0, Components(q));
    }
    LookupComposes(t.dentries, path, name);
    WalkToNew(s.dentries, t.dentries, n, d, StoredName(name), Components(name));
  }

  /** For names of at most 63 bytes the condition is a non-empty, slash-free, new name. */
  lemma ShortNames(name: Name)
    requires |name| <= MAX_NAME
    ensures Components(name) == [StoredName(name)] <==> ProperName(name)
  {
    assert StoredName(name) == name;
    ProperNameIsOneComponent(name);
  }

  // ---- Mounting ----

  /** An inode and an entry for a directory; the slot is reported also when the getter refuses it. */
  function AddSubdir(s: Names, parent: int, name: Name, activates: bool): (Names, Option<nat>) {
    var i := FreeInode(s.inodes, 0);
    if i == |s.inodes| then (s, None)
    else
      var inodes := s.inodes[i := Inode(Directory, true, 0, 0)];
      match AllocDentry(s.dentries, activates)
      case (ds, None) => (Names(inodes, ds), None)
      case (ds, Some(k)) => (Names(inodes, FillDentry(ds, k, name, i, parent).0), Some(k))
  }

  function AddSubdirs(s: Names, parent: nat, names: seq<Name>, activates: bool): Names
    decreases |names|
  {
    if |names| == 0 then s
    else AddSubdirs(AddSubdir(s, parent, names[0], activates).0, parent, names[1..], activates)
  }

  /** dev, sys, proc, mnt, tmp, drives */
  const BASE_DIRECTORIES: seq<Name> := [
    [100, 101, 118], [115, 121, 115], [112, 114, 111, 99], [109, 110, 116], [116, 109, 112],
    [100, 114, 105, 118, 101, 115]]

  /** The `.bss` image of the tables. */
  function Blank(): Names {
    Names(seq(MAX_INODES, i => Inode(FileType, false, 0, 0)), seq(MAX_DENTRIES, i => Dentry([], 0, -1, false)))
  }

  /** The root and, under the slot it got, the base directories; nothing under a root without a slot. */
  function Mounted(s: Names, activates: bool): Names {
    match AddSubdir(s, -1, [SLASH], activates)
    case (t, None) => t
    case (t, Some(root)) => AddSubdirs(t, root, BASE_DIRECTORIES, activates)
  }

  const MAX_SUPERBLOCKS: nat := 8

  datatype Superblock = Superblock(active: bool, fsType: Name, rootInode: nat)

  type Superblocks = seq<Superblock>

  /** ramfs */
  const RAMFS: Name := [114, 97, 109, 102, 115]

  function FreeBlock(bs: Superblocks, i: nat): nat
    requires i <= |bs|
  {
    FirstSuch(bs, (b: Superblock) => !b.active, i)
  }

  /** `alloc_superblock`: as for entries, `activates` says whether the slot is marked as used. */
  function AllocSuperblock(bs: Superblocks, activates: bool): (Superblocks, Option<nat>) {
    var k := FreeBlock(bs, 0);
    if k == |bs| then (bs, None) else (bs[k := bs[k].(active := activates)], Some(k))
  }

  datatype Tables = Tables(blocks: Superblocks, names: Names)

  /** `ramfs::init`: without a superblock nothing happens; the getter's refusal of the slot stops the kernel. */
  function Mount(t: Tables, activates: bool): Outcome<Tables> {
    match AllocSuperblock(t.blocks, activates)
    case (_, None) => Returned(t)
    case (bs, Some(k)) =>
      if k >= |bs| || !bs[k].active then Panicked
      else
        var i := FreeInode(t.names.inodes, 0);
        var root := if i < |t.names.inodes| then i else bs[k].rootInode;
        Returned(Tables(bs[k := Superblock(true, RAMFS, root)], Mounted(t.names, activates)))
  }

  /** Mounting stops the kernel if and only if a superblock is left and allocation does not activate it. */
  lemma MountPanics(t: Tables, activates: bool)
    ensures Mount(t, activates).Panicked? <==> !activates && exists i :: 0 <= i < |t.blocks| && !t.blocks[i].active
  {
    var k := FreeBlock(t.blocks, 0);
    assert k < |t.blocks| ==> !t.blocks[k].active;
  }

  lemma SubdirAdded(s: Names, n: nat, name: Name)
    requires Tree(s, n) && n < MAX_DENTRIES && FreeInode(s.inodes, 0) < MAX_INODES
    ensures var t := AddSubdir(s, 0, name, true).0;
      Tree(t, n + 1) && Added(s.dentries, t.dentries, n, 0, StoredName(name))
    ensures var t := AddSubdir(s, 0, name, true).0;
      t.inodes == s.inodes[FreeInode(s.inodes, 0) := Inode(Directory, true, 0, 0)]
  {
    NextDentry(s.dentries, n, 0);
  }

  /** The inodes in use are the first `n`, one for each entry, and all are directories. */
  ghost predicate Packed(s: Names, n: nat) {
    && Tree(s, n)
    && (forall i :: 0 <= i < MAX_INODES ==> (s.inodes[i].active <==> i < n))
    && (forall i :: 0 <= i < n ==> IsDirectory(s, i))
  }

  lemma {:induction false} NextInode(inodes: Inodes, n: nat, i: nat)
    requires i <= n <= |inodes| && forall j :: 0 <= j < |inodes| ==> (inodes[j].active <==> j < n)
    ensures FreeInode(inodes, i) == n
    decreases n - i
  {
    if i < n {
      NextInode(inodes, n, i + 1);
    }
  }

  lemma OneSubdir(s: Names, n: nat, name: Name)
    requires Packed(s, n) && n < MAX_DENTRIES
    ensures Packed(AddSubdir(s, 0, name, true).0, n + 1)
    ensures forall c ::
      FindChild(AddSubdir(s, 0, name, true).0.dentries, 0, c, 0) ==
        if FindChild(s.dentries, 0, c, 0).Some? then FindChild(s.dentries, 0, c, 0)
        else if c == StoredName(name) then Some(n) else None
  {
    var u := AddSubdir(s, 0, name, true).0;
    NextInode(s.inodes, n, 0);
    SubdirAdded(s, n, name);
    forall i | 0 <= i < n + 1 ensures IsDirectory(u, i) {
      if i < n {
        assert IsDirectory(s, i) && u.dentries[i] == s.dentries[i];
      } else {
        assert u.dentries[n].inode == n;
      }
    }
    forall c ensures FindChild(u.dentries, 0, c, 0) ==
        if FindChild(s.dentries, 0, c, 0).Some? then FindChild(s.dentries, 0, c, 0)
        else if c == StoredName(name) then Some(n) else None
    {
      FindChildAfter(s.dentries, u.dentries, n, 0, StoredName(name), 0, c);
    }
  }

  lemma {:induction false} SubdirsAdded(s: Names, n: nat, names: seq<Name>)
    requires Packed(s, n) && n + |names| <= MAX_DENTRIES
    requires forall i, j :: 0 <= i < j < |names| ==> StoredName(names[i]) != StoredName(names[j])
    requires forall i :: 0 <= i < |names| ==> FindChild(s.dentries, 0, StoredName(names[i]), 0).None?
    ensures var t := AddSubdirs(s, 0, names, true);
      && Packed(t, n + |names|)
      && (forall i :: 0 <= i < |names| ==> FindChild(t.dentries, 0, StoredName(names[i]), 0) == Some(n + i))
      && (forall c :: FindChild(s.dentries, 0, c, 0).Some? ==>
            FindChild(t.dentries, 0, c, 0) == FindChild(s.dentries, 0, c, 0))
    decreases |names|
  {
    hide FindChild, AddSubdir, StoredName, Packed;
    if |names| != 0 {
      var rest := names[1..];
      OneSubdir(s, n, names[0]);
      SubdirsAdded(AddSubdir(s, 0, names[0], true).0, n + 1, rest);
      assert forall i :: 0 < i < |names| ==> names[i] == rest[i - 1];
    }
  }

  lemma RootMounted()
    ensures AddSubdir(Blank(), -1, [SLASH], true).1 == Some(0)
    ensures var s := AddSubdir(Blank(), -1, [SLASH], true).0;
      Packed(s, 1) && forall c :: FindChild(s.dentries, 0, c, 0).None?
  {
    assert FreeInode(Blank().inodes, 0) == 0 && FreeDentry(Blank().dentries, 0) == 0;
  }

  predicate BaseName(name: Name) {
    ProperName(name) && |name| <= 6
  }

  /** After mounting, the root and the base directories form the tree, and each is found by its path. */
  lemma MountedWith(names: seq<Name>)
    requires forall i :: 0 <= i < |names| ==> BaseName(names[i])
    requires |names| < MAX_DENTRIES && forall i, j :: 0 <= i < j < |names| ==> names[i] != names[j]
    ensures var t := AddSubdirs(AddSubdir(Blank(), -1, [SLASH], true).0, 0, names, true);
      Packed(t, 1 + |names|) && forall i :: 0 <= i < |names| ==> Lookup(t.dentries, [SLASH] + names[i]) == Some(i + 1)
  {
    hide FindChild, AddSubdir, AddSubdirs, Lookup, Packed;
    var s := AddSubdir(Blank(), -1, [SLASH], true).0;
    RootMounted();
    forall i | 0 <= i < |names| ensures StoredName(names[i]) == names[i] {
      assert BaseName(names[i]);
      RootPath(names[i]);
    }
    SubdirsAdded(s, 1, names);
    var t := AddSubdirs(s, 0, names, true);
    forall i | 0 <= i < |names| ensures Lookup(t.dentries, [SLASH] + names[i]) == Some(i + 1) {
      assert BaseName(names[i]);
      FoundInRoot(t.dentries, names[i], i + 1);
    }
  }

  lemma FoundInRoot(ds: Dentries, name: Name, i: nat)
    requires BaseName(name) && FindChild(ds, 0, name, 0) == Some(i)
    ensures Lookup(ds, [SLASH] + name) == Some(i)
  {
    hide FindChild;
    RootPath(name);
    assert Walk(ds, i, []) == Some(i);
  }

  lemma RootPath(name: Name)
    requires BaseName(name)
    ensures StoredName(name) == name && Components([SLASH] + name) == [name]
  {
    ProperNameIsOneComponent(name);
    assert [] + [SLASH] + name == [SLASH] + name;
    ComponentsOfSlash([], name);
  }

  lemma BaseNames()
    ensures forall i :: 0 <= i < |BASE_DIRECTORIES| ==> BaseName(BASE_DIRECTORIES[i])
    ensures forall i, j :: 0 <= i < j < |BASE_DIRECTORIES| ==> BASE_DIRECTORIES[i] != BASE_DIRECTORIES[j]
  {
    assert BASE_DIRECTORIES[0][0] != BASE_DIRECTORIES[2][0];
    assert |BASE_DIRECTORIES[0]| == 3 && |BASE_DIRECTORIES[2]| == 4 && |BASE_DIRECTORIES[5]| == 6;
    assert BASE_DIRECTORIES[0][0] == 100 && BASE_DIRECTORIES[1][0] == 115;
    assert BASE_DIRECTORIES[3][0] == 109 && BASE_DIRECTORIES[4][0] == 116;
  }

  lemma MountedTree()
    ensures Packed(Mounted(Blank(), true), 7)
    ensures forall i :: 0 <= i < 6 ==>
      Lookup(Mounted(Blank(), true).dentries, [SLASH] + BASE_DIRECTORIES[i]) == Some(i + 1)
  {
    hide AddSubdirs, AddSubdir, Packed, Lookup;
    BaseNames();
    RootMounted();
    MountedWith(BASE_DIRECTORIES);
  }

  /** What a mount that finds a superblock and an inode does with them, and with the entry for the root. */
  lemma MountEffect(t: Tables, k: nat)
    requires |t.names.inodes| == MAX_INODES && |t.names.dentries| == MAX_DENTRIES && k < |t.blocks|
    requires !t.blocks[k].active && forall j :: 0 <= j < k ==> t.blocks[j].active
    requires exists i :: 0 <= i < MAX_INODES && !t.names.inodes[i].active
    ensures Mount(t, true).Returned?
    ensures var r, i := Mount(t, true).value, FreeInode(t.names.inodes, 0);
      && |r.blocks| == |t.blocks| && i < MAX_INODES && !t.names.inodes[i].active
      && r.blocks[k].active && r.blocks[k].fsType == [114, 97, 109, 102, 115] && r.blocks[k].rootInode == i
      && (forall j :: 0 <= j < |t.blocks| && j != k ==> r.blocks[j] == t.blocks[j])
      && r.names == Mounted(t.names, true)
  {
    hide Mounted;
    assert FreeBlock(t.blocks, 0) == k;
  }

  /** The root is a directory without a parent. */
  lemma RootEntry(s: Names)
    requires |s.inodes| == MAX_INODES && |s.dentries| == MAX_DENTRIES
    requires FreeInode(s.inodes, 0) < MAX_INODES && FreeDentry(s.dentries, 0) < MAX_DENTRIES
    ensures var (t, slot) := AddSubdir(s, -1, [47], true);
      && slot == Some(FreeDentry(s.dentries, 0))
      && t.dentries == s.dentries[slot.value := Dentry([47], FreeInode(s.inodes, 0), -1, true)]
      && t.inodes == s.inodes[FreeInode(s.inodes, 0) := Inode(Directory, true, 0, 0)]
  {
    var k, i := FreeDentry(s.dentries, 0), FreeInode(s.inodes, 0);
    var marked := s.dentries[k := s.dentries[k].(active := true)];
    var entry := Dentry([47], i, -1, true);
    assert marked[k := entry] == s.dentries[k := entry];
    assert StoredName([47]) == [47];
  }

  // ---- Mounting a second time ----

  /** `ds2` is `ds` with entries from slot `n` on that hang below no entry before `n`. */
  ghost predicate Beside(ds: Dentries, ds2: Dentries, n: nat) {
    && |ds2| == |ds| && n <= |ds|
    && (forall i :: 0 <= i < |ds| ==> (ds[i].active <==> i < n))
    && (forall i :: 0 <= i < n ==> ds2[i] == ds[i])
    && (forall i :: n <= i < |ds| && ds2[i].active ==> ds2[i].parent == -1 || ds2[i].parent >= n)
  }

  lemma SubdirBeside(ds: Dentries, s: Names, n: nat, parent: int, name: Name, activates: bool)
    requires Beside(ds, s.dentries, n) && (parent == -1 || parent >= n)
    ensures var (t, k) := AddSubdir(s, parent, name, activates);
      Beside(ds, t.dentries, n) && (k.Some? ==> k.value >= n)
  {
    assert forall i :: 0 <= i < n ==> s.dentries[i].active;
  }

  lemma {:induction false} SubdirsBeside(ds: Dentries, s: Names, n: nat, parent: nat, names: seq<Name>, activates: bool)
    requires Beside(ds, s.dentries, n) && parent >= n
    ensures Beside(ds, AddSubdirs(s, parent, names, activates).dentries, n)
    decreases |names|
  {
    hide Beside, AddSubdir;
    if |names| != 0 {
      SubdirBeside(ds, s, n, parent, names[0], activates);
      SubdirsBeside(ds, AddSubdir(s, parent, names[0], activates).0, n, parent, names[1..], activates);
    }
  }

  lemma {:induction false} WalkBeside(ds: Dentries, ds2: Dentries, n: nat, cur: nat, names: seq<Name>)
    requires Beside(ds, ds2, n) && cur < n
    ensures Walk(ds2, cur, names) == Walk(ds, cur, names)
    decreases |names|
  {
    if |names| != 0 {
      var c := names[0];
      assert forall i: nat :: i < |ds| ==> (IsChild(ds2, i, cur, c) <==> IsChild(ds, i, cur, c));
      match FindChild(ds, cur, c, 0) {
        case Some(child) => WalkBeside(ds, ds2, n, child, names[1..]);
        case None =>
      }
    }
  }

  /** Mounting on a table that is a tree already, as the recovery does, changes what no path leads to. */
  lemma RemountIsInvisible(s: Names, n: nat, path: seq<byte>, activates: bool)
    requires Tree(s, n)
    ensures Lookup(Mounted(s, activates).dentries, path) == Lookup(s.dentries, path)
  {
    hide AddSubdir, AddSubdirs, Components, Walk, FindChild;
    var ds := s.dentries;
    SubdirBeside(ds, s, n, -1, [SLASH], activates);
    match AddSubdir(s, -1, [SLASH], activates) {
      case (t, None) =>
      case (t, Some(root)) => SubdirsBeside(ds, t, n, root, BASE_DIRECTORIES, activates);
    }
    WalkBeside(ds, Mounted(s, activates).dentries, n, 0, Components(path));
  }

  // ---- File contents ----

  function Zeros(n: nat): (z: seq<byte>)
    ensures |z| == n && forall k :: 0 <= k < n ==> z[k] == 0
  {
    seq(n, i => 0)
  }

  /** How much of `data` fits below the end of the page. */
  function Fitting(o: nat, data: seq<byte>): (n: nat)
    ensures n <= |data| && (o <= PAGE ==> o + n <= PAGE)
  {
    if o >= PAGE then 0 else Min(|data|, PAGE - o)
  }

  function Padded(c: seq<byte>, o: nat): (p: seq<byte>)
    ensures |p| == if |c| < o then o else |c|
  {
    if |c| < o then c + Zeros(o - |c|) else c
  }

  /** A write at offset `o`: the fitting prefix of `data` over the old content, a gap filled with zeros. */
  function Written(c: seq<byte>, o: nat, data: seq<byte>): (r: seq<byte>)
    requires |c| <= PAGE
    ensures |r| <= PAGE
    ensures o < PAGE ==> |r| == if |c| < o + Fitting(o, data) then o + Fitting(o, data) else |c|
  {
    if o >= PAGE then c
    else
      var n, p := Fitting(o, data), Padded(c, o);
      p[..o] + data[..n] + if o + n < |p| then p[o + n..] else []
  }

  /** A read of at most `n` bytes at offset `o`. */
  function Slice(c: seq<byte>, o: nat, n: nat): seq<byte> {
    if o >= |c| then [] else c[o..Min(o + n, |c|)]
  }

  /** What was written is read back; bytes before and after it, up to the old end, are as they were; a gap is zero. */
  lemma ReadAfterWrite(c: seq<byte>, o: nat, data: seq<byte>)
    requires |c| <= PAGE && o < PAGE
    ensures var r, n := Written(c, o, data), Fitting(o, data);
      && Slice(r, o, n) == data[..n]
      && (forall k :: 0 <= k < |r| && !(o <= k < o + n) ==> r[k] == if k < |c| then c[k] else 0)
  {
  }

  /** Writing a file in two successive pieces is writing it at once. */
  lemma WritesCompose(c: seq<byte>, o: nat, a: seq<byte>, b: seq<byte>)
    requires |c| <= PAGE && o + |a| < PAGE
    ensures Written(Written(c, o, a), o + |a|, b) == Written(c, o, a + b)
  {
    hide Written, Padded, Slice;
    var r1 := Written(c, o, a);
    var r2, r3 := Written(r1, o + |a|, b), Written(c, o, a + b);
    WrittenBytes(c, o, a);
    WrittenBytes(r1, o + |a|, b);
    WrittenBytes(c, o, a + b);
    forall k | 0 <= k < |r2| ensures r2[k] == r3[k] {
    }
  }

  lemma WrittenBytes(c: seq<byte>, o: nat, data: seq<byte>)
    requires |c| <= PAGE && o < PAGE
    ensures var r := Written(c, o, data);
      forall k :: 0 <= k < |r| ==>
        r[k] == if o <= k < o + Fitting(o, data) then data[k - o] else if k < |c| then c[k] else 0
  {
  }

  /** The page of a file: its content, then zeros. */
  ghost predicate PageHolds(page: seq<byte>, c: seq<byte>) {
    |page| == PAGE && |c| <= PAGE && page == c + Zeros(PAGE - |c|)
  }

  /** Copying the fitting prefix into the page is the write of the content; bytes past the end stay zero. */
  lemma PageWritten(page: seq<byte>, c: seq<byte>, o: nat, data: seq<byte>)
    requires PageHolds(page, c) && o < PAGE
    ensures var n := Fitting(o, data);
      PageHolds(page[..o] + data[..n] + page[o + n..], Written(c, o, data))
  {
    hide Written, Zeros;
    var n, r := Fitting(o, data), Written(c, o, data);
    var page2 := page[..o] + data[..n] + page[o + n..];
    WrittenBytes(c, o, data);
    forall k | 0 <= k < PAGE ensures page2[k] == (r + Zeros(PAGE - |r|))[k] {
      assert page[k] == if k < |c| then c[k] else 0;
    }
  }

  // ---- Descriptors over file contents ----

  const MAX_OPEN_FILES: nat := 128

  datatype OpenFile = OpenFile(inode: nat, offset: nat, mode: nat, active: bool)

  /** The filesystem as descriptors see it: the kind of each inode in use, file contents, open files. */
  datatype Disk = Disk(kinds: seq<Option<InodeType>>, contents: seq<seq<byte>>, files: seq<OpenFile>)

  ghost predicate Sound(d: Disk) {
    && |d.kinds| == |d.contents| == MAX_INODES && |d.files| == MAX_OPEN_FILES
    && forall i :: 0 <= i < MAX_INODES ==> |d.contents[i]| <= PAGE
  }

  /** A descriptor in use whose inode is in use. */
  predicate Usable(d: Disk, fd: nat) {
    && fd < |d.files| && d.files[fd].active
    && d.files[fd].inode < |d.kinds| && d.kinds[d.files[fd].inode].Some?
  }

  predicate IsFile(d: Disk, i: nat) {
    i < |d.kinds| && d.kinds[i] == Some(FileType)
  }

  /** The bytes read; `None` for the error -1.  Only regular files have bytes. */
  function ReadFd(d: Disk, fd: nat, n: nat): (Disk, Option<seq<byte>>)
    requires |d.kinds| == |d.contents|
  {
    if !Usable(d, fd) then (d, None)
    else
      var f := d.files[fd];
      var bytes := if IsFile(d, f.inode) then Slice(d.contents[f.inode], f.offset, n) else [];
      (d.(files := d.files[fd := f.(offset := f.offset + |bytes|)]), Some(bytes))
  }

  /** The number of bytes written; `None` for the error -1, which also stands for a file that got no page. */
  function WriteFd(d: Disk, fd: nat, data: seq<byte>, hasPage: bool): (Disk, Option<nat>)
    requires |d.kinds| == |d.contents| && forall i :: 0 <= i < |d.contents| ==> |d.contents[i]| <= PAGE
  {
    if !Usable(d, fd) then (d, None)
    else
      var f := d.files[fd];
      if !IsFile(d, f.inode) then (d, Some(0))
      else if !hasPage then (d, None)
      else
        var n := Fitting(f.offset, data);
        (d.(contents := d.contents[f.inode := Written(d.contents[f.inode], f.offset, data)],
            files := d.files[fd := f.(offset := f.offset + n)]), Some(n))
  }

  function SeekFd(d: Disk, fd: nat, offset: nat): (Disk, bool) {
    if fd < |d.files| && d.files[fd].active then
      (d.(files := d.files[fd := d.files[fd].(offset := offset)]), true)
    else (d, false)
  }

  function CloseFd(d: Disk, fd: nat): Disk {
    if fd < |d.files| then d.(files := d.files[fd := d.files[fd].(active := false)]) else d
  }

  function FreeFile(files: seq<OpenFile>, i: nat): nat
    requires i <= |files|
  {
    FirstSuch(files, (f: OpenFile) => !f.active, i)
  }

  /** `inode` is where path lookup led, if anywhere. */
  function OpenFd(d: Disk, inode: Option<nat>, mode: nat): (Disk, Option<nat>) {
    if inode.None? || inode.value >= |d.kinds| || d.kinds[inode.value].None? then (d, None)
    else
      var k := FreeFile(d.files, 0);
      if k == |d.files| then (d, None)
      else (d.(files := d.files[k := OpenFile(inode.value, 0, mode, true)]), Some(k))
  }

  // ---- What each call on a descriptor does ----

  /** A write stores as much as fits below 4096 bytes; it fails exactly without a usable descriptor or a page. */
  lemma WriteCounts(d: Disk, fd: nat, data: seq<byte>, hasPage: bool)
    requires Sound(d)
    ensures var (d2, count) := WriteFd(d, fd, data, hasPage);
      && (count.None? <==> !Usable(d, fd) || (IsFile(d, d.files[fd].inode) && !hasPage))
      && (count.None? ==> d2 == d)
      && (count.Some? && !IsFile(d, d.files[fd].inode) ==> count.value == 0 && d2 == d)
      && (count.Some? && IsFile(d, d.files[fd].inode) ==>
            var o := d.files[fd].offset;
            && count.value == (if o >= 4096 then 0 else Min(|data|, 4096 - o))
            && d2.files == d.files[fd := d.files[fd].(offset := o + count.value)])
  {
  }

  /** Two writes in a row through one descriptor are one write of both pieces: contents, offset and counts. */
  lemma WritesOfDescriptorCompose(d: Disk, fd: nat, a: seq<byte>, b: seq<byte>)
    requires Sound(d) && Usable(d, fd) && IsFile(d, d.files[fd].inode)
    ensures var (d1, m) := WriteFd(d, fd, a, true);
      && Sound(d1)
      && var ((d2, n), (d3, k)) := (WriteFd(d1, fd, b, true), WriteFd(d, fd, a + b, true));
        && d2 == d3 && m.Some? && n.Some? && k.Some? && m.value + n.value == k.value
  {
    hide Written;
    var f := d.files[fd];
    var c, o := d.contents[f.inode], f.offset;
    if o + |a| < PAGE {
      WritesCompose(c, o, a, b);
    } else if o < PAGE {
      WriteFillsPage(c, o, a, b);
    }
    NoRoomNoWrite(Written(c, o, a), o + Fitting(o, a), b);
    NoRoomNoWrite(c, o, a);
    NoRoomNoWrite(c, o, a + b);
    var d1 := WriteFd(d, fd, a, true).0;
    var d2, d3 := WriteFd(d1, fd, b, true).0, WriteFd(d, fd, a + b, true).0;
    assert d2.files == d3.files;
    assert d2.contents == d3.contents;
  }

  lemma NoRoomNoWrite(c: seq<byte>, o: nat, data: seq<byte>)
    requires |c| <= PAGE
    ensures o >= PAGE ==> Written(c, o, data) == c && Fitting(o, data) == 0
  {
  }

  /** A piece that reaches the end of the page leaves no room for the next. */
  lemma WriteFillsPage(c: seq<byte>, o: nat, a: seq<byte>, b: seq<byte>)
    requires |c| <= PAGE && o < PAGE <= o + |a|
    ensures Written(c, o, a + b) == Written(c, o, a) && Fitting(o, a) == Fitting(o, a + b) == PAGE - o
  {
    assert (a + b)[..PAGE - o] == a[..PAGE - o];
  }

  /** A read right after a write goes on behind what was written. */
  lemma ReadGoesOnAfterWrite(d: Disk, fd: nat, data: seq<byte>, n: nat)
    requires Sound(d) && Usable(d, fd) && IsFile(d, d.files[fd].inode)
    ensures var (d1, count) := WriteFd(d, fd, data, true);
      && Sound(d1) && count.Some?
      && ReadFd(d1, fd, n).1 == Some(Slice(d.contents[d.files[fd].inode], d.files[fd].offset + count.value, n))
  {
    var f := d.files[fd];
    var c, o := d.contents[f.inode], f.offset;
    NoRoomNoWrite(c, o, data);
    if o < PAGE {
      WrittenBytes(c, o, data);
      var r, at := Written(c, o, data), o + Fitting(o, data);
      assert |r| == (if at > |c| then at else |c|);
      assert Slice(r, at, n) == Slice(c, at, n);
    }
  }

  /** A read fails exactly on a descriptor that is not usable; what is no file has no bytes. */
  lemma ReadFailsIff(d: Disk, fd: nat, n: nat)
    requires Sound(d)
    ensures var (d2, bytes) := ReadFd(d, fd, n);
      && (bytes.None? <==> !Usable(d, fd))
      && (bytes.None? ==> d2 == d)
      && (Usable(d, fd) && !IsFile(d, d.files[fd].inode) ==> bytes == Some([]) && d2 == d)
  {
  }

  /** Seeking sets the offset of an open descriptor and of no other, and fails on a closed one. */
  lemma SeekSets(d: Disk, fd: nat, offset: nat)
    requires Sound(d)
    ensures var (d2, ok) := SeekFd(d, fd, offset);
      && (ok <==> fd < MAX_OPEN_FILES && d.files[fd].active)
      && (ok ==> d2.files[fd] == d.files[fd].(offset := offset))
      && d2.contents == d.contents && |d2.files| == |d.files|
      && forall j :: 0 <= j < MAX_OPEN_FILES && (j != fd || !ok) ==> d2.files[j] == d.files[j]
  {
  }

  /** A closed descriptor is refused by every call until it is opened again; others are as before. */
  lemma ClosedIsRefused(d: Disk, fd: nat, data: seq<byte>, n: nat, hasPage: bool)
    requires Sound(d)
    ensures var d2 := CloseFd(d, fd);
      && Sound(d2) && d2.contents == d.contents
      && ReadFd(d2, fd, n) == (d2, None) && WriteFd(d2, fd, data, hasPage) == (d2, None)
      && SeekFd(d2, fd, n) == (d2, false)
      && forall j :: 0 <= j < MAX_OPEN_FILES && j != fd ==> d2.files[j] == d.files[j]
  {
  }

  /** Opening takes the lowest free descriptor, and fails exactly without an inode in use or a free one. */
  lemma OpenTakesLowest(d: Disk, inode: Option<nat>, mode: nat)
    requires Sound(d)
    ensures var (d2, fd) := OpenFd(d, inode, mode);
      && (fd.Some? <==>
            && inode.Some? && inode.value < MAX_INODES && d.kinds[inode.value].Some?
            && exists j :: 0 <= j < MAX_OPEN_FILES && !d.files[j].active)
      && (fd.None? ==> d2 == d)
      && (fd.Some? ==>
            && fd.value < MAX_OPEN_FILES && !d.files[fd.value].active
            && (forall j :: 0 <= j < fd.value ==> d.files[j].active)
            && d2 == d.(files := d.files[fd.value := d2.files[fd.value]]) && |d2.files| == MAX_OPEN_FILES
            && d2.files[fd.value].inode == inode.value && d2.files[fd.value].offset == 0
            && d2.files[fd.value].mode == mode && d2.files[fd.value].active)
  {
  }

  datatype FileOp =
    | Open(inode: Option<nat>, mode: nat)
    | Read(fd: nat, n: nat)
    | Write(fd: nat, data: seq<byte>, hasPage: bool)
    | Seek(fd: nat, offset: nat)
    | Close(fd: nat)

  ghost function FileStep(d: Disk, op: FileOp): (r: Disk)
    requires Sound(d)
    ensures Sound(r) && r.kinds == d.kinds
  {
    match op
    case Open(inode, mode) => OpenFd(d, inode, mode).0
    case Read(fd, n) => ReadFd(d, fd, n).0
    case Write(fd, data, hasPage) => WriteFd(d, fd, data, hasPage).0
    case Seek(fd, offset) => SeekFd(d, fd, offset).0
    case Close(fd) => CloseFd(d, fd)
  }

  ghost function FileRun(d: Disk, ops: seq<FileOp>): (r: Disk)
    requires Sound(d)
    ensures Sound(r) && r.kinds == d.kinds
    decreases |ops|
  {
    if |ops| == 0 then d else FileRun(FileStep(d, ops[0]), ops[1..])
  }

  /** None of `ops` writes through a descriptor that is then open on inode `i`. */
  ghost predicate NoWritesTo(d: Disk, ops: seq<FileOp>, i: nat)
    requires Sound(d)
    decreases |ops|
  {
    |ops| > 0 ==>
      && (ops[0].Write? && ops[0].fd < MAX_OPEN_FILES && d.files[ops[0].fd].active ==> d.files[ops[0].fd].inode != i)
      && NoWritesTo(FileStep(d, ops[0]), ops[1..], i)
  }

  /** Over every run a file changes only by writes to it: whatever happens to other files, it stays as it was. */
  lemma {:induction false} FilesAreIsolated(d: Disk, ops: seq<FileOp>, i: nat)
    requires Sound(d) && i < MAX_INODES && NoWritesTo(d, ops, i)
    ensures FileRun(d, ops).contents[i] == d.contents[i]
    decreases |ops|
  {
    if |ops| != 0 {
      FilesAreIsolated(FileStep(d, ops[0]), ops[1..], i);
    }
  }

  /** What one descriptor writes, another descriptor of the same file reads at that offset. */
  lemma WriteSeenByOthers(d: Disk, fd: nat, other: nat, data: seq<byte>)
    requires Sound(d) && Usable(d, fd) && Usable(d, other) && fd != other
    requires IsFile(d, d.files[fd].inode) && d.files[other].inode == d.files[fd].inode
    requires d.files[fd].offset < PAGE
    ensures var o, n := d.files[fd].offset, Fitting(d.files[fd].offset, data);
      var d2 := SeekFd(WriteFd(d, fd, data, true).0, other, o).0;
      Sound(d2) && ReadFd(d2, other, n).1 == Some(data[..n])
  {
    ReadAfterWrite(d.contents[d.files[fd].inode], d.files[fd].offset, data);
  }

  /** A newly opened descriptor reads a file from its start; other descriptors are as before. */
  lemma OpenReadsFromStart(d: Disk, inode: nat, mode: nat, n: nat, other: nat)
    requires Sound(d) && OpenFd(d, Some(inode), mode).1.Some? && IsFile(d, inode)
    ensures var (d2, fd) := OpenFd(d, Some(inode), mode);
      && Sound(d2) && ReadFd(d2, fd.value, n).1 == Some(d.contents[inode][..Min(n, |d.contents[inode]|)])
      && (other < |d.files| && d.files[other].active ==> other != fd.value && d2.files[other] == d.files[other])
  {
    assert Slice(d.contents[inode], 0, n) == d.contents[inode][..Min(n, |d.contents[inode]|)];
  }

  /** Two reads in a row read what one read of both lengths would. */
  lemma ReadsCompose(d: Disk, fd: nat, a: nat, b: nat)
    requires Sound(d) && Usable(d, fd)
    ensures var (d1, x) := ReadFd(d, fd, a);
      && Sound(d1)
      && x.Some? && ReadFd(d1, fd, b).1.Some? && ReadFd(d, fd, a + b).1.Some?
      && x.value + ReadFd(d1, fd, b).1.value == ReadFd(d, fd, a + b).1.value
  {
    var f := d.files[fd];
    var c := d.contents[f.inode];
    if IsFile(d, f.inode) && f.offset < |c| {
      var m := Min(f.offset + a, |c|);
      assert c[f.offset..m] + Slice(c, m, b) == Slice(c, f.offset, a + b);
    }
  }

  /** The entries in use form the tree, the entries with an inode of their own. */
  ghost predicate TreeOfSomeSize(s: Names) {
    exists n: nat :: Tree(s, n)
  }

  /** Over every run of creates, failed ones included, the entries stay a tree and no path found before is lost. */
  lemma {:induction false} CreatesKeepLookups(s: Names, n: nat, requests: seq<Request>, q: seq<byte>)
    requires Tree(s, n)
    ensures TreeOfSomeSize(Created(s, requests, true))
    ensures Lookup(s.dentries, q).Some? ==> Lookup(Created(s, requests, true).dentries, q) == Lookup(s.dentries, q)
    decreases |requests|
  {
    hide Lookup, Create;
    if |requests| != 0 {
      var r := requests[0];
      OneCreateKeepsTree(s, n, r);
      var (t, k) := Create(s, r.path, r.name, r.itype, r.page, true);
      if k.Some? {
        CreateThenLookup(s, n, r.path, r.name, r.itype, r.page);
        CreatesKeepLookups(t, n + 1, requests[1..], q);
      } else {
        CreatesKeepLookups(t, n, requests[1..], q);
      }
    }
  }

  lemma OneCreateKeepsTree(s: Names, n: nat, r: Request)
    requires Tree(s, n)
    ensures var (t, k) := Create(s, r.path, r.name, r.itype, r.page, true);
      if k.Some? then Tree(t, n + 1) else t == s
  {
    CreateAddsEntry(s, n, r.path, r.name, r.itype, r.page);
  }

  /** Every inode in use is named by an entry. */
  ghost predicate AllNamed(s: Names) {
    forall i :: 0 <= i < |s.inodes| && s.inodes[i].active ==> EntryOfInode(s.dentries, i, 0) != -1
  }

  lemma CreateKeepsNamed(s: Names, n: nat, r: Request)
    requires Tree(s, n) && AllNamed(s)
    ensures AllNamed(Create(s, r.path, r.name, r.itype, r.page, true).0)
  {
    hide Lookup, DirectoryAt, AddDentry;
    CreateAddsEntry(s, n, r.path, r.name, r.itype, r.page);
    var (t, k) := Create(s, r.path, r.name, r.itype, r.page, true);
    if k.Some? {
      forall i | 0 <= i < |t.inodes| && t.inodes[i].active ensures EntryOfInode(t.dentries, i, 0) != -1 {
        var e := if i == t.dentries[n].inode then n else EntryOfInode(s.dentries, i, 0);
        assert t.dentries[e].active && t.dentries[e].inode == i;
      }
    }
  }

  /** Over every run of creates no inode is lost: each one in use is named by an entry. */
  lemma {:induction false} NoInodeIsLost(s: Names, n: nat, requests: seq<Request>)
    requires Tree(s, n) && AllNamed(s)
    ensures AllNamed(Created(s, requests, true))
    decreases |requests|
  {
    hide Create, AllNamed, Tree;
    if |requests| != 0 {
      var r := requests[0];
      OneCreateKeepsTree(s, n, r);
      CreateKeepsNamed(s, n, r);
      var (t, k) := Create(s, r.path, r.name, r.itype, r.page, true);
      NoInodeIsLost(t, if k.Some? then n + 1 else n, requests[1..]);
    }
  }

  /** So it is from mounting on. */
  lemma NoInodeIsLostAfterMount(requests: seq<Request>)
    ensures AllNamed(Created(Mounted(Blank(), true), requests, true))
  {
    hide Mounted, EntryOfInode;
    MountedTree();
    PackedNamesAll(Mounted(Blank(), true), 7);
    NoInodeIsLost(Mounted(Blank(), true), 7, requests);
  }

  lemma PackedNamesAll(s: Names, n: nat)
    requires Packed(s, n)
    ensures AllNamed(s)
  {
    InodesDiffer(s.dentries, n);
    RangeSize(0, n);
    SubsetSize(InodesOf(s.dentries, n), Range(0, n));
    forall i | 0 <= i < |s.inodes| && s.inodes[i].active ensures EntryOfInode(s.dentries, i, 0) != -1 {
      assert i in Range(0, n);
    }
  }
}
