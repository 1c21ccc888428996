/**
 The filesystem calls as the kernel runs them: static tables of inodes, directory entries and
 open files, and file pages in physical memory.
 */
module Vfs {
  import opened Common
  import opened Bytes
  import opened Paths
  import opened Ramfs
  import Phys

  // ---- What the pages of the inodes hold ----

  /** The content of file `i`: the first `size` bytes of its page. */
  function ContentOf(node: Inode, m: seq<byte>): (c: seq<byte>)
    ensures |c| <= PAGE
  {
    if node.active && node.page != 0 && InMem(m, node.page / 4096) && node.size <= PAGE
    then FrameOf(m, node.page / 4096)[..node.size] else []
  }

  /** A file in use either has no page and no content, or a taken page with zeros after its content. */
  ghost predicate PageOk(node: Inode, m: seq<byte>, used: set<nat>) {
    node.active ==>
      && node.size <= PAGE
      && (node.page == 0 ==> node.size == 0)
      && (node.page != 0 ==>
            && node.page % 4096 == 0 && InMem(m, node.page / 4096) && node.page / 4096 in used
            && PageHolds(FrameOf(m, node.page / 4096), ContentOf(node, m)))
  }

  /** Every file is in order, and no two files share a page. */
  ghost predicate PagesOk(inodes: Inodes, m: seq<byte>, used: set<nat>) {
    && (forall i :: 0 <= i < |inodes| ==> PageOk(inodes[i], m, used))
    && (forall i, j :: 0 <= i < j < |inodes| && inodes[i].active && inodes[j].active && inodes[i].page != 0 ==>
          inodes[i].page != inodes[j].page)
  }

  function Contents(inodes: Inodes, m: seq<byte>): seq<seq<byte>> {
    seq(|inodes|, i requires 0 <= i < |inodes| => ContentOf(inodes[i], m))
  }

  function Kinds(inodes: Inodes): seq<Option<InodeType>> {
    seq(|inodes|, i requires 0 <= i < |inodes| => if inodes[i].active then Some(inodes[i].itype) else None)
  }

  /** Files whose page is not frame `f` do not notice a change of that frame. */
  lemma OtherFilesKept(node: Inode, m: seq<byte>, m2: seq<byte>, used: set<nat>, used2: set<nat>, f: nat)
    requires PageOk(node, m, used) && SameExcept(m, m2, {f}) && used <= used2
    requires node.active && node.page != 0 ==> node.page / 4096 != f
    ensures PageOk(node, m2, used2) && ContentOf(node, m2) == ContentOf(node, m)
  {
  }

  /** The bytes of the page at the offset are the bytes of the content. */
  lemma ReadIsSlice(node: Inode, m: seq<byte>, used: set<nat>, o: nat, n: nat)
    requires PageOk(node, m, used) && node.active && node.page != 0 && o < node.size
    ensures var at, count := node.page + o, Min(n, node.size - o);
      at + count <= |m| && m[at..at + count] == Slice(ContentOf(node, m), o, n)
  {
    var f, count := node.page / 4096, Min(n, node.size - o);
    assert node.page == f * 4096;
    PartOfFrame(m, f, o, count);
    assert FrameOf(m, f)[..node.size][o..o + count] == FrameOf(m, f)[o..o + count];
  }

  /** Giving a file without a page the fresh, zeroed frame `f` changes no content. */
  lemma PageGiven(inodes: Inodes, m: seq<byte>, m2: seq<byte>, used: set<nat>, i: nat, f: nat)
    requires PagesOk(inodes, m, used) && i < |inodes| && inodes[i].active && inodes[i].page == 0
    requires f !in used && f != 0 && InMem(m, f) && SameExcept(m, m2, {f}) && FrameOf(m2, f) == ZERO_PAGE
    ensures var inodes2 := inodes[i := inodes[i].(page := f * 4096)];
      && PagesOk(inodes2, m2, used + {f})
      && Contents(inodes2, m2) == Contents(inodes, m) && Kinds(inodes2) == Kinds(inodes)
  {
    var inodes2 := inodes[i := inodes[i].(page := f * 4096)];
    forall j | 0 <= j < |inodes|
      ensures PageOk(inodes2[j], m2, used + {f}) && ContentOf(inodes2[j], m2) == ContentOf(inodes[j], m)
    {
      assert PageOk(inodes[j], m, used);
      if j == i {
        assert ContentOf(inodes2[i], m2) == [];
        assert ZERO_PAGE == [] + Zeros(PAGE);
      } else {
        OtherFilesKept(inodes[j], m, m2, used, used + {f}, f);
      }
    }
  }

  /** Copying `data` into the page of file `i` and moving its end is the write of its content. */
  lemma FileWritten(inodes: Inodes, m: seq<byte>, m2: seq<byte>, used: set<nat>, i: nat, o: nat, data: seq<byte>)
    requires PagesOk(inodes, m, used) && i < |inodes| && inodes[i].active && inodes[i].page != 0 && o < PAGE
    requires var f, n := inodes[i].page / 4096, Fitting(o, data);
      && InMem(m, f) && SameExcept(m, m2, {f})
      && FrameOf(m2, f) == FrameOf(m, f)[..o] + data[..n] + FrameOf(m, f)[o + n..]
    ensures var end := o + Fitting(o, data);
      var inodes2 := inodes[i := inodes[i].(size := if end > inodes[i].size then end else inodes[i].size)];
      && PagesOk(inodes2, m2, used)
      && Contents(inodes2, m2) == Contents(inodes, m)[i := Written(ContentOf(inodes[i], m), o, data)]
      && Kinds(inodes2) == Kinds(inodes)
  {
    var f, n, end, c := inodes[i].page / 4096, Fitting(o, data), o + Fitting(o, data), ContentOf(inodes[i], m);
    var inodes2 := inodes[i := inodes[i].(size := if end > inodes[i].size then end else inodes[i].size)];
    assert PageOk(inodes[i], m, used);
    PageWritten(FrameOf(m, f), c, o, data);
    var r := Written(c, o, data);
    assert FrameOf(m2, f)[..|r|] == r;
    forall j | 0 <= j < |inodes|
      ensures PageOk(inodes2[j], m2, used)
      ensures ContentOf(inodes2[j], m2) == if j == i then r else ContentOf(inodes[j], m)
    {
      if j != i {
        assert PageOk(inodes[j], m, used);
        OtherFilesKept(inodes[j], m, m2, used, used, f);
      }
    }
  }

  /** A new inode without a page is an empty file. */
  lemma InodeTaken(inodes: Inodes, m: seq<byte>, used: set<nat>, i: nat, itype: InodeType)
    requires PagesOk(inodes, m, used) && i < |inodes| && !inodes[i].active
    ensures var inodes2 := inodes[i := Inode(itype, true, 0, 0)];
      PagesOk(inodes2, m, used) && Contents(inodes2, m) == Contents(inodes, m)
  {
    var inodes2 := inodes[i := Inode(itype, true, 0, 0)];
    assert forall j :: 0 <= j < |inodes| && j != i ==> inodes2[j] == inodes[j];
    assert PageOk(inodes2[i], m, used);
  }

  /** `activates`: whether the allocators of entries and superblocks mark the slot as used; the kernel's do not. */
  class FileSystem {
    const blocks: array<Superblock>
    const inodes: array<Inode>
    const dentries: array<Dentry>
    const files: array<OpenFile>
    const phys: Phys.FrameAllocator
    const mem: array<byte>
    const activates: bool
    ghost var m: seq<byte>

    /** The tables and memory are separate objects. */
    ghost predicate Apart()
      reads this, phys
    {
      && (inodes as object) != dentries && (inodes as object) != files && (dentries as object) != files
      && (mem as object) != inodes && (mem as object) != dentries && (mem as object) != files
      && (phys.bitmap as object) != inodes && (phys.bitmap as object) != dentries && (phys.bitmap as object) != files
      && (phys.bitmap as object) != mem
      && (blocks as object) !in {inodes as object, dentries, files, mem, phys.bitmap}
    }

    /** Frame 0 is never allocated, so address 0 can stand for "no page". */
    ghost predicate Valid()
      reads this, inodes, dentries, files, phys, phys.bitmap, mem
    {
      && inodes.Length == MAX_INODES && dentries.Length == MAX_DENTRIES && files.Length == MAX_OPEN_FILES
      && blocks.Length == MAX_SUPERBLOCKS
      && Apart() && m == mem[..]
      && phys.Valid() && 0 in phys.used && phys.totalFrames * 4096 <= |m|
      && PagesOk(inodes[..], m, phys.used)
    }

    ghost function NamesValue(): Names
      reads inodes, dentries
    {
      Names(inodes[..], dentries[..])
    }

    ghost function TablesValue(): Tables
      reads blocks, inodes, dentries
    {
      Tables(blocks[..], NamesValue())
    }

    ghost function DiskValue(): Disk
      reads this, inodes, files
    {
      Disk(Kinds(inodes[..]), Contents(inodes[..], m), files[..])
    }

    /** The `.bss` image of the tables, over the kernel's memory. */
    constructor (phys: Phys.FrameAllocator, mem: array<byte>, activates: bool)
      requires phys.Valid() && 0 in phys.used && phys.totalFrames * 4096 <= mem.Length && (mem as object) != phys.bitmap
      ensures Valid() && this.phys == phys && this.mem == mem && this.activates == activates
      ensures fresh(blocks) && fresh(inodes) && fresh(dentries) && fresh(files)
      ensures NamesValue() == Blank() && forall i :: 0 <= i < MAX_SUPERBLOCKS ==> !blocks[i].active
    {
      this.phys, this.mem, this.activates := phys, mem, activates;
      blocks := new Superblock[MAX_SUPERBLOCKS](i => Superblock(false, [], 0));
      inodes := new Inode[MAX_INODES](i => Inode(FileType, false, 0, 0));
      dentries := new Dentry[MAX_DENTRIES](i => Dentry([], 0, -1, false));
      files := new OpenFile[MAX_OPEN_FILES](i => OpenFile(0, 0, 0, false));
      m := mem[..];
    }

    // ---- Inodes and pages ----

    method AllocInodeSlot(itype: InodeType) returns (slot: Option<nat>)
      requires Valid()
      modifies inodes
      ensures Valid()
      ensures var i := FreeInode(old(inodes[..]), 0);
        if i == MAX_INODES then slot.None? && inodes[..] == old(inodes[..])
        else slot == Some(i) && inodes[..] == old(inodes[..])[i := Inode(itype, true, 0, 0)]
      ensures Contents(inodes[..], m) == old(Contents(inodes[..], m))
    {
      for i := 0 to MAX_INODES
        invariant FreeInode(inodes[..], 0) == FreeInode(inodes[..], i)
        invariant inodes[..] == old(inodes[..])
      {
        if !inodes[i].active {
          InodeTaken(inodes[..], m, phys.used, i, itype);
          inodes[i] := Inode(itype, true, 0, 0);
          return Some(i);
        }
      }
      return None;
    }

    /** A zeroed page for file `i`, which has none; nothing but its page address changes. */
    method GivePage(i: nat) returns (ok: bool)
      requires Valid() && i < MAX_INODES && inodes[i].active && inodes[i].page == 0
      modifies this`m, inodes, mem, phys`freeFrames, phys`used, phys.bitmap
      ensures Valid()
      ensures ok <==> old(phys.freeFrames) > 0
      ensures Contents(inodes[..], m) == old(Contents(inodes[..], m)) && Kinds(inodes[..]) == old(Kinds(inodes[..]))
      ensures !ok ==> inodes[..] == old(inodes[..])
      ensures ok ==>
        && inodes[..] == old(inodes[..])[i := old(inodes[i]).(page := inodes[i].page)]
        && inodes[i].page != 0 && inodes[i].page / 4096 !in old(phys.used)
        && phys.used == old(phys.used) + {inodes[i].page / 4096}
      ensures !ok ==> phys.used == old(phys.used)
    {
      ghost var before, m0, used := inodes[..], m, phys.used;
      var addr := phys.AllocFrame();
      if addr.None? {
        return false;
      }
      ghost var f := addr.value / 4096;
      ZeroFrame(mem, addr.value / 4096);
      m := mem[..];
      PageGiven(before, m0, m, used, i, f);
      inodes[i] := inodes[i].(page := addr.value);
      assert inodes[..] == before[i := before[i].(page := f * 4096)];
      return true;
    }

    // ---- Create ----

    method AllocDentry() returns (slot: Option<nat>)
      requires Valid()
      modifies dentries
      ensures Valid()
      ensures Ramfs.AllocDentry(old(dentries[..]), activates) == (dentries[..], slot)
    {
      for i := 0 to MAX_DENTRIES
        invariant FreeDentry(dentries[..], 0) == FreeDentry(dentries[..], i)
        invariant dentries[..] == old(dentries[..])
      {
        if !dentries[i].active {
          if activates {
            dentries[i] := dentries[i].(active := true);
          }
          assert dentries[..] == old(dentries[..])[i := old(dentries[i]).(active := activates)];
          return Some(i);
        }
      }
      return None;
    }

    method FillDentry(k: nat, name: Name, inode: nat, parent: int) returns (ok: bool)
      requires Valid()
      modifies dentries
      ensures Valid()
      ensures Ramfs.FillDentry(old(dentries[..]), k, name, inode, parent) == (dentries[..], ok)
    {
      if k >= MAX_DENTRIES || !dentries[k].active {
        return false;
      }
      dentries[k] := Dentry(name[..Min(|name|, MAX_NAME)], inode, parent, true);
      return true;
    }

    method AddDirectoryEntry(name: Name, inode: nat, parent: int) returns (slot: Option<nat>)
      requires Valid()
      modifies dentries
      ensures Valid()
      ensures AddDentry(old(dentries[..]), name, inode, parent, activates) == (dentries[..], slot)
    {
      slot := AllocDentry();
      if slot.None? {
        return None;
      }
      var filled := FillDentry(slot.value, name, inode, parent);
      return if filled then slot else None;
    }

    method FindEntryOfInode(inode: nat) returns (r: int)
      requires Valid()
      ensures r == EntryOfInode(dentries[..], inode, 0)
    {
      for i := 0 to MAX_DENTRIES
        invariant EntryOfInode(dentries[..], inode, 0) == EntryOfInode(dentries[..], inode, i)
      {
        if dentries[i].active && dentries[i].inode == inode {
          return i;
        }
      }
      return -1;
    }

    /**
     `page` is what the new inode got: a file gets a page whenever a frame is free and an inode was
     found.  No existing file changes.
     */
    method Create(path: seq<byte>, name: Name, itype: InodeType) returns (entry: Option<nat>, ghost page: nat)
      requires Valid()
      modifies this`m, inodes, dentries, mem, phys`freeFrames, phys`used, phys.bitmap
      ensures Valid()
      ensures Ramfs.Create(old(NamesValue()), path, name, itype, page, activates) == (NamesValue(), entry)
      ensures Contents(inodes[..], m) == old(Contents(inodes[..], m))
      ensures page != 0 <==> itype == FileType && old(phys.freeFrames) > 0 && TakesInode(old(NamesValue()), path)
      ensures page != 0 ==> page / 4096 !in old(phys.used)
      ensures phys.used == old(phys.used) + if page == 0 then {} else {page / 4096}
    {
      hide Contents, ContentOf, Kinds, PagesOk, Lookup, FirstSuch, EntryOfInode, AddDentry;
      page := 0;
      var found := PathLookup(dentries, path);
      if found.None? || found.value >= MAX_DENTRIES || !dentries[found.value].active {
        return None, page;
      }
      var dir := dentries[found.value].inode;
      if dir >= MAX_INODES || !inodes[dir].active || inodes[dir].itype != Directory {
        return None, page;
      }
      var slot;
      slot, page := NewInode(itype);
      if slot.None? {
        return None, page;
      }
      var parent := FindEntryOfInode(dir);
      entry := AddDirectoryEntry(name, slot.value, parent);
    }

    /** An inode and, for a file, a page if a frame is free. */
    method NewInode(itype: InodeType) returns (slot: Option<nat>, ghost page: nat)
      requires Valid()
      modifies this`m, inodes, mem, phys`freeFrames, phys`used, phys.bitmap
      ensures Valid()
      ensures var i := FreeInode(old(inodes[..]), 0);
        if i == MAX_INODES then slot.None? && page == 0 && inodes[..] == old(inodes[..])
        else slot == Some(i) && inodes[..] == old(inodes[..])[i := Inode(itype, true, page, 0)]
      ensures Contents(inodes[..], m) == old(Contents(inodes[..], m))
      ensures page != 0 <==> slot.Some? && itype == FileType && old(phys.freeFrames) > 0
      ensures page != 0 ==> page / 4096 !in old(phys.used)
      ensures phys.used == old(phys.used) + if page == 0 then {} else {page / 4096}
    {
      hide Contents, ContentOf, Kinds, PagesOk, FirstSuch;
      page := 0;
      ghost var before := inodes[..];
      slot := AllocInodeSlot(itype);
      if slot.Some? && itype == FileType {
        var ignored := GivePage(slot.value);
        page := inodes[slot.value].page;
        assert inodes[..] == before[slot.value := Inode(itype, true, page, 0)];
      }
    }

    // ---- Descriptors ----

    method Open(path: seq<byte>, mode: nat) returns (fd: Option<nat>)
      requires Valid()
      modifies files
      ensures Valid()
      ensures var d := Lookup(dentries[..], path);
        var inode := if d.Some? && d.value < MAX_DENTRIES && dentries[d.value].active
                     then Some(dentries[d.value].inode) else None;
        OpenFd(old(DiskValue()), inode, mode) == (DiskValue(), fd)
    {
      var found := PathLookup(dentries, path);
      if found.None? || found.value >= MAX_DENTRIES || !dentries[found.value].active {
        return None;
      }
      var inode := dentries[found.value].inode;
      if inode >= MAX_INODES || !inodes[inode].active {
        return None;
      }
      for i := 0 to MAX_OPEN_FILES
        invariant FreeFile(files[..], 0) == FreeFile(files[..], i)
        invariant files[..] == old(files[..]) && Valid()
      {
        if !files[i].active {
          files[i] := OpenFile(inode, 0, mode, true);
          return Some(i);
        }
      }
      return None;
    }

    method Read(fd: nat, n: nat) returns (bytes: Option<seq<byte>>)
      requires Valid()
      modifies files
      ensures Valid()
      ensures ReadFd(old(DiskValue()), fd, n) == (DiskValue(), bytes)
    {
      hide PagesOk, ContentOf, Slice;
      if fd >= MAX_OPEN_FILES || !files[fd].active {
        return None;
      }
      var inode, offset := files[fd].inode, files[fd].offset;
      if inode >= MAX_INODES || !inodes[inode].active {
        return None;
      }
      var read := [];
      if inodes[inode].itype == FileType {
        read := ReadPage(inode, offset, n);
      }
      files[fd] := files[fd].(offset := offset + |read|);
      return Some(read);
    }

    /** `ramfs_read` */
    method ReadPage(i: nat, offset: nat, n: nat) returns (read: seq<byte>)
      requires Valid() && i < MAX_INODES && inodes[i].active
      ensures read == Slice(ContentOf(inodes[i], m), offset, n)
    {
      assert PageOk(inodes[..][i], m, phys.used);
      if inodes[i].page == 0 || offset >= inodes[i].size {
        return [];
      }
      var available := inodes[i].size - offset;
      var count := if n < available then n else available;
      var from := inodes[i].page + offset;
      read := mem[from..from + count];
      ReadIsSlice(inodes[i], m, phys.used, offset, n);
    }

    /** The file behind this descriptor has a page or can still get one. */
    ghost predicate CanHavePage(fd: nat)
      reads this, inodes, files, phys
    {
      fd < files.Length && files[fd].inode < inodes.Length && (inodes[files[fd].inode].page != 0 || phys.freeFrames > 0)
    }

    method Write(fd: nat, data: seq<byte>) returns (count: Option<nat>)
      requires Valid()
      modifies this`m, inodes, files, mem, phys`freeFrames, phys`used, phys.bitmap
      ensures Valid()
      ensures WriteFd(old(DiskValue()), fd, data, old(CanHavePage(fd))) == (DiskValue(), count)
    {
      hide PagesOk, ContentOf, Written, Fitting;
      if fd >= MAX_OPEN_FILES || !files[fd].active {
        return None;
      }
      var inode, offset := files[fd].inode, files[fd].offset;
      if inode >= MAX_INODES || !inodes[inode].active {
        return None;
      }
      var written := Some(0);
      if inodes[inode].itype == FileType {
        written := WritePage(inode, offset, data);
      }
      match written {
        case Some(n) => files[fd] := files[fd].(offset := offset + n);
        case None =>
      }
      return written;
    }

    /** `ramfs_write` */
    method WritePage(i: nat, offset: nat, data: seq<byte>) returns (count: Option<nat>)
      requires Valid() && i < MAX_INODES && inodes[i].active
      modifies this`m, inodes, mem, phys`freeFrames, phys`used, phys.bitmap
      ensures Valid()
      ensures count == if old(inodes[i].page != 0 || phys.freeFrames > 0) then Some(Fitting(offset, data)) else None
      ensures Kinds(inodes[..]) == old(Kinds(inodes[..]))
      ensures Contents(inodes[..], m) ==
        if count.None? then old(Contents(inodes[..], m))
        else old(Contents(inodes[..], m))[i := Written(old(ContentOf(inodes[i], m)), offset, data)]
    {
      ghost var c := Contents(inodes[..], m);
      assert c[i] == ContentOf(inodes[i], m);
      if inodes[i].page == 0 {
        var ok := GivePage(i);
        if !ok {
          return None;
        }
      }
      assert c[i := c[i]] == c;
      if offset >= PAGE {
        return Some(0);
      }
      CopyToPage(i, offset, data);
      return Some(Fitting(offset, data));
    }

    method CopyToPage(i: nat, offset: nat, data: seq<byte>)
      requires Valid() && i < MAX_INODES && inodes[i].active && inodes[i].page != 0 && offset < PAGE
      modifies this`m, inodes, mem
      ensures Valid()
      ensures Kinds(inodes[..]) == old(Kinds(inodes[..]))
      ensures Contents(inodes[..], m) ==
        old(Contents(inodes[..], m))[i := Written(old(ContentOf(inodes[i], m)), offset, data)]
    {
      hide ContentOf, Contents, Kinds, Written;
      ghost var before, m0 := inodes[..], m;
      assert PageOk(before[i], m, phys.used);
      var room := PAGE - offset;
      var n := if |data| < room then |data| else room;
      CopyAt(mem, inodes[i].page / 4096, offset, data[..n]);
      m := mem[..];
      FileWritten(before, m0, m, phys.used, i, offset, data);
      var end := offset + n;
      if end > inodes[i].size {
        inodes[i] := inodes[i].(size := end);
      }
      assert inodes[..] == before[i := before[i].(size := if end > before[i].size then end else before[i].size)];
    }

    method Seek(fd: nat, offset: nat) returns (ok: bool)
      requires Valid()
      modifies files
      ensures Valid()
      ensures SeekFd(old(DiskValue()), fd, offset) == (DiskValue(), ok)
    {
      if fd >= MAX_OPEN_FILES || !files[fd].active {
        return false;
      }
      files[fd] := files[fd].(offset := offset);
      return true;
    }

    method Close(fd: nat)
      requires Valid()
      modifies files
      ensures Valid()
      ensures DiskValue() == CloseFd(old(DiskValue()), fd)
    {
      if fd < MAX_OPEN_FILES {
        files[fd] := files[fd].(active := false);
      }
    }

    // ---- Mounting ----

    method AllocSuperblock() returns (slot: Option<nat>)
      requires Valid()
      modifies blocks
      ensures Valid()
      ensures Ramfs.AllocSuperblock(old(blocks[..]), activates) == (blocks[..], slot)
    {
      for i := 0 to MAX_SUPERBLOCKS
        invariant FreeBlock(blocks[..], 0) == FreeBlock(blocks[..], i)
        invariant blocks[..] == old(blocks[..])
      {
        if !blocks[i].active {
          if activates {
            blocks[i] := blocks[i].(active := true);
          }
          assert blocks[..] == old(blocks[..])[i := old(blocks[i]).(active := activates)];
          return Some(i);
        }
      }
      return None;
    }

    /** `ramfs::init` */
    method Init() returns (out: Outcome<()>)
      requires Valid()
      modifies blocks, inodes, dentries
      ensures Valid()
      ensures match Mount(old(TablesValue()), activates)
        case Panicked => out.Panicked? && TablesValue() == old(TablesValue())
        case Returned(t) => out.Returned? && TablesValue() == t
    {
      hide Contents, ContentOf, PagesOk, FirstSuch, AddSubdirs, Ramfs.AllocDentry, Ramfs.FillDentry;
      ghost var before, names := blocks[..], NamesValue();
      var block := AllocSuperblock();
      if block.None? {
        return Returned(());
      }
      var k := block.value;
      if k >= MAX_SUPERBLOCKS || !blocks[k].active {
        return Panicked;
      }
      blocks[k] := blocks[k].(active := true, fsType := RAMFS);
      assert names == NamesValue();
      var inode := AllocInodeSlot(Directory);
      if inode.None? {
        return Returned(());
      }
      blocks[k] := blocks[k].(rootInode := inode.value);
      ghost var after := blocks[..];
      assert after == Ramfs.AllocSuperblock(before, activates).0[k := Superblock(true, RAMFS, inode.value)];
      var root := AllocDentry();
      if root.None? {
        return Returned(());
      }
      var ignored := FillDentry(root.value, [SLASH], inode.value, -1);
      assert (NamesValue(), root) == AddSubdir(names, -1, [SLASH], activates);
      CreateBases(root.value);
      assert TablesValue() == Tables(after, Mounted(names, activates));
      return Returned(());
    }

    method CreateBases(root: nat)
      requires Valid()
      modifies inodes, dentries
      ensures Valid()
      ensures NamesValue() == AddSubdirs(old(NamesValue()), root, BASE_DIRECTORIES, activates)
    {
      hide Valid, AddSubdirs, NamesValue;
      assert BASE_DIRECTORIES[0..] == BASE_DIRECTORIES;
      CreateBase(root, 0);
      CreateBase(root, 1);
      CreateBase(root, 2);
      CreateBase(root, 3);
      CreateBase(root, 4);
      CreateBase(root, 5);
      NoSubdirs(NamesValue(), root, activates);
    }

    static lemma NoSubdirs(s: Names, parent: nat, activates: bool)
      ensures AddSubdirs(s, parent, BASE_DIRECTORIES[6..], activates) == s
    {
    }

    /** One of the six calls: what is left to do then leads to the same tables. */
    method CreateBase(parent: nat, k: nat)
      requires Valid() && k < |BASE_DIRECTORIES|
      modifies inodes, dentries
      ensures Valid()
      ensures AddSubdirs(NamesValue(), parent, BASE_DIRECTORIES[k + 1..], activates) ==
        AddSubdirs(old(NamesValue()), parent, BASE_DIRECTORIES[k..], activates)
    {
      CreateSubdir(parent, BASE_DIRECTORIES[k]);
      assert BASE_DIRECTORIES[k..][1..] == BASE_DIRECTORIES[k + 1..];
    }

    method CreateSubdir(parent: int, name: Name)
      requires Valid()
      modifies inodes, dentries
      ensures Valid()
      ensures NamesValue() == AddSubdir(old(NamesValue()), parent, name, activates).0
    {
      var inode := AllocInodeSlot(Directory);
      if inode.None? {
        return;
      }
      var slot := AllocDentry();
      if slot.None? {
        return;
      }
      var ignored := FillDentry(slot.value, name, inode.value, parent);
    }
  }
}
