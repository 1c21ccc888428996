/** Loading PE images and raw binaries into a new address space. */
module Loader {
  import opened Common
  import opened Bytes
  import opened Pe
  import opened PageTables
  import opened Paging
  import opened UserSpace

  const MACHINE_AMD64: nat := 0x8664
  const CHARACTERISTIC_DLL: nat := 0x2000
  const MAX_IMAGE_SIZE: nat := 0x100_0000  // 16 MiB
  const MAX_SECTION_SIZE: nat := 0x40_0000 // 4 MiB
  const IMPORT_DIRECTORY: nat := 1
  const IMPORT_DESCRIPTOR: nat := 20

  datatype LoadError =
    | InvalidPe(error: PeError)
    | WrongArchitecture
    | NotExecutable
    | OutOfMemory
    | SectionTooLarge
    | ImageTooLarge

  datatype LoadedImage = LoadedImage(
    entryPoint: nat, imageBase: nat, imageSize: nat, sectionsLoaded: nat, root: nat, stackTop: nat)

  /** Stopped: the kernel halted inside `map_page` or while naming imports. */
  datatype LoadOutcome = Loaded(image: LoadedImage) | Failed(error: LoadError) | Stopped

  // ---- What a loaded address space holds ----

  /** The file bytes of a section; none when the file does not hold all of them. */
  function RawData(data: seq<byte>, s: Section): seq<byte> {
    if s.rawSize > 0 && s.rawOffset + s.rawSize <= |data| then data[s.rawOffset..s.rawOffset + s.rawSize] else []
  }

  function SectionLayout(base: nat, data: seq<byte>, s: Section): Layout {
    Layout((base + s.virtualAddress) / 4096, 0, PageCount(s.MemSize()), RawData(data, s))
  }

  /** Sections of size zero are skipped. */
  function SectionLayer(base: nat, data: seq<byte>, s: Section): seq<Layout> {
    if s.MemSize() == 0 then [] else [SectionLayout(base, data, s)]
  }

  function SectionLayers(base: nat, data: seq<byte>, sections: seq<Section>): seq<Layout> {
    if |sections| == 0 then []
    else
      var s := sections[|sections| - 1];
      SectionLayers(base, data, sections[..|sections| - 1]) + SectionLayer(base, data, s)
  }

  function HeaderLayout(data: seq<byte>, pe: PeInfo): Layout
    requires pe.optional.sizeOfHeaders <= |data|
  {
    var n := pe.optional.sizeOfHeaders;
    Layout(pe.optional.imageBase / 4096, 0, PageCount(n), data[..n])
  }

  const STACK_LAYOUT: Layout := Layout(STACK_PAGE, 0, 16, [])

  function ImageLayers(data: seq<byte>, pe: PeInfo): seq<Layout>
    requires pe.optional.sizeOfHeaders <= |data|
  {
    [HeaderLayout(data, pe)] + SectionLayers(pe.optional.imageBase, data, pe.sections) + [STACK_LAYOUT]
  }

  /** The lower half of `root` holds exactly `layers`. */
  ghost predicate Holds(a: Snapshot, root: nat, layers: seq<Layout>) {
    forall vq :: 0 <= vq < USER_PAGES ==> PageAt(a.mem, root, vq) == ContentAt(layers, vq)
  }

  /** No address space of `a` changed a translation or the content of a user page. */
  ghost predicate OthersKept(a: Snapshot, b: Snapshot, kr: nat) {
    && (forall s, vq :: UserRoot(a, kr, s) && 0 <= vq < USER_PAGES ==> PageAt(b.mem, s, vq) == PageAt(a.mem, s, vq))
    && (forall s, vq :: IsRoot(a.owner, s) && 0 <= vq < PAGES ==> Translate(b.mem, s, vq) == Translate(a.mem, s, vq))
    && (forall s :: IsRoot(a.owner, s) ==> IsRoot(b.owner, s))
  }

  /** A load that started at `start` and has laid `layers` over the new address space `root`. */
  datatype Load = Load(start: Snapshot, root: nat, layers: seq<Layout>)

  /** Everything known half way through a load. */
  ghost predicate Building(load: Load, b: Snapshot, kr: nat) {
    match load
    case Load(a, root, layers) =>
      && UserRoot(b, kr, root) && root !in a.owner
      && Holds(b, root, layers)
      && OthersKept(a, b, kr)
  }

  lemma NewSpaceBuilding(a: Snapshot, b: Snapshot, kr: nat, cur: nat, root: nat)
    requires Good(a, kr) && UserRoot(b, kr, root) && NewSpace(a, b, kr, cur, root)
    ensures Building(Load(a, root, []), b, kr)
  {
  }

  lemma LayerAdded(a: Snapshot, b: Snapshot, pb: Backing, c: Snapshot, pc: Backing,
                   kr: nat, root: nat, layers: seq<Layout>, x: Layout)
    requires Building(Load(a, root, layers), b, kr)
    requires x.first == 0 && MappedImage(b, pb, c, pc, kr, root, x.base, x.data, x.last)
    ensures Building(Load(a, root, layers + [x]), c, kr)
  {
    assert x == Layout(x.base, 0, x.last, x.data);
    assert (layers + [x])[..|layers|] == layers;
    forall s, vq | UserRoot(a, kr, s) && 0 <= vq < USER_PAGES ensures PageAt(c.mem, s, vq) == PageAt(a.mem, s, vq) {
      assert UserRoot(b, kr, s);
    }
    forall s, vq | IsRoot(a.owner, s) && 0 <= vq < PAGES ensures Translate(c.mem, s, vq) == Translate(a.mem, s, vq) {
      assert IsRoot(b.owner, s);
    }
    forall s | IsRoot(a.owner, s) ensures IsRoot(c.owner, s) {
      assert IsRoot(b.owner, s);
    }
  }

  // ---- Imports ----

  /** The length of a name at `o` after `len` bytes: it stops at a zero, at the end of the file, or at 129. */
  function NameLength(data: seq<byte>, o: nat, len: nat): nat
    decreases 129 - len
  {
    if len > 128 || o + len >= |data| || data[o + len] == 0 then len else NameLength(data, o, len + 1)
  }

  lemma {:induction false} NameLengthStops(data: seq<byte>, o: nat, len: nat)
    requires len <= 129 && o + len <= |data|
    ensures var n := NameLength(data, o, len);
      && len <= n <= 129 && o + n <= |data|
      && (forall j :: o + len <= j < o + n ==> data[j] != 0)
      && (n == 129 || o + n == |data| || data[o + n] == 0)
    decreases 129 - len
  {
    if !(len > 128 || o + len >= |data| || data[o + len] == 0) {
      NameLengthStops(data, o, len + 1);
    }
  }

  /** The greatest RVA any section reaches. */
  function SectionsEnd(sections: seq<Section>): nat {
    if |sections| == 0 then 0
    else
      var s, rest := sections[0], SectionsEnd(sections[1..]);
      if s.virtualAddress + s.MemSize() > rest then s.virtualAddress + s.MemSize() else rest
  }

  lemma {:induction false} OffsetBelowEnd(rva: nat, sections: seq<Section>)
    ensures OffsetOf(rva, sections).Some? ==> rva < SectionsEnd(sections)
  {
    if |sections| != 0 {
      OffsetBelowEnd(rva, sections[1..]);
    }
  }

  function Prepend(found: seq<seq<byte>>, rest: Outcome<seq<seq<byte>>>): Outcome<seq<seq<byte>>> {
    match rest
    case Panicked => Panicked
    case Returned(names) => Returned(found + names)
  }

  lemma PrependLaws(found: seq<seq<byte>>, name: seq<byte>, rest: Outcome<seq<seq<byte>>>)
    ensures Prepend([], rest) == rest
    ensures Prepend(found, Returned([])) == Returned(found)
    ensures Prepend(found, Prepend([name], rest)) == Prepend(found + [name], rest)
  {
    if rest.Returned? {
      assert [] + rest.value == rest.value;
      assert found + ([name] + rest.value) == found + [name] + rest.value;
    }
    assert found + [] == found;
  }

  /**
   The names of the descriptors from `rva` on, up to a null one or the end of the file or of the sections.
   A name placed beyond the end of the file stops the kernel; one outside all sections is passed over.
   */
  function ImportedNames(data: seq<byte>, sections: seq<Section>, rva: nat): Outcome<seq<seq<byte>>>
    decreases SectionsEnd(sections) - rva
  {
    OffsetBelowEnd(rva, sections);
    match OffsetOf(rva, sections)
    case None => Returned([])
    case Some(o) =>
      if o + IMPORT_DESCRIPTOR > |data| || (U32(data, o + 12) == 0 && U32(data, o) == 0) then Returned([])
      else
        match OffsetOf(U32(data, o + 12), sections)
        case None => ImportedNames(data, sections, rva + 20)
        case Some(n) =>
          if n > |data| then Panicked
          else
            NameLengthStops(data, n, 0);
            Prepend([data[n..n + NameLength(data, n, 0)]], ImportedNames(data, sections, rva + 20))
  }

  /** The walk reads at most one name for each 20 bytes between its start and the end of the sections. */
  lemma {:induction false} ImportsBounded(data: seq<byte>, sections: seq<Section>, rva: nat)
    ensures ImportedNames(data, sections, rva).Returned? && rva <= SectionsEnd(sections) ==>
      20 * |ImportedNames(data, sections, rva).value| < SectionsEnd(sections) - rva + 20
    ensures rva > SectionsEnd(sections) ==> ImportedNames(data, sections, rva) == Returned([])
    decreases SectionsEnd(sections) - rva
  {
    OffsetBelowEnd(rva, sections);
    if OffsetOf(rva, sections).Some? {
      ImportsBounded(data, sections, rva + 20);
    }
  }

  // ---- Imports as they are laid out ----

  /** At `o` the file holds this name and then a zero. */
  predicate NameAt(data: seq<byte>, o: nat, name: seq<byte>) {
    && o + |name| < |data| && data[o..o + |name|] == name && data[o + |name|] == 0
    && |name| <= 128 && 0 !in name
  }

  /**
   From `rva` on there is one descriptor of 20 bytes for each name and then one with zeros for both its first
   field and its name.  The name RVA in bytes 12 to 15 leads to the name, or, for `None`, to no section.
   */
  ghost predicate ImportsAt(data: seq<byte>, sections: seq<Section>, rva: nat, names: seq<Option<seq<byte>>>)
    decreases |names|
  {
    match OffsetOf(rva, sections)
    case None => false
    case Some(o) =>
      && o + 20 <= |data|
      && if |names| == 0 then NumberAt(data, o, 4, 0) && NumberAt(data, o + 12, 4, 0)
         else
           && DescriptorAt(data, sections, o, names[0])
           && ImportsAt(data, sections, rva + 20, names[1..])
  }

  ghost predicate DescriptorAt(data: seq<byte>, sections: seq<Section>, o: nat, name: Option<seq<byte>>) {
    exists nameRva: nat ::
      && NumberAt(data, o + 12, 4, nameRva) && (nameRva == 0 ==> o + 4 <= |data| && !NumberAt(data, o, 4, 0))
      && NameFound(data, sections, nameRva, name)
  }

  predicate NameFound(data: seq<byte>, sections: seq<Section>, nameRva: nat, name: Option<seq<byte>>) {
    match name
    case None => OffsetOf(nameRva, sections).None?
    case Some(bytes) => OffsetOf(nameRva, sections).Some? && NameAt(data, OffsetOf(nameRva, sections).value, bytes)
  }

  function Present(names: seq<Option<seq<byte>>>): seq<seq<byte>> {
    if |names| == 0 then [] else (if names[0].Some? then [names[0].value] else []) + Present(names[1..])
  }

  lemma {:induction false} NameIsRead(data: seq<byte>, o: nat, name: seq<byte>, len: nat)
    requires NameAt(data, o, name) && len <= |name|
    ensures NameLength(data, o, len) == |name|
    decreases |name| - len
  {
    if len < |name| {
      assert data[o + len] == data[o..o + |name|][len] == name[len];
      NameIsRead(data, o, name, len + 1);
    }
  }

  lemma ImportsEnd(data: seq<byte>, sections: seq<Section>, rva: nat, o: nat)
    requires OffsetOf(rva, sections) == Some(o) && NumberAt(data, o, 4, 0) && NumberAt(data, o + 12, 4, 0)
    ensures ImportedNames(data, sections, rva) == Returned([])
  {
    hide OffsetOf, LE, NameLength;
    NumberIsRead(data, o, 4, 0);
    NumberIsRead(data, o + 12, 4, 0);
  }

  lemma DescriptorIsRead(data: seq<byte>, sections: seq<Section>, rva: nat, o: nat, name: Option<seq<byte>>)
    requires OffsetOf(rva, sections) == Some(o) && o + 20 <= |data| && DescriptorAt(data, sections, o, name)
    ensures ImportedNames(data, sections, rva) ==
      Prepend(if name.Some? then [name.value] else [], ImportedNames(data, sections, rva + 20))
  {
    hide OffsetOf, LE, NameLength, NameAt, Prepend;
    var nameRva: nat :|
      && NumberAt(data, o + 12, 4, nameRva) && (nameRva == 0 ==> o + 4 <= |data| && !NumberAt(data, o, 4, 0))
      && NameFound(data, sections, nameRva, name);
    NumberIsRead(data, o + 12, 4, nameRva);
    NumberIsRead(data, o, 4, 0);
    PrependLaws([], [], ImportedNames(data, sections, rva + 20));
    if name.Some? {
      var n := OffsetOf(nameRva, sections).value;
      NameIsRead(data, n, name.value, 0);
      NameBytes(data, n, name.value);
    }
  }

  lemma NameBytes(data: seq<byte>, o: nat, name: seq<byte>)
    requires NameAt(data, o, name)
    ensures o + |name| < |data| && data[o..o + |name|] == name
  {
  }

  /** The walk returns exactly the names laid out, in order, without those that lie in no section. */
  lemma {:induction false} ImportsAreRead(
      data: seq<byte>, sections: seq<Section>, rva: nat, names: seq<Option<seq<byte>>>)
    requires ImportsAt(data, sections, rva, names)
    ensures ImportedNames(data, sections, rva) == Returned(Present(names))
    decreases |names|
  {
    hide OffsetOf, DescriptorAt, ImportedNames, NumberAt;
    var o := OffsetOf(rva, sections).value;
    if |names| == 0 {
      ImportsEnd(data, sections, rva, o);
    } else {
      DescriptorIsRead(data, sections, rva, o, names[0]);
      ImportsAreRead(data, sections, rva + 20, names[1..]);
    }
  }

  method ImportName(data: seq<byte>, o: nat) returns (name: Outcome<seq<byte>>)
    ensures name.Panicked? <==> o > |data|
    ensures name.Returned? ==>
      o + NameLength(data, o, 0) <= |data| && name.value == data[o..o + NameLength(data, o, 0)]
  {
    var len := 0;
    while o + len < |data| && data[o + len] != 0
      invariant len <= 128 && (o + len <= |data| || len == 0)
      invariant NameLength(data, o, 0) == NameLength(data, o, len)
      decreases |data| - len
    {
      len := len + 1;
      if len > 128 { break; }
    }
    if o > |data| {
      return Panicked; // slice index out of range
    }
    return Returned(data[o..o + len]);
  }

  method WalkImports(data: seq<byte>, sections: seq<Section>, importRva: nat) returns (names: Outcome<seq<seq<byte>>>)
    ensures names == ImportedNames(data, sections, importRva)
  {
    hide OffsetOf, SectionsEnd;
    var found: seq<seq<byte>> := [];
    var rva := importRva;
    PrependLaws([], [], ImportedNames(data, sections, importRva));
    while true
      invariant Prepend(found, ImportedNames(data, sections, rva)) == ImportedNames(data, sections, importRva)
      decreases SectionsEnd(sections) - rva
    {
      OffsetBelowEnd(rva, sections);
      var at := RvaToOffset(rva, sections);
      if at.None? || at.value + IMPORT_DESCRIPTOR > |data| {
        PrependLaws(found, [], Panicked);
        return Returned(found);
      }
      var nameRva := U32(data, at.value + 12);
      if nameRva == 0 && U32(data, at.value) == 0 {
        PrependLaws(found, [], Panicked);
        return Returned(found);
      }
      var nameAt := RvaToOffset(nameRva, sections);
      if nameAt.Some? {
        var name := ImportName(data, nameAt.value);
        if name.Panicked? {
          return Panicked;
        }
        PrependLaws(found, name.value, ImportedNames(data, sections, rva + 20));
        found := found + [name.value];
      }
      rva := rva + 20;
    }
  }

  function ImportsOf(data: seq<byte>, pe: PeInfo): Outcome<seq<seq<byte>>> {
    var dirOffset := pe.lfanew + 4 + FILE_HEADER + OPTIONAL_HEADER;
    if pe.optional.numberOfRvaAndSizes <= IMPORT_DIRECTORY then Returned([])
    else if dirOffset + pe.optional.numberOfRvaAndSizes * 8 > |data| then Returned([])
    else if U32(data, dirOffset + 8) == 0 || U32(data, dirOffset + 12) == 0 then Returned([])
    else ImportedNames(data, pe.sections, U32(data, dirOffset + 8))
  }

  /**
   The import directory is the second of the directory entries behind the optional header.  Its names are read
   when the entries lie in the file and its address and size are not 0; otherwise there are none.
   */
  lemma DirectoryDecides(data: seq<byte>, pe: PeInfo, va: u32, size: u32, names: seq<Option<seq<byte>>>)
    requires pe.lfanew + 136 + 8 * pe.optional.numberOfRvaAndSizes <= |data| && pe.optional.numberOfRvaAndSizes >= 2
    requires NumberAt(data, pe.lfanew + 144, 4, va) && NumberAt(data, pe.lfanew + 148, 4, size)
    ensures va == 0 || size == 0 ==> ImportsOf(data, pe) == Returned([])
    ensures va != 0 && size != 0 && ImportsAt(data, pe.sections, va, names) ==>
      ImportsOf(data, pe) == Returned(Present(names))
  {
    hide ImportedNames, ImportsAt, LE;
    NumberIsRead(data, pe.lfanew + 144, 4, va);
    NumberIsRead(data, pe.lfanew + 148, 4, size);
    if va != 0 && size != 0 && ImportsAt(data, pe.sections, va, names) {
      ImportsAreRead(data, pe.sections, va, names);
    }
  }

  lemma NoDirectoryNoImports(data: seq<byte>, pe: PeInfo)
    requires pe.optional.numberOfRvaAndSizes < 2
          || pe.lfanew + 136 + 8 * pe.optional.numberOfRvaAndSizes > |data|
    ensures ImportsOf(data, pe) == Returned([])
  {
  }

  method LogImports(data: seq<byte>, pe: PeInfo) returns (names: Outcome<seq<seq<byte>>>)
    ensures names == ImportsOf(data, pe)
  {
    var dirs := pe.optional.numberOfRvaAndSizes;
    if dirs <= IMPORT_DIRECTORY {
      return Returned([]);
    }
    var dirOffset := pe.lfanew + 4 + FILE_HEADER + OPTIONAL_HEADER;
    if dirOffset + dirs * 8 > |data| {
      return Returned([]);
    }
    var va, size := U32(data, dirOffset + 8), U32(data, dirOffset + 12);
    if va == 0 || size == 0 {
      return Returned([]);
    }
    names := WalkImports(data, pe.sections, va);
  }

  // ---- Loading ----

  /** Everything the loader maps lies below 2^47. */
  ghost predicate InLowerHalf(data: seq<byte>, pe: PeInfo) {
    && pe.optional.imageBase / 4096 + PageCount(pe.optional.sizeOfHeaders) <= USER_PAGES
    && forall i :: 0 <= i < |pe.sections| ==> SectionInLowerHalf(pe.optional.imageBase, pe.sections[i])
  }

  predicate SectionInLowerHalf(base: nat, s: Section) {
    (base + s.virtualAddress) / 4096 + PageCount(s.MemSize()) <= USER_PAGES
  }

  /** The errors found before any memory is taken. */
  function RejectedEarly(data: seq<byte>): Option<LoadError> {
    match ParsePe(data)
    case Err(e) => Some(InvalidPe(e))
    case Ok(pe) =>
      if pe.coff.machine != MACHINE_AMD64 then Some(WrongArchitecture)
      else if IsDll(pe.coff.characteristics) then Some(NotExecutable)
      else if pe.optional.sizeOfImage > MAX_IMAGE_SIZE then Some(ImageTooLarge)
      else None
  }

  /** Why the sections cannot all be mapped: the first one over 4 MiB, or over the 256 pages one call maps. */
  function Refusal(sections: seq<Section>): (r: Option<LoadError>)
    ensures r.Some? ==> r.value == SectionTooLarge || r.value == OutOfMemory
  {
    if |sections| == 0 then None
    else if sections[0].MemSize() > MAX_SECTION_SIZE then Some(SectionTooLarge)
    else if PageCount(sections[0].MemSize()) > MAX_IMAGE_PAGES then Some(OutOfMemory)
    else Refusal(sections[1..])
  }

  /** Frames that are always enough for one section, and for all of them. */
  function SectionCost(s: Section): nat {
    if s.MemSize() == 0 then 0 else PageCount(s.MemSize()) + 6
  }

  function SectionsCost(sections: seq<Section>): nat {
    if |sections| == 0 then 0 else SectionCost(sections[0]) + SectionsCost(sections[1..])
  }

  datatype Verdict = Accepted | Rejected(error: LoadError) | Halts

  /** What becomes of an image when memory suffices. */
  function VerdictOn(data: seq<byte>): Verdict {
    if RejectedEarly(data).Some? then Rejected(RejectedEarly(data).value)
    else
      var pe := ParsePe(data).value;
      if pe.optional.sizeOfHeaders > |data| then Rejected(InvalidPe(InvalidImageFormat))
      else if PageCount(pe.optional.sizeOfHeaders) > MAX_IMAGE_PAGES then Rejected(OutOfMemory)
      else if Refusal(pe.sections).Some? then Rejected(Refusal(pe.sections).value)
      else if ImportsOf(data, pe).Panicked? then Halts
      else Accepted
  }

  /** Frames that are always enough to load the image: root, headers, sections and stack. */
  function LoadCost(pe: PeInfo): nat {
    1 + (PageCount(pe.optional.sizeOfHeaders) + 6) + SectionsCost(pe.sections) + 22
  }

  /** Bit 13 of the characteristics. */
  predicate IsDll(characteristics: nat) {
    characteristics / CHARACTERISTIC_DLL % 2 == 1
  }

  // ---- The verdict in terms of the headers ----

  /** The section needs at most `n` bytes of memory: its virtual size, or its raw size when that is 0. */
  predicate AtMost(s: Section, n: nat) {
    s.virtualSize <= n && (s.virtualSize == 0 ==> s.rawSize <= n)
  }

  /** What is rejected before any memory is taken, and in which order: machine, DLL, size. */
  lemma EarlyErrors(data: seq<byte>, pe: PeInfo)
    requires Written(data, pe)
    ensures var dll := pe.coff.characteristics % 0x4000 >= 0x2000;
      && (RejectedEarly(data) == Some(WrongArchitecture) <==> pe.coff.machine != 0x8664)
      && (RejectedEarly(data) == Some(NotExecutable) <==> pe.coff.machine == 0x8664 && dll)
      && (RejectedEarly(data) == Some(ImageTooLarge) <==>
            pe.coff.machine == 0x8664 && !dll && pe.optional.sizeOfImage > 0x100_0000)
      && (RejectedEarly(data).None? <==>
            pe.coff.machine == 0x8664 && !dll && pe.optional.sizeOfImage <= 0x100_0000)
  {
    ParsedIffWritten(data, pe);
    hide ParsePe, Written;
  }

  /** A file without proper headers is rejected with the error of the parser. */
  lemma BadHeadersAreRejected(data: seq<byte>, e: PeError)
    ensures RejectedEarly(data) == Some(InvalidPe(e)) <==> ParsePe(data) == Err(e)
  {
    hide ParsePe;
  }

  /** Section `k` is the first that needs more than 1 MiB, the 256 pages of one mapping call. */
  predicate FirstUnfit(sections: seq<Section>, k: nat) {
    k < |sections| && !AtMost(sections[k], 0x10_0000) && forall i :: 0 <= i < k ==> AtMost(sections[i], 0x10_0000)
  }

  /** The first section over 1 MiB stops the load: as too large above 4 MiB, as out of memory below. */
  lemma {:induction false} RefusedIff(sections: seq<Section>)
    ensures Refusal(sections).None? <==> forall i :: 0 <= i < |sections| ==> AtMost(sections[i], 0x10_0000)
    ensures forall k: nat :: FirstUnfit(sections, k) ==>
      Refusal(sections) == Some(if AtMost(sections[k], 0x40_0000) then OutOfMemory else SectionTooLarge)
  {
    if |sections| != 0 {
      var rest := sections[1..];
      RefusedIff(rest);
      PagesOfOneMiB(sections[0]);
      assert forall i :: 0 < i < |sections| ==> sections[i] == rest[i - 1];
      if AtMost(sections[0], 0x10_0000) {
        forall k: nat | FirstUnfit(sections, k) ensures FirstUnfit(rest, k - 1) {
          assert forall i :: 0 <= i < k - 1 ==> rest[i] == sections[i + 1];
        }
        assert forall i :: 0 <= i < |rest| ==> rest[i] == sections[i + 1];
      }
    }
  }

  lemma PagesOfOneMiB(s: Section)
    ensures PageCount(s.MemSize()) <= MAX_IMAGE_PAGES <==> AtMost(s, 0x10_0000)
    ensures s.MemSize() > MAX_SECTION_SIZE <==> !AtMost(s, 0x40_0000)
  {
  }

  /** With enough memory, an image loads exactly when its headers say so and no import name lies past its end. */
  lemma AcceptedIff(data: seq<byte>, pe: PeInfo)
    requires Written(data, pe)
    ensures VerdictOn(data) == Accepted <==>
      && pe.coff.machine == 0x8664 && pe.coff.characteristics % 0x4000 < 0x2000
      && pe.optional.sizeOfImage <= 0x100_0000
      && pe.optional.sizeOfHeaders <= |data| && pe.optional.sizeOfHeaders <= 0x10_0000
      && (forall i :: 0 <= i < |pe.sections| ==> AtMost(pe.sections[i], 0x10_0000))
      && ImportsOf(data, pe).Returned?
    ensures VerdictOn(data) == Halts ==> ImportsOf(data, pe).Panicked?
  {
    hide ParsePe, ImportsOf, Refusal, Written;
    ParsedIffWritten(data, pe);
    EarlyErrors(data, pe);
    RefusedIff(pe.sections);
    hide RejectedEarly;
    assert PageCount(pe.optional.sizeOfHeaders) <= MAX_IMAGE_PAGES <==> pe.optional.sizeOfHeaders <= 0x10_0000;
  }

  /** Maps one layer over the address space under construction. */
  method MapLayer(u: UserSpaces, ghost a: Snapshot, root: nat, virt: u64, data: seq<byte>, size: nat,
                  ghost layers: seq<Layout>, ghost x: Layout)
    returns (out: MapOutcome)
    requires u.Valid() && Building(Load(a, root, layers), u.k.Snap(), u.k.kernelRoot)
    requires x == Layout(virt / 4096, 0, PageCount(size), data) && x.base + x.last <= USER_PAGES
    modifies u`pages, u.k`m, u.k`owner, u.k.mem, u.k.phys`freeFrames, u.k.phys`used, u.k.phys.bitmap
    ensures out != Panic ==> u.Valid() && OthersKept(a, u.k.Snap(), u.k.kernelRoot)
    ensures out == Success ==>
      Building(Load(a, root, layers + [x]), u.k.Snap(), u.k.kernelRoot)
    ensures PageCount(size) > MAX_IMAGE_PAGES ==> out == Refused
    ensures PageCount(size) <= MAX_IMAGE_PAGES && old(u.k.phys.freeFrames) >= PageCount(size) + 6 ==> out == Success
    ensures out == Success ==> u.k.phys.freeFrames + PageCount(size) + 6 >= old(u.k.phys.freeFrames)
  {
    ghost var b, pb := u.k.Snap(), u.pages;
    ghost var done;
    out, done := u.MapUserPages(root, virt, data, size);
    if out != Panic {
      LayerAdded(a, b, pb, u.k.Snap(), u.pages, u.k.kernelRoot, root, layers, x.(last := done));
    }
  }

  /** One turn of the section loop of `load_pe`. */
  method MapSection(u: UserSpaces, ghost a: Snapshot, root: nat, base: u64, data: seq<byte>, s: Section,
                    ghost layers: seq<Layout>)
    returns (out: MapOutcome)
    requires u.Valid() && Building(Load(a, root, layers), u.k.Snap(), u.k.kernelRoot)
    requires SectionInLowerHalf(base, s) && s.MemSize() <= MAX_SECTION_SIZE
    modifies u`pages, u.k`m, u.k`owner, u.k.mem, u.k.phys`freeFrames, u.k.phys`used, u.k.phys.bitmap
    ensures out != Panic ==> u.Valid() && OthersKept(a, u.k.Snap(), u.k.kernelRoot)
    ensures out == Success ==>
      && Building(Load(a, root, layers + SectionLayer(base, data, s)), u.k.Snap(), u.k.kernelRoot)
      && PageCount(s.MemSize()) <= MAX_IMAGE_PAGES
    ensures PageCount(s.MemSize()) > MAX_IMAGE_PAGES ==> out == Refused
    ensures PageCount(s.MemSize()) <= MAX_IMAGE_PAGES && old(u.k.phys.freeFrames) >= SectionCost(s) ==> out == Success
    ensures out == Success ==> u.k.phys.freeFrames + SectionCost(s) >= old(u.k.phys.freeFrames)
  {
    if s.MemSize() == 0 {
      assert layers + [] == layers;
      return Success;
    }
    SectionAddress(base, s);
    out := MapLayer(
      u, a, root, base + s.virtualAddress, RawData(data, s), s.MemSize(), layers, SectionLayout(base, data, s));
  }

  /** The section loop of `load_pe`. */
  method MapSections(u: UserSpaces, ghost a: Snapshot, root: nat, base: u64, data: seq<byte>,
                     sections: seq<Section>, ghost layers: seq<Layout>)
    returns (out: MapOutcome, tooLarge: bool, loaded: nat)
    requires u.Valid() && Building(Load(a, root, layers), u.k.Snap(), u.k.kernelRoot)
    requires forall i :: 0 <= i < |sections| ==> SectionInLowerHalf(base, sections[i])
    modifies u`pages, u.k`m, u.k`owner, u.k.mem, u.k.phys`freeFrames, u.k.phys`used, u.k.phys.bitmap
    ensures out != Panic ==> u.Valid() && OthersKept(a, u.k.Snap(), u.k.kernelRoot)
    ensures out == Success ==>
      && Building(Load(a, root, layers + SectionLayers(base, data, sections)), u.k.Snap(), u.k.kernelRoot)
      && loaded == |SectionLayers(base, data, sections)|
      && forall i :: 0 <= i < |sections| ==> PageCount(sections[i].MemSize()) <= MAX_IMAGE_PAGES
    ensures tooLarge ==> out == Refused && Refusal(sections) == Some(SectionTooLarge)
    ensures out == Success ==> Refusal(sections).None?
    ensures old(u.k.phys.freeFrames) >= SectionsCost(sections) ==>
      && out != Panic && (out == Success <==> Refusal(sections).None?)
      && (tooLarge <==> Refusal(sections) == Some(SectionTooLarge))
    ensures out == Success ==> u.k.phys.freeFrames + SectionsCost(sections) >= old(u.k.phys.freeFrames)
  {
    hide ContentAt, PageAt, Translate;
    loaded := 0;
    ghost var now := layers;
    assert now == layers + SectionLayers(base, data, sections[..0]);
    for i := 0 to |sections|
      invariant u.Valid() && Building(Load(a, root, now), u.k.Snap(), u.k.kernelRoot)
      invariant now == layers + SectionLayers(base, data, sections[..i])
      invariant loaded == |now| - |layers|
      invariant forall j :: 0 <= j < i ==> PageCount(sections[j].MemSize()) <= MAX_IMAGE_PAGES
      invariant Refusal(sections[i..]) == Refusal(sections)
      invariant u.k.phys.freeFrames + SectionsCost(sections) >= old(u.k.phys.freeFrames) + SectionsCost(sections[i..])
    {
      assert sections[i..][0] == sections[i] && sections[i..][1..] == sections[i + 1..];
      if sections[i].MemSize() > MAX_SECTION_SIZE {
        return Refused, true, loaded;
      }
      NextSection(base, data, sections, i, layers);
      out := MapSection(u, a, root, base, data, sections[i], now);
      if out != Success {
        return out, false, loaded;
      }
      now := now + SectionLayer(base, data, sections[i]);
      loaded := if sections[i].MemSize() == 0 then loaded else loaded + 1;
    }
    assert sections[..|sections|] == sections;
    return Success, false, loaded;
  }

  lemma NextSection(base: nat, data: seq<byte>, sections: seq<Section>, i: nat, layers: seq<Layout>)
    requires i < |sections|
    ensures layers + SectionLayers(base, data, sections[..i + 1])
         == layers + SectionLayers(base, data, sections[..i])
            + SectionLayer(base, data, sections[i])
  {
    assert sections[..i + 1][..i] == sections[..i];
  }

  lemma SectionAddress(base: u64, s: Section)
    requires SectionInLowerHalf(base, s)
    ensures base + s.virtualAddress < 0x1_0000_0000_0000_0000
  {
  }

  /**
   Loading a PE image.  A loaded image holds the headers, the sections and a zeroed stack, laid over
   each other in that order, and nothing else.  Whatever happens, no other address space changes.
   */
  method LoadPe(u: UserSpaces, current: nat, data: seq<byte>) returns (out: LoadOutcome)
    requires u.Valid() && IsRoot(u.k.owner, current)
    requires ParsePe(data).Ok? ==> InLowerHalf(data, ParsePe(data).value)
    modifies u`pages, u.k`m, u.k`owner, u.k.mem, u.k.phys`freeFrames, u.k.phys`used, u.k.phys.bitmap
    ensures RejectedEarly(data).Some? ==> out == Failed(RejectedEarly(data).value) && u.k.Snap() == old(u.k.Snap())
    ensures out != Stopped ==> u.Valid() && OthersKept(old(u.k.Snap()), u.k.Snap(), u.k.kernelRoot)
    ensures out.Loaded? ==>
      var pe := ParsePe(data).value;
      && RejectedEarly(data).None? && pe.optional.sizeOfHeaders <= |data|
      && (forall i :: 0 <= i < |pe.sections| ==> PageCount(pe.sections[i].MemSize()) <= MAX_IMAGE_PAGES)
      && Building(Load(old(u.k.Snap()), out.image.root, ImageLayers(data, pe)), u.k.Snap(), u.k.kernelRoot)
      && out.image == LoadedImage(
           pe.optional.imageBase + pe.optional.entryRva, pe.optional.imageBase, pe.optional.sizeOfImage,
           |ImageLayers(data, pe)| - 2, out.image.root, USER_STACK_TOP)
    ensures (ParsePe(data).Ok? ==> old(u.k.phys.freeFrames) >= LoadCost(ParsePe(data).value)) ==>
      Agrees(out, VerdictOn(data))
  {
    var early := RejectedEarly(data);
    if early.Some? {
      return Failed(early.value);
    }
    var pe := ParsePe(data).value;
    var base, headers := pe.optional.imageBase, pe.optional.sizeOfHeaders;
    ghost var a := u.k.Snap();
    var space := u.CreateAddressSpace(current);
    if space.None? {
      return Failed(OutOfMemory);
    }
    var root := space.value;
    NewSpaceBuilding(a, u.k.Snap(), u.k.kernelRoot, current, root);
    if headers > |data| {
      return Failed(InvalidPe(InvalidImageFormat));
    }
    out := MapImage(u, a, root, data, pe);
  }

  /** Headers, sections and stack of an accepted image, mapped into the empty address space `root`. */
  method MapImage(u: UserSpaces, ghost a: Snapshot, root: nat, data: seq<byte>, pe: PeInfo) returns (out: LoadOutcome)
    requires u.Valid() && Building(Load(a, root, []), u.k.Snap(), u.k.kernelRoot)
    requires InLowerHalf(data, pe) && pe.optional.sizeOfHeaders <= |data|
    modifies u`pages, u.k`m, u.k`owner, u.k.mem, u.k.phys`freeFrames, u.k.phys`used, u.k.phys.bitmap
    ensures out != Stopped ==> u.Valid() && OthersKept(a, u.k.Snap(), u.k.kernelRoot)
    ensures out.Loaded? ==>
      && (forall i :: 0 <= i < |pe.sections| ==> PageCount(pe.sections[i].MemSize()) <= MAX_IMAGE_PAGES)
      && Building(Load(a, root, ImageLayers(data, pe)), u.k.Snap(), u.k.kernelRoot)
      && out.image == LoadedImage(
           pe.optional.imageBase + pe.optional.entryRva, pe.optional.imageBase, pe.optional.sizeOfImage,
           |ImageLayers(data, pe)| - 2, root, USER_STACK_TOP)
    ensures RejectedEarly(data).None? && ParsePe(data).value == pe && old(u.k.phys.freeFrames) + 1 >= LoadCost(pe) ==>
      Agrees(out, VerdictOn(data))
  {
    hide ContentAt, SectionLayers, PageAt, Translate, SectionsCost, Refusal, ImportsOf, OthersKept;
    var base, headers := pe.optional.imageBase, pe.optional.sizeOfHeaders;
    ghost var layers := [] + [HeaderLayout(data, pe)];
    var mapped := MapLayer(u, a, root, base, data[..headers], headers, [], HeaderLayout(data, pe));
    if mapped != Success {
      return if mapped == Panic then Stopped else Failed(OutOfMemory);
    }
    var tooLarge, loaded;
    mapped, tooLarge, loaded := MapSections(u, a, root, base, data, pe.sections, layers);
    if mapped != Success {
      return if mapped == Panic then Stopped else if tooLarge then Failed(SectionTooLarge) else Failed(OutOfMemory);
    }
    layers := layers + SectionLayers(base, data, pe.sections);
    var names := LogImports(data, pe);
    if names.Panicked? {
      return Stopped;
    }
    mapped := MapLayer(u, a, root, USER_STACK_TOP - USER_STACK_SIZE, [], USER_STACK_SIZE, layers, STACK_LAYOUT);
    if mapped != Success {
      return if mapped == Panic then Stopped else Failed(OutOfMemory);
    }
    assert layers + [STACK_LAYOUT] == ImageLayers(data, pe);
    return Loaded(
      LoadedImage(base + pe.optional.entryRva, base, pe.optional.sizeOfImage, loaded, root, USER_STACK_TOP));
  }

  predicate Agrees(out: LoadOutcome, verdict: Verdict) {
    match verdict
    case Accepted => out.Loaded?
    case Rejected(e) => out == Failed(e)
    case Halts => out == Stopped
  }

  /** Loading a raw binary: its bytes at the default image base, and a stack. */
  method LoadRawBinary(u: UserSpaces, current: nat, code: seq<byte>) returns (out: LoadOutcome)
    requires u.Valid() && IsRoot(u.k.owner, current)
    requires USER_IMAGE_BASE / 4096 + PageCount(|code|) <= USER_PAGES
    modifies u`pages, u.k`m, u.k`owner, u.k.mem, u.k.phys`freeFrames, u.k.phys`used, u.k.phys.bitmap
    ensures out != Stopped ==> u.Valid() && OthersKept(old(u.k.Snap()), u.k.Snap(), u.k.kernelRoot)
    ensures out.Failed? ==> out.error == OutOfMemory
    ensures out.Loaded? ==>
      var size := PageCount(|code|) * 4096;
      var layers := [Layout(USER_IMAGE_BASE / 4096, 0, PageCount(|code|), code), STACK_LAYOUT];
      && Building(Load(old(u.k.Snap()), out.image.root, layers), u.k.Snap(), u.k.kernelRoot)
      && out.image == LoadedImage(USER_IMAGE_BASE, USER_IMAGE_BASE, size, 1, out.image.root, USER_STACK_TOP)
    ensures old(u.k.phys.freeFrames) >= PageCount(|code|) + 29 ==>
      if PageCount(|code|) <= MAX_IMAGE_PAGES then out.Loaded? else out == Failed(OutOfMemory)
  {
    ghost var a := u.k.Snap();
    var space := u.CreateAddressSpace(current);
    if space.None? {
      return Failed(OutOfMemory);
    }
    var root := space.value;
    NewSpaceBuilding(a, u.k.Snap(), u.k.kernelRoot, current, root);
    var size := PageCount(|code|) * 4096;
    assert PageCount(size) == PageCount(|code|);
    ghost var x := Layout(USER_IMAGE_BASE / 4096, 0, PageCount(|code|), code);
    var mapped := MapLayer(u, a, root, USER_IMAGE_BASE, code, size, [], x);
    if mapped != Success {
      return if mapped == Panic then Stopped else Failed(OutOfMemory);
    }
    ghost var layers := [] + [x];
    mapped := MapLayer(u, a, root, USER_STACK_TOP - USER_STACK_SIZE, [], USER_STACK_SIZE, layers, STACK_LAYOUT);
    if mapped != Success {
      return if mapped == Panic then Stopped else Failed(OutOfMemory);
    }
    assert layers + [STACK_LAYOUT] == [x, STACK_LAYOUT];
    return Loaded(LoadedImage(USER_IMAGE_BASE, USER_IMAGE_BASE, size, 1, root, USER_STACK_TOP));
  }

  // ---- The loaded image agrees with the file ----

  /** Sections start on page boundaries, share no page, and stay below the stack. */
  ghost predicate WellPlaced(base: nat, sections: seq<Section>) {
    && base % 4096 == 0
    && (forall i :: 0 <= i < |sections| && sections[i].MemSize() > 0 ==>
          sections[i].virtualAddress % 4096 == 0 && BelowStack(base, sections[i]))
    && (forall i, j :: 0 <= i < j < |sections| ==> Apart(sections[i], sections[j]))
  }

  predicate BelowStack(base: nat, s: Section) {
    base + s.virtualAddress + s.MemSize() <= STACK_PAGE * 4096
  }

  /** Two sections touch no common page. */
  predicate Apart(s: Section, t: Section) {
    || s.MemSize() == 0 || t.MemSize() == 0
    || s.virtualAddress / 4096 + PageCount(s.MemSize()) <= t.virtualAddress / 4096
    || t.virtualAddress / 4096 + PageCount(t.MemSize()) <= s.virtualAddress / 4096
  }

  /** The byte at address `addr` of content laid out in `layers`. */
  function ByteAt(layers: seq<Layout>, addr: nat): Option<byte> {
    match ContentAt(layers, addr / 4096)
    case None => None
    case Some(page) => if |page| == 4096 then Some(page[addr % 4096]) else None
  }

  /** A byte of a page that shows page `i` of `d`. */
  lemma ByteOfPage(layers: seq<Layout>, d: seq<byte>, vp: nat, i: nat, addr: nat, offset: nat)
    requires ContentAt(layers, vp) == Some(PageSlice(d, i))
    requires addr / 4096 == vp && offset == 4096 * i + addr % 4096
    ensures ByteAt(layers, addr) == Some(if offset < |d| then d[offset] else 0)
  {
    PageSliceByte(d, i, addr % 4096);
  }

  /** A page only one of several section layers covers shows that section. */
  lemma {:induction false} SectionShows(
      base: nat, data: seq<byte>, sections: seq<Section>, below: seq<Layout>, k: nat, vp: nat)
    requires WellPlaced(base, sections) && k < |sections| && sections[k].MemSize() > 0
    requires SectionLayout(base, data, sections[k]).Covers(vp)
    ensures ContentAt(below + SectionLayers(base, data, sections), vp)
         == Some(SectionLayout(base, data, sections[k]).At(vp))
    decreases |sections|
  {
    hide ContentAt, RawData;
    var n := |sections| - 1;
    var init, s := sections[..n], sections[n];
    var rest := below + SectionLayers(base, data, init);
    var all := below + SectionLayers(base, data, sections);
    if s.MemSize() == 0 {
      assert all == rest;
      assert sections[k] == init[k];
      SectionShows(base, data, init, below, k, vp);
    } else {
      assert all == rest + [SectionLayout(base, data, s)];
      TopLayer(rest, SectionLayout(base, data, s), vp);
      if k != n {
        assert sections[k] == init[k];
        assert Apart(sections[k], s);
        assert !SectionLayout(base, data, s).Covers(vp);
        SectionShows(base, data, init, below, k, vp);
      }
    }
  }

  /** The first section an RVA of section `k` falls into is section `k`. */
  lemma OwnOffset(base: nat, sections: seq<Section>, k: nat, offset: nat)
    requires WellPlaced(base, sections) && k < |sections| && offset < sections[k].MemSize()
    ensures OffsetOf(sections[k].virtualAddress + offset, sections) == Some(sections[k].rawOffset + offset)
  {
    var rva := sections[k].virtualAddress + offset;
    OffsetIsFirstMatch(rva, sections);
    forall i | 0 <= i < k ensures !Contains(sections[i], rva) {
      assert Apart(sections[i], sections[k]);
    }
    assert FirstMatch(rva, sections, k);
  }

  /**
   The two views of a section agree: for byte `j` of page `i` of a loaded section, at offset
   `4096 * i + j`, the loaded byte is the one at the file offset of its RVA as far as the raw data goes,
   and zero from there to the end of the page.  A section whose raw data the file does not hold reads zero.
   */
  lemma LoadedSectionMatchesFile(data: seq<byte>, pe: PeInfo, k: nat, i: nat, j: nat)
    requires pe.optional.sizeOfHeaders <= |data|
    requires WellPlaced(pe.optional.imageBase, pe.sections)
    requires k < |pe.sections| && i < PageCount(pe.sections[k].MemSize()) && j < 4096
    ensures var s, offset := pe.sections[k], 4096 * i + j;
      var loaded := ByteAt(ImageLayers(data, pe), pe.optional.imageBase + s.virtualAddress + offset);
      && (offset < s.MemSize() ==> OffsetOf(s.virtualAddress + offset, pe.sections) == Some(s.rawOffset + offset))
      && (s.rawOffset + s.rawSize <= |data| ==>
            loaded == Some(if offset < s.rawSize then data[s.rawOffset + offset] else 0))
      && (s.rawOffset + s.rawSize > |data| ==> loaded == Some(0))
  {
    var s, base, offset := pe.sections[k], pe.optional.imageBase, 4096 * i + j;
    assert BelowStack(base, s);
    PageOfSectionByte(base, s, i, j);
    LoadedSectionPage(data, pe, k, i);
    ByteOfPage(ImageLayers(data, pe), RawData(data, s), (base + s.virtualAddress) / 4096 + i, i,
               base + s.virtualAddress + offset, offset);
    if offset < s.MemSize() {
      OwnOffset(base, pe.sections, k, offset);
    }
  }

  /** The byte a program in the address space of `r` reads at `addr`. */
  function ByteSeen(m: seq<byte>, r: nat, addr: nat): Option<byte> {
    match Translate(m, r, addr / 4096)
    case None => None
    case Some(mp) => if InMem(m, mp.frame) then Some(FrameOf(m, mp.frame)[addr % 4096]) else None
  }

  /**
   In the address space that `LoadPe` built, a program reads at the address of an RVA inside a section
   the byte the file holds at the offset `rva_to_offset` gives for it, or zero past the raw data.
   The RVA is that of byte `j` of page `i` of the section.
   */
  lemma ProgramReadsFile(load: Load, b: Snapshot, kr: nat, data: seq<byte>, pe: PeInfo, k: nat, i: nat, j: nat)
    requires pe.optional.sizeOfHeaders <= |data| && load.layers == ImageLayers(data, pe) && Building(load, b, kr)
    requires WellPlaced(pe.optional.imageBase, pe.sections)
    requires k < |pe.sections| && j < 4096 && 4096 * i + j < pe.sections[k].MemSize()
    ensures var s, offset := pe.sections[k], 4096 * i + j;
      var seen := ByteSeen(b.mem, load.root, pe.optional.imageBase + s.virtualAddress + offset);
      && OffsetOf(s.virtualAddress + offset, pe.sections) == Some(s.rawOffset + offset)
      && (s.rawOffset + s.rawSize <= |data| ==>
            seen == Some(if offset < s.rawSize then data[s.rawOffset + offset] else 0))
      && (s.rawOffset + s.rawSize > |data| ==> seen == Some(0))
  {
    var s, base := pe.sections[k], pe.optional.imageBase;
    LoadedSectionMatchesFile(data, pe, k, i, j);
    assert BelowStack(base, s);
    PageOfSectionByte(base, s, i, j);
    hide ImageLayers, OffsetOf, WellPlaced, ByteAt, ByteSeen, Building;
    SeenAsLaidOut(load, b, kr, base + s.virtualAddress + (4096 * i + j));
  }

  /** The same from the header bytes: what the loaded program reads is found at the offset written in the file. */
  lemma ProgramReadsWrittenSection(
      load: Load, b: Snapshot, kr: nat, data: seq<byte>, pe: PeInfo, k: nat, i: nat, j: nat)
    requires Written(data, pe) && pe.optional.sizeOfHeaders <= |data|
    requires load.layers == ImageLayers(data, pe) && Building(load, b, kr)
    requires WellPlaced(pe.optional.imageBase, pe.sections)
    requires k < |pe.sections| && j < 4096
    requires Contains(pe.sections[k], pe.sections[k].virtualAddress + (4096 * i + j))
    ensures ParsePe(data) == Ok(pe)
    ensures var s, offset := pe.sections[k], 4096 * i + j;
      var seen := ByteSeen(b.mem, load.root, pe.optional.imageBase + s.virtualAddress + offset);
      s.rawOffset + s.rawSize <= |data| ==>
        seen == Some(if offset < s.rawSize then data[s.rawOffset + offset] else 0)
  {
    hide ParsePe, Written, Building, ImageLayers, WellPlaced, ByteSeen, OffsetOf;
    ParsedIffWritten(data, pe);
    ProgramReadsFile(load, b, kr, data, pe, k, i, j);
  }

  /** The stack of a loaded image is there and reads zero. */
  lemma StackReadsZero(load: Load, b: Snapshot, kr: nat, below: seq<Layout>, addr: nat)
    requires load.layers == below + [STACK_LAYOUT] && Building(load, b, kr)
    requires 0x7FFF_FFFE_0000 <= addr < 0x7FFF_FFFF_0000
    ensures ByteSeen(b.mem, load.root, addr) == Some(0)
  {
    var vp := addr / 4096;
    assert STACK_LAYOUT.Covers(vp);
    TopLayer(below, STACK_LAYOUT, vp);
    ByteOfPage(load.layers, [], vp, vp - STACK_PAGE, addr, 4096 * (vp - STACK_PAGE) + addr % 4096);
    hide ByteSeen, ByteAt, ContentAt, Building;
    SeenAsLaidOut(load, b, kr, addr);
  }

  /** Nothing but headers, sections and stack is mapped below 2^47. */
  lemma NothingElseIsMapped(load: Load, b: Snapshot, kr: nat, data: seq<byte>, pe: PeInfo, addr: nat)
    requires pe.optional.sizeOfHeaders <= |data| && load.layers == ImageLayers(data, pe) && Building(load, b, kr)
    requires addr / 4096 < USER_PAGES && Uncovered(data, pe, addr / 4096)
    requires !HeaderLayout(data, pe).Covers(addr / 4096)
    ensures ByteSeen(b.mem, load.root, addr) == None
  {
    hide SectionLayers, ByteSeen, Building;
    var vp, header := addr / 4096, HeaderLayout(data, pe);
    var sections := SectionLayers(pe.optional.imageBase, data, pe.sections);
    UncoveredBySections(pe.optional.imageBase, data, pe.sections, [header], vp);
    TopLayer([header] + sections, STACK_LAYOUT, vp);
    assert [header] == [] + [header];
    TopLayer([], header, vp);
    SeenAsLaidOut(load, b, kr, addr);
  }

  /** A raw binary is found byte for byte at 0x400000. */
  lemma ProgramReadsRawBinary(load: Load, b: Snapshot, kr: nat, code: seq<byte>, i: nat, j: nat)
    requires Building(load, b, kr) && PageCount(|code|) <= MAX_IMAGE_PAGES
    requires load.layers == [Layout(USER_IMAGE_BASE / 4096, 0, PageCount(|code|), code), STACK_LAYOUT]
    requires j < 4096 && 4096 * i + j < |code|
    ensures ByteSeen(b.mem, load.root, 0x40_0000 + (4096 * i + j)) == Some(code[4096 * i + j])
  {
    hide ByteSeen, ByteAt, ContentAt, Building;
    var x := Layout(USER_IMAGE_BASE / 4096, 0, PageCount(|code|), code);
    var vp, addr := 0x400 + i, 0x40_0000 + (4096 * i + j);
    assert addr / 4096 == vp && addr % 4096 == j && x.Covers(vp) && !STACK_LAYOUT.Covers(vp);
    assert load.layers == [x] + [STACK_LAYOUT];
    TopLayer([x], STACK_LAYOUT, vp);
    OneLayer(x, vp);
    ByteOfPage(load.layers, code, vp, i, addr, 4096 * i + j);
    SeenAsLaidOut(load, b, kr, addr);
  }

  lemma SeenAsLaidOut(load: Load, b: Snapshot, kr: nat, addr: nat)
    requires Building(load, b, kr) && addr / 4096 < USER_PAGES
    ensures ByteSeen(b.mem, load.root, addr) == ByteAt(load.layers, addr)
  {
    hide ContentAt, Translate;
    assert PageAt(b.mem, load.root, addr / 4096) == ContentAt(load.layers, addr / 4096);
  }

  /** Page `i` of a section holds page `i` of its raw data. */
  lemma LoadedSectionPage(data: seq<byte>, pe: PeInfo, k: nat, i: nat)
    requires pe.optional.sizeOfHeaders <= |data|
    requires WellPlaced(pe.optional.imageBase, pe.sections)
    requires k < |pe.sections| && i < PageCount(pe.sections[k].MemSize())
    requires (pe.optional.imageBase + pe.sections[k].virtualAddress) / 4096 + i < STACK_PAGE
    ensures ContentAt(ImageLayers(data, pe), (pe.optional.imageBase + pe.sections[k].virtualAddress) / 4096 + i)
         == Some(PageSlice(RawData(data, pe.sections[k]), i))
  {
    hide ContentAt, SectionLayers, RawData, WellPlaced;
    var s, base := pe.sections[k], pe.optional.imageBase;
    var vp := (base + s.virtualAddress) / 4096 + i;
    SectionShows(base, data, pe.sections, [HeaderLayout(data, pe)], k, vp);
    TopLayer([HeaderLayout(data, pe)] + SectionLayers(base, data, pe.sections), STACK_LAYOUT, vp);
  }

  lemma PageOfSectionByte(base: nat, s: Section, i: nat, j: nat)
    requires base % 4096 == 0 && s.virtualAddress % 4096 == 0 && BelowStack(base, s)
    requires i < PageCount(s.MemSize()) && j < 4096
    ensures (base + s.virtualAddress + (4096 * i + j)) / 4096 == (base + s.virtualAddress) / 4096 + i < STACK_PAGE
    ensures (base + s.virtualAddress + (4096 * i + j)) % 4096 == j
  {
  }

  /** No section and no stack page is laid over page `vp`. */
  ghost predicate Uncovered(data: seq<byte>, pe: PeInfo, vp: nat) {
    && !STACK_LAYOUT.Covers(vp)
    && forall i :: 0 <= i < |pe.sections| ==> !SectionLayout(pe.optional.imageBase, data, pe.sections[i]).Covers(vp)
  }

  /** Header bytes read as in the file wherever no section and no stack page is laid over them. */
  lemma LoadedHeaderMatchesFile(data: seq<byte>, pe: PeInfo, o: nat)
    requires pe.optional.sizeOfHeaders <= |data| && o < pe.optional.sizeOfHeaders
    requires pe.optional.imageBase % 4096 == 0 && Uncovered(data, pe, (pe.optional.imageBase + o) / 4096)
    ensures ByteAt(ImageLayers(data, pe), pe.optional.imageBase + o) == Some(data[o])
  {
    var base, header := pe.optional.imageBase, HeaderLayout(data, pe);
    HeaderPage(base, o);
    HeaderPageLoaded(data, pe, (base + o) / 4096, o);
    ByteOfPage(ImageLayers(data, pe), header.data, (base + o) / 4096, o / 4096, base + o, o);
  }

  lemma HeaderPageLoaded(data: seq<byte>, pe: PeInfo, vp: nat, o: nat)
    requires pe.optional.sizeOfHeaders <= |data| && o < pe.optional.sizeOfHeaders
    requires vp == pe.optional.imageBase / 4096 + o / 4096 && Uncovered(data, pe, vp)
    ensures ContentAt(ImageLayers(data, pe), vp) == Some(PageSlice(HeaderLayout(data, pe).data, o / 4096))
  {
    hide ContentAt, SectionLayers, SectionLayout;
    var header := HeaderLayout(data, pe);
    var sections := SectionLayers(pe.optional.imageBase, data, pe.sections);
    UncoveredBySections(pe.optional.imageBase, data, pe.sections, [header], vp);
    TopLayer([header] + sections, STACK_LAYOUT, vp);
    OneLayer(header, vp);
  }

  lemma OneLayer(x: Layout, vp: nat)
    requires x.Covers(vp)
    ensures ContentAt([x], vp) == Some(x.At(vp))
  {
  }

  lemma HeaderPage(base: nat, o: nat)
    requires base % 4096 == 0
    ensures (base + o) / 4096 == base / 4096 + o / 4096 && o == 4096 * (o / 4096) + (base + o) % 4096
  {
  }

  lemma {:induction false} UncoveredBySections(
      base: nat, data: seq<byte>, sections: seq<Section>, below: seq<Layout>, vp: nat)
    requires forall i :: 0 <= i < |sections| ==> !SectionLayout(base, data, sections[i]).Covers(vp)
    ensures ContentAt(below + SectionLayers(base, data, sections), vp) == ContentAt(below, vp)
  {
    hide SectionLayout, ContentAt;
    if |sections| == 0 {
      assert below + [] == below;
    } else {
      var n := |sections| - 1;
      UncoveredBySections(base, data, sections[..n], below, vp);
      var rest, all := below + SectionLayers(base, data, sections[..n]), below + SectionLayers(base, data, sections);
      if sections[n].MemSize() == 0 {
        assert all == rest;
      } else {
        assert all == rest + [SectionLayout(base, data, sections[n])];
        TopLayer(rest, SectionLayout(base, data, sections[n]), vp);
      }
    }
  }
}
