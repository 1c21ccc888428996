/** Header validation of PE32+ images, following the PE/COFF Specification rev. 8.3, sections 3 and 4. */
module Pe {
  import opened Common
  import opened Bytes

  const DOS_HEADER: nat := 64
  const FILE_HEADER: nat := 20
  const OPTIONAL_HEADER: nat := 112
  const SECTION_HEADER: nat := 40

  const DOS_SIGNATURE: nat := 0x5A4D
  const NT_SIGNATURE: nat := 0x0000_4550
  const OPTIONAL_MAGIC_64: nat := 0x20B

  datatype PeError = InvalidImageFormat | InvalidImageNotMz | MachineTypeMismatch

  datatype Result<+T> = Ok(value: T) | Err(error: PeError) {
    predicate IsFailure() { Err? }
    function PropagateFailure<U>(): Result<U> requires Err? { Err(error) }
    function Extract(): T requires Ok? { value }
  }

  /** The fields of `IMAGE_FILE_HEADER` the loader uses. */
  datatype Coff = Coff(machine: nat, numberOfSections: nat, sizeOfOptionalHeader: nat, characteristics: nat)

  /** The fields of `IMAGE_OPTIONAL_HEADER64` the loader uses. */
  datatype Optional = Optional(entryRva: u32, imageBase: u64, sizeOfImage: u32, sizeOfHeaders: u32,
                               subsystem: nat, numberOfRvaAndSizes: u32)

  /** The placement fields of one section header. */
  datatype Section = Section(virtualSize: u32, virtualAddress: u32, rawSize: u32, rawOffset: u32) {
    /** The size a section takes in memory. */
    function MemSize(): nat {
      if virtualSize > 0 then virtualSize else rawSize
    }
  }

  datatype PeInfo = PeInfo(lfanew: nat, coff: Coff, optional: Optional, sections: seq<Section>)

  function U16(data: seq<byte>, o: nat): nat
    requires o + 2 <= |data|
  {
    LE(data, o, 2)
  }

  function U32(data: seq<byte>, o: nat): u32
    requires o + 4 <= |data|
  {
    assert Pow256(4) == 0x1_0000_0000;
    LE(data, o, 4)
  }

  function U64(data: seq<byte>, o: nat): u64
    requires o + 8 <= |data|
  {
    assert Pow256(8) == 0x1_0000_0000_0000_0000;
    LE(data, o, 8)
  }

  /** A 32-bit field read as a two's complement number. */
  function I32(data: seq<byte>, o: nat): int
    requires o + 4 <= |data|
  {
    var w := U32(data, o);
    if w < 0x8000_0000 then w else w - 0x1_0000_0000
  }

  /** The offset of the PE signature. */
  function ValidateDosHeader(data: seq<byte>): Result<nat> {
    if |data| < DOS_HEADER then Err(InvalidImageFormat)
    else if U16(data, 0) != DOS_SIGNATURE then Err(InvalidImageNotMz)
    else
      var lfanew := I32(data, 60);
      if lfanew < 0 || lfanew >= |data| then Err(InvalidImageFormat) else Ok(lfanew)
  }

  function ValidatePeHeader(data: seq<byte>, lfanew: nat): Result<Coff> {
    if lfanew + 4 > |data| then Err(InvalidImageFormat)
    else if U32(data, lfanew) != NT_SIGNATURE then Err(InvalidImageFormat)
    else
      var o := lfanew + 4;
      if o + FILE_HEADER > |data| then Err(InvalidImageFormat)
      else Ok(Coff(U16(data, o), U16(data, o + 2), U16(data, o + 16), U16(data, o + 18)))
  }

  function ValidateOptionalHeader(data: seq<byte>, lfanew: nat): Result<Optional> {
    var o := lfanew + 4 + FILE_HEADER;
    if o + OPTIONAL_HEADER > |data| then Err(InvalidImageFormat)
    else if U16(data, o) != OPTIONAL_MAGIC_64 then Err(MachineTypeMismatch)
    else Ok(Optional(U32(data, o + 16), U64(data, o + 24), U32(data, o + 56), U32(data, o + 60),
                     U16(data, o + 68), U32(data, o + 108)))
  }

  function SectionAt(data: seq<byte>, o: nat): Section
    requires o + SECTION_HEADER <= |data|
  {
    Section(U32(data, o + 8), U32(data, o + 12), U32(data, o + 16), U32(data, o + 20))
  }

  /** The section table starts after the optional header, whose size the file header gives. */
  function SectionTable(lfanew: nat, coff: Coff): nat {
    lfanew + 4 + FILE_HEADER + coff.sizeOfOptionalHeader
  }

  function GetSectionHeaders(data: seq<byte>, lfanew: nat, coff: Coff): Result<seq<Section>> {
    var o, n := SectionTable(lfanew, coff), coff.numberOfSections;
    if o + n * SECTION_HEADER > |data| then Err(InvalidImageFormat)
    else Ok(seq(n, i requires 0 <= i < n => SectionAt(data, o + i * 40)))
  }

  function ParsePe(data: seq<byte>): Result<PeInfo> {
    var lfanew :- ValidateDosHeader(data);
    var coff :- ValidatePeHeader(data, lfanew);
    var optional :- ValidateOptionalHeader(data, lfanew);
    var sections :- GetSectionHeaders(data, lfanew, coff);
    Ok(PeInfo(lfanew, coff, optional, sections))
  }

  /** The `i`-th entry of the section table lies in the file. */
  predicate EntryInFile(data: seq<byte>, pe: PeInfo, i: nat) {
    SectionTable(pe.lfanew, pe.coff) + (i + 1) * 40 <= |data|
  }

  /**
   An accepted image carries both signatures and the PE32+ magic, and the file holds every header
   the result was read from: the file and optional headers and the whole section table.
   */
  lemma AcceptedHeadersAreInFile(data: seq<byte>)
    requires ParsePe(data).Ok?
    ensures var pe := ParsePe(data).value;
      && DOS_HEADER <= |data| && U16(data, 0) == DOS_SIGNATURE
      && pe.lfanew + 4 + FILE_HEADER + OPTIONAL_HEADER <= |data|
      && U32(data, pe.lfanew) == NT_SIGNATURE
      && U16(data, pe.lfanew + 4 + FILE_HEADER) == OPTIONAL_MAGIC_64
      && |pe.sections| == pe.coff.numberOfSections
      && forall i :: 0 <= i < |pe.sections| ==>
           && EntryInFile(data, pe, i)
           && pe.sections[i] == SectionAt(data, SectionTable(pe.lfanew, pe.coff) + i * 40)
  {
    var pe := ParsePe(data).value;
    forall i | 0 <= i < |pe.sections| ensures EntryInFile(data, pe, i) {
      assert (i + 1) * 40 <= |pe.sections| * 40;
    }
  }

  /** The conditions under which a file is accepted, in terms of its bytes alone. */
  predicate WellFormed(data: seq<byte>) {
    && DOS_HEADER <= |data| && U16(data, 0) == DOS_SIGNATURE && I32(data, 60) >= 0
    && var o := I32(data, 60) as nat;
      && o + 4 + FILE_HEADER + OPTIONAL_HEADER <= |data|
      && U32(data, o) == NT_SIGNATURE && U16(data, o + 24) == OPTIONAL_MAGIC_64
      && o + 24 + U16(data, o + 20) + U16(data, o + 6) * SECTION_HEADER <= |data|
  }

  /** A file is accepted if and only if it is well-formed, and which error comes out tells why it is not. */
  lemma AcceptedIffWellFormed(data: seq<byte>)
    ensures ParsePe(data).Ok? <==> WellFormed(data)
    ensures ParsePe(data) == Err(InvalidImageNotMz) <==> DOS_HEADER <= |data| && U16(data, 0) != DOS_SIGNATURE
    ensures ParsePe(data) == Err(MachineTypeMismatch) <==>
      && DOS_HEADER <= |data| && U16(data, 0) == DOS_SIGNATURE && I32(data, 60) >= 0
      && var o := I32(data, 60) as nat;
        && o + 4 + FILE_HEADER + OPTIONAL_HEADER <= |data|
        && U32(data, o) == NT_SIGNATURE && U16(data, o + 24) != OPTIONAL_MAGIC_64
  {
  }

  // ---- The headers as they are written ----

  /** The 40 bytes of a section header at `o`: after the name virtual size and address, raw size and offset. */
  predicate SectionWritten(data: seq<byte>, o: nat, s: Section) {
    && o + 40 <= |data|
    && NumberAt(data, o + 8, 4, s.virtualSize) && NumberAt(data, o + 12, 4, s.virtualAddress)
    && NumberAt(data, o + 16, 4, s.rawSize) && NumberAt(data, o + 20, 4, s.rawOffset)
  }

  /** `MZ`, and the offset of the PE signature in the last four of the first 64 bytes, below 2^31. */
  predicate DosHeaderWritten(data: seq<byte>, lfanew: nat) {
    |data| >= 64 && data[0] == 0x4D && data[1] == 0x5A && NumberAt(data, 60, 4, lfanew) && lfanew < 0x8000_0000
  }

  /** `PE`, two zeros, and the 20 bytes of the file header. */
  predicate FileHeaderWritten(data: seq<byte>, o: nat, c: Coff) {
    && o + 24 <= |data|
    && data[o] == 0x50 && data[o + 1] == 0x45 && data[o + 2] == 0 && data[o + 3] == 0
    && NumberAt(data, o + 4, 2, c.machine) && NumberAt(data, o + 6, 2, c.numberOfSections)
    && NumberAt(data, o + 20, 2, c.sizeOfOptionalHeader) && NumberAt(data, o + 22, 2, c.characteristics)
  }

  /** The 112 fixed bytes of a PE32+ optional header. */
  predicate OptionalHeaderWritten(data: seq<byte>, o: nat, h: Optional) {
    && o + 112 <= |data|
    && data[o] == 0x0B && data[o + 1] == 0x02
    && NumberAt(data, o + 16, 4, h.entryRva) && NumberAt(data, o + 24, 8, h.imageBase)
    && NumberAt(data, o + 56, 4, h.sizeOfImage) && NumberAt(data, o + 60, 4, h.sizeOfHeaders)
    && NumberAt(data, o + 68, 2, h.subsystem) && NumberAt(data, o + 108, 4, h.numberOfRvaAndSizes)
  }

  /** The file carries these headers: one after the other, and the sections behind the optional header. */
  predicate Written(data: seq<byte>, pe: PeInfo) {
    && DosHeaderWritten(data, pe.lfanew)
    && FileHeaderWritten(data, pe.lfanew, pe.coff)
    && OptionalHeaderWritten(data, pe.lfanew + 24, pe.optional)
    && |pe.sections| == pe.coff.numberOfSections
    && pe.lfanew + 24 + pe.coff.sizeOfOptionalHeader + 40 * |pe.sections| <= |data|
    && forall i :: 0 <= i < |pe.sections| ==>
         SectionWritten(data, pe.lfanew + 24 + pe.coff.sizeOfOptionalHeader + i * 40, pe.sections[i])
  }

  lemma SectionReadIff(data: seq<byte>, o: nat, s: Section)
    requires o + SECTION_HEADER <= |data|
    ensures SectionAt(data, o) == s <==> SectionWritten(data, o, s)
  {
    hide LE, NumberAt;
    NumberIsRead(data, o + 8, 4, s.virtualSize);
    NumberIsRead(data, o + 12, 4, s.virtualAddress);
    NumberIsRead(data, o + 16, 4, s.rawSize);
    NumberIsRead(data, o + 20, 4, s.rawOffset);
  }

  lemma DosHeaderReadIff(data: seq<byte>, lfanew: nat)
    ensures ValidateDosHeader(data) == Ok(lfanew) <==> DosHeaderWritten(data, lfanew) && lfanew < |data|
  {
    if |data| >= 64 {
      LowestByteFirst(data, 0);
      NumberIsRead(data, 60, 4, lfanew);
      hide LE, NumberAt;
    }
  }

  lemma FileHeaderReadIff(data: seq<byte>, o: nat, c: Coff)
    ensures ValidatePeHeader(data, o) == Ok(c) <==> FileHeaderWritten(data, o, c)
  {
    if o + 24 <= |data| {
      LowestByteFirst(data, o);
      NumberIsRead(data, o + 4, 2, c.machine);
      NumberIsRead(data, o + 6, 2, c.numberOfSections);
      NumberIsRead(data, o + 20, 2, c.sizeOfOptionalHeader);
      NumberIsRead(data, o + 22, 2, c.characteristics);
      hide LE, NumberAt;
    }
  }

  lemma OptionalHeaderReadIff(data: seq<byte>, lfanew: nat, h: Optional)
    ensures ValidateOptionalHeader(data, lfanew) == Ok(h) <==> OptionalHeaderWritten(data, lfanew + 24, h)
  {
    var o := lfanew + 24;
    if o + 112 <= |data| {
      LowestByteFirst(data, o);
      NumberIsRead(data, o + 16, 4, h.entryRva);
      NumberIsRead(data, o + 24, 8, h.imageBase);
      NumberIsRead(data, o + 56, 4, h.sizeOfImage);
      NumberIsRead(data, o + 60, 4, h.sizeOfHeaders);
      NumberIsRead(data, o + 68, 2, h.subsystem);
      NumberIsRead(data, o + 108, 4, h.numberOfRvaAndSizes);
      hide LE, NumberAt;
    }
  }

  lemma SectionsReadIff(data: seq<byte>, lfanew: nat, c: Coff, sections: seq<Section>)
    ensures GetSectionHeaders(data, lfanew, c) == Ok(sections) <==>
      && |sections| == c.numberOfSections
      && lfanew + 24 + c.sizeOfOptionalHeader + 40 * |sections| <= |data|
      && forall i :: 0 <= i < |sections| ==>
           SectionWritten(data, lfanew + 24 + c.sizeOfOptionalHeader + i * 40, sections[i])
  {
    hide SectionAt, SectionWritten;
    var o, n := lfanew + 24 + c.sizeOfOptionalHeader, c.numberOfSections;
    if o + n * SECTION_HEADER <= |data| && |sections| == n {
      var read := GetSectionHeaders(data, lfanew, c).value;
      forall i | 0 <= i < n ensures read[i] == sections[i] <==> SectionWritten(data, o + i * 40, sections[i]) {
        assert i * 40 + 40 <= n * 40;
        SectionReadIff(data, o + i * 40, sections[i]);
      }
      assert read == sections <==> forall i :: 0 <= i < n ==> read[i] == sections[i];
    }
  }

  /** Parsing gives exactly the headers the file carries: every field is the number written at its place. */
  lemma ParsedIffWritten(data: seq<byte>, pe: PeInfo)
    ensures ParsePe(data) == Ok(pe) <==> Written(data, pe)
  {
    hide ValidateDosHeader, ValidatePeHeader, ValidateOptionalHeader, GetSectionHeaders,
      DosHeaderWritten, FileHeaderWritten, OptionalHeaderWritten, SectionWritten;
    DosHeaderReadIff(data, pe.lfanew);
    FileHeaderReadIff(data, pe.lfanew, pe.coff);
    OptionalHeaderReadIff(data, pe.lfanew, pe.optional);
    SectionsReadIff(data, pe.lfanew, pe.coff, pe.sections);
  }

  /** The file offset that backs an RVA: the first section that contains it decides. */
  method RvaToOffset(rva: nat, sections: seq<Section>) returns (offset: Option<nat>)
    ensures offset == OffsetOf(rva, sections)
  {
    for i := 0 to |sections|
      invariant OffsetOf(rva, sections) == OffsetOf(rva, sections[i..])
    {
      var s := sections[i];
      assert sections[i..][0] == s && sections[i..][1..] == sections[i + 1..];
      if s.virtualAddress <= rva < s.virtualAddress + s.MemSize() {
        return Some(s.rawOffset + (rva - s.virtualAddress));
      }
    }
    return None;
  }

  function OffsetOf(rva: nat, sections: seq<Section>): Option<nat> {
    if |sections| == 0 then None
    else
      var s := sections[0];
      if s.virtualAddress <= rva < s.virtualAddress + s.MemSize() then Some(s.rawOffset + (rva - s.virtualAddress))
      else OffsetOf(rva, sections[1..])
  }

  /** From the start of the section on as far as its virtual size goes, or its raw size when that is 0. */
  predicate Contains(s: Section, rva: nat) {
    && s.virtualAddress <= rva
    && (rva - s.virtualAddress < s.virtualSize || (s.virtualSize == 0 && rva - s.virtualAddress < s.rawSize))
  }

  /** Section `k` is the first to contain the RVA. */
  predicate FirstMatch(rva: nat, sections: seq<Section>, k: nat) {
    && k < |sections| && Contains(sections[k], rva)
    && forall i :: 0 <= i < k ==> !Contains(sections[i], rva)
  }

  /** An RVA has an offset exactly when some section contains it; the first such section gives it. */
  lemma {:induction false} OffsetIsFirstMatch(rva: nat, sections: seq<Section>)
    ensures OffsetOf(rva, sections).None? <==> forall i :: 0 <= i < |sections| ==> !Contains(sections[i], rva)
    ensures forall k: nat :: FirstMatch(rva, sections, k) ==>
      OffsetOf(rva, sections) == Some(sections[k].rawOffset + (rva - sections[k].virtualAddress))
  {
    if |sections| != 0 && !Contains(sections[0], rva) {
      var rest := sections[1..];
      OffsetIsFirstMatch(rva, rest);
      assert forall i :: 0 < i < |sections| ==> sections[i] == rest[i - 1];
      forall k: nat | FirstMatch(rva, sections, k) ensures FirstMatch(rva, rest, k - 1) {
        assert forall i :: 0 <= i < k - 1 ==> rest[i] == sections[i + 1];
      }
      forall i | 0 <= i < |rest| ensures rest[i] == sections[i + 1] {
      }
    }
  }
}
