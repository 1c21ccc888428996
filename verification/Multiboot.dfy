/** The walk over Multiboot2 information tags (Multiboot2 Specification, section 3.6). */
module Multiboot {
  import opened Common
  import opened Bytes

  const TAG_END: u32 := 0
  const TAG_FRAMEBUFFER: u32 := 8

  /** A tag as it was laid out: its type and the bytes after the eight bytes of header. */
  datatype Tag = Tag(kind: u32, payload: seq<byte>)

  datatype FramebufferType = Indexed | Rgb | EgaText | Unknown(raw: byte)

  datatype FramebufferInfo = FramebufferInfo(
    addr: u64, pitch: u32, width: u32, height: u32, bpp: byte, fbType: FramebufferType)

  function Word(mem: seq<byte>, at: nat): u32
    requires at + 4 <= |mem|
  {
    assert Pow256(4) == 0x1_0000_0000;
    LE(mem, at, 4)
  }

  /** Tags start at multiples of eight bytes. */
  function Padded(size: nat): (n: nat)
    ensures size <= n < size + 8 && n % 8 == 0
  {
    (size + 7) / 8 * 8
  }

  /** A tag other than the end tag starts at `at`, and its size covers at least its header. */
  predicate TagAt(mem: seq<byte>, at: nat, end: nat)
    requires end + 8 <= |mem|
  {
    at < end && Word(mem, at) != TAG_END && Word(mem, at + 4) >= 8
  }

  /** The addresses the iterator yields from `at` on. */
  function TagsFrom(mem: seq<byte>, at: nat, end: nat): seq<nat>
    requires end + 8 <= |mem|
    decreases if at < end then end - at else 0
  {
    if !TagAt(mem, at, end) then []
    else [at] + TagsFrom(mem, at + Padded(Word(mem, at + 4)), end)
  }

  /** From `at` on, memory holds these tags, each padded to eight bytes with anything, and then the end tag. */
  ghost predicate LaidOut(mem: seq<byte>, at: nat, end: nat, tags: seq<Tag>)
    requires end + 8 <= |mem|
    decreases |tags|
  {
    if |tags| == 0 then at < end && Word(mem, at) == TAG_END
    else
      var size := 8 + |tags[0].payload|;
      && at + Padded(size) <= end
      && tags[0].kind != TAG_END && Word(mem, at) == tags[0].kind && Word(mem, at + 4) == size
      && mem[at + 8..at + size] == tags[0].payload
      && LaidOut(mem, at + Padded(size), end, tags[1..])
  }

  /** Where these tags start when the first starts at `at`. */
  function Starts(tags: seq<Tag>, at: nat): seq<nat>
    decreases |tags|
  {
    if |tags| == 0 then [] else [at] + Starts(tags[1..], at + Padded(8 + |tags[0].payload|))
  }

  /** The iterator yields exactly the tags before the end tag, in order. */
  lemma {:induction false} WalkIsExact(mem: seq<byte>, at: nat, end: nat, tags: seq<Tag>)
    requires end + 8 <= |mem| && LaidOut(mem, at, end, tags)
    ensures TagsFrom(mem, at, end) == Starts(tags, at)
    decreases |tags|
  {
    if |tags| != 0 {
      WalkIsExact(mem, at + Padded(8 + |tags[0].payload|), end, tags[1..]);
    }
  }

  /** On any memory the yielded addresses grow by at least eight and stay below the end. */
  lemma {:induction false} WalkAdvances(mem: seq<byte>, at: nat, end: nat)
    requires end + 8 <= |mem|
    ensures var ts := TagsFrom(mem, at, end);
      && (|ts| > 0 ==> ts[0] == at)
      && (forall i :: 0 <= i < |ts| ==> at <= ts[i] < end)
      && (forall i :: 0 < i < |ts| ==> ts[i - 1] + 8 <= ts[i])
    decreases if at < end then end - at else 0
  {
    if TagAt(mem, at, end) {
      var next := at + Padded(Word(mem, at + 4));
      WalkAdvances(mem, next, end);
      var ts, rest := TagsFrom(mem, at, end), TagsFrom(mem, next, end);
      hide TagsFrom, Padded, Word;
      assert ts == [at] + rest;
      forall i | 0 < i < |ts| ensures at <= ts[i] < end && ts[i - 1] + 8 <= ts[i] {
        assert ts[i] == rest[i - 1];
        assert i > 1 ==> ts[i - 1] == rest[i - 2];
      }
    }
  }

  // ---- The framebuffer tag ----

  function TypeOf(raw: byte): FramebufferType {
    if raw == 0 then Indexed else if raw == 1 then Rgb else if raw == 2 then EgaText else Unknown(raw)
  }

  /** The fields after the header of a framebuffer tag. */
  function Framebuffer(payload: seq<byte>): FramebufferInfo
    requires |payload| >= 22
  {
    assert Pow256(8) == 0x1_0000_0000_0000_0000;
    FramebufferInfo(
      LE(payload, 0, 8), Word(payload, 8), Word(payload, 12), Word(payload, 16), payload[20], TypeOf(payload[21]))
  }

  /** The 22 bytes of the fields, in the order of the specification. */
  predicate FramebufferWritten(payload: seq<byte>, info: FramebufferInfo) {
    && |payload| >= 22
    && NumberAt(payload, 0, 8, info.addr) && NumberAt(payload, 8, 4, info.pitch)
    && NumberAt(payload, 12, 4, info.width) && NumberAt(payload, 16, 4, info.height)
    && payload[20] == info.bpp
    && match info.fbType
       case Indexed => payload[21] == 0
       case Rgb => payload[21] == 1
       case EgaText => payload[21] == 2
       case Unknown(raw) => payload[21] == raw > 2
  }

  /** The fields read are exactly those written. */
  lemma FramebufferReadIff(payload: seq<byte>, info: FramebufferInfo)
    requires |payload| >= 22
    ensures Framebuffer(payload) == info <==> FramebufferWritten(payload, info)
  {
    NumberIsRead(payload, 0, 8, info.addr);
    NumberIsRead(payload, 8, 4, info.pitch);
    NumberIsRead(payload, 12, 4, info.width);
    NumberIsRead(payload, 16, 4, info.height);
    hide LE, NumberAt;
  }

  /** The first framebuffer tag of a list whose first tag starts at `at`, and where it starts. */
  function FirstFramebuffer(tags: seq<Tag>, at: nat): Option<(Tag, nat)>
    decreases |tags|
  {
    if |tags| == 0 then None
    else if tags[0].kind == TAG_FRAMEBUFFER then Some((tags[0], at))
    else FirstFramebuffer(tags[1..], at + Padded(8 + |tags[0].payload|))
  }

  /** The first yielded address of type 8; its fields are read without looking at the tag's size. */
  function FindFrom(mem: seq<byte>, at: nat, end: nat): Option<FramebufferInfo>
    requires end + 30 <= |mem|
    decreases if at < end then end - at else 0
  {
    if !TagAt(mem, at, end) then None
    else if Word(mem, at) == TAG_FRAMEBUFFER then Some(Framebuffer(mem[at + 8..at + 30]))
    else FindFrom(mem, at + Padded(Word(mem, at + 4)), end)
  }

  /**
   What was found for the first framebuffer tag: the 22 bytes behind its header, whatever its size.
   They are the fields of the tag when it is long enough; a shorter tag is read past its end.
   */
  predicate ReadsTag(mem: seq<byte>, end: nat, found: Option<FramebufferInfo>, first: Option<(Tag, nat)>)
    requires end + 30 <= |mem|
  {
    match first
    case None => found.None?
    case Some((tag, x)) =>
      && x < end && found == Some(Framebuffer(mem[x + 8..x + 30]))
      && mem[x + 8..x + 8 + Min(|tag.payload|, 22)] == tag.payload[..Min(|tag.payload|, 22)]
      && (|tag.payload| >= 22 ==> found == Some(Framebuffer(tag.payload)))
  }

  /** `find_framebuffer` reads the first framebuffer tag laid out, and finds nothing exactly when there is none. */
  lemma {:induction false} FindIsFirst(mem: seq<byte>, at: nat, end: nat, tags: seq<Tag>)
    requires end + 30 <= |mem| && LaidOut(mem, at, end, tags)
    ensures ReadsTag(mem, end, FindFrom(mem, at, end), FirstFramebuffer(tags, at))
    decreases |tags|
  {
    if |tags| != 0 {
      if tags[0].kind == TAG_FRAMEBUFFER {
        FieldsAt(mem, at, end, tags[0].payload);
      } else {
        hide ReadsTag;
        NextTag(mem, at, end, tags);
        FindIsFirst(mem, at + Padded(8 + |tags[0].payload|), end, tags[1..]);
      }
    }
  }

  lemma NextTag(mem: seq<byte>, at: nat, end: nat, tags: seq<Tag>)
    requires end + 30 <= |mem| && LaidOut(mem, at, end, tags) && |tags| > 0 && tags[0].kind != TAG_FRAMEBUFFER
    ensures FindFrom(mem, at, end) == FindFrom(mem, at + Padded(8 + |tags[0].payload|), end)
  {
  }

  lemma FieldsAt(mem: seq<byte>, at: nat, end: nat, payload: seq<byte>)
    requires at + 8 + |payload| <= end && end + 30 <= |mem| && mem[at + 8..at + 8 + |payload|] == payload
    ensures var n := Min(|payload|, 22); mem[at + 8..at + 8 + n] == payload[..n]
    ensures |payload| >= 22 ==> Framebuffer(mem[at + 8..at + 30]) == Framebuffer(payload)
  {
    var n := Min(|payload|, 22);
    assert mem[at + 8..at + 8 + |payload|][..n] == mem[at + 8..at + 8 + n];
    if |payload| >= 22 {
      SameFields(payload, mem[at + 8..at + 30]);
    }
  }

  /** The fields lie in the first 22 bytes. */
  lemma SameFields(p: seq<byte>, q: seq<byte>)
    requires |p| >= 22 && q == p[..22]
    ensures Framebuffer(q) == Framebuffer(p)
  {
    LEsame(q, p, 0, 8);
    LEsame(q, p, 8, 4);
    LEsame(q, p, 12, 4);
    LEsame(q, p, 16, 4);
  }

  // ---- The iterator ----

  class TagIterator {
    const mem: seq<byte> // memory from the information structure on
    var current: nat
    const end: nat

    constructor (mem: seq<byte>)
      requires |mem| >= 8 && Word(mem, 0) + 30 <= |mem|
      ensures Valid() && this.mem == mem && current == 8 && end == Word(mem, 0)
    {
      this.mem := mem;
      current, end := 8, Word(mem, 0);
    }

    predicate Valid()
    {
      end + 30 <= |mem|
    }

    /** Yields the next address and moves past it; at the end it stays where it is. */
    method Next() returns (tag: Option<nat>)
      requires Valid()
      modifies this`current
      ensures tag.Some? <==> TagAt(mem, old(current), end)
      ensures tag.Some? ==>
        && tag.value == old(current) && old(current) + 8 <= current
        && TagsFrom(mem, old(current), end) == [tag.value] + TagsFrom(mem, current, end)
        && current == old(current) + Padded(Word(mem, old(current) + 4))
      ensures tag.None? ==> current == old(current) && TagsFrom(mem, current, end) == []
    {
      if current >= end {
        return None;
      }
      var kind, size: nat := Word(mem, current), Word(mem, current + 4);
      if kind == TAG_END || size < 8 {
        return None;
      }
      tag := Some(current);
      current := current + (size + 7) / 8 * 8;
    }
  }

  method FindFramebuffer(mem: seq<byte>) returns (info: Option<FramebufferInfo>)
    requires |mem| >= 8 && Word(mem, 0) + 30 <= |mem|
    ensures info == FindFrom(mem, 8, Word(mem, 0))
  {
    hide Framebuffer, Word;
    var iter := new TagIterator(mem);
    var tag := iter.Next();
    while tag.Some?
      invariant iter.mem == mem && iter.end == Word(mem, 0)
      invariant tag.Some? ==>
        TagAt(mem, tag.value, iter.end) && iter.current == tag.value + Padded(Word(mem, tag.value + 4))
      invariant FindFrom(mem, 8, iter.end) == if tag.Some? then FindFrom(mem, tag.value, iter.end) else None
      decreases if tag.Some? then iter.end - tag.value else 0, if tag.Some? then 1 else 0
    {
      var at := tag.value;
      if Word(mem, at) == TAG_FRAMEBUFFER {
        return Some(Framebuffer(mem[at + 8..at + 30]));
      }
      tag := iter.Next();
    }
    return None;
  }
}
